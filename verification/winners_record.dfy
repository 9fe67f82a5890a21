/** The winners record file. Its presence is the draw lock: while it exists no new draw is
    offered, and its contents are the winners of the last draw. */
module WinnersRecord {
  import opened Wrappers
  import opened Roster

  /** The record file: absent (a draw may run) or present with the stored winners. */
  datatype Lock = Unlocked | Locked(winners: seq<Participant>)

  /** Reading or deleting a record file that does not exist fails. */
  datatype StoreError = NotFound

  /** Whether the record file exists. */
  predicate Exists(lock: Lock)
  {
    lock.Locked?
  }

  /** Reads the stored winners back; fails when there is no record. */
  function Read(lock: Lock): (r: Result<seq<Participant>, StoreError>)
    ensures r.Success? <==> Exists(lock)
    ensures r.Failure? ==> r.error == NotFound
  {
    match lock
    case Unlocked => Failure(NotFound)
    case Locked(w) => Success(w)
  }

  /** Writes the winners as the record, replacing any record already there. */
  function Write(lock: Lock, winners: seq<Participant>): (next: Lock)
    ensures Exists(next)
    ensures Read(next) == Success(winners)
  {
    Locked(winners)
  }

  /** Deletes the record; fails when there is none. */
  function Remove(lock: Lock): (r: Result<Lock, StoreError>)
    ensures r.Success? <==> Exists(lock)
    ensures r.Failure? ==> r.error == NotFound
    ensures r.Success? ==> !Exists(r.value) && Read(r.value) == Failure(NotFound)
  {
    match lock
    case Unlocked => Failure(NotFound)
    case Locked(_) => Success(Unlocked)
  }

  /** Writing back what was just read leaves the record as it was. */
  lemma ReadThenWrite(lock: Lock)
    requires Exists(lock)
    ensures Write(lock, Read(lock).value) == lock
  {
  }

  /** Deleting a freshly written record leaves no record, and a second delete fails. */
  lemma WriteThenRemove(lock: Lock, winners: seq<Participant>)
    ensures Remove(Write(lock, winners)) == Success(Unlocked)
    ensures Remove(Remove(Write(lock, winners)).value) == Failure(NotFound)
  {
  }
}
