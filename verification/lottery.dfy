/** The draw state machine of the lottery app: a passcode gate in front of a two-state
    machine whose state is the presence of the winners record. */
module Lottery {
  import opened Wrappers
  import opened Roster
  import opened WinnersRecord
  import Access

  /** What the app works on: the members roster (read-only) and the winners record. */
  datatype App = App(members: seq<Participant>, record: Lock)

  /** The members file could not be found at start-up. */
  datatype LoadError = MembersFileMissing

  /** Why a draw or reset was refused. */
  datatype DrawError = AlreadyDrawn | InvalidCount | NotLocked

  /** A successful draw: the app after the record is written, and the winners shown. */
  datatype Drawn = Drawn(app: App, winners: seq<Participant>)

  /** The operator's action on one run of the page. A draw carries the requested count and
      the random ordering of the roster rows that the sample takes its leading rows from. */
  datatype Click = NoClick | PickClick(count: int, order: seq<nat>) | ResetClick

  /** One run of the page: the passcode field and the button pressed. */
  datatype Input = Input(passcode: string, click: Click)

  /** What one run shows. */
  datatype View =
    | AccessDenied(invalidShown: bool)
    | PreviousWinners(winners: seq<Participant>)
    | CountForm(minCount: int, maxCount: int)
    | WinnersSelected(winners: seq<Participant>)
    | DrawRefused(reason: DrawError)
    | RecordDeleted

  /** The app and the view after one run. */
  datatype Outcome = Outcome(app: App, view: View)

  /** The app after a sequence of runs, and the view of each run in turn. */
  datatype Trace = Trace(last: App, views: seq<View>)

  /** Loads the app from the members file and the winners record file, either of which may
      be absent. A missing members file stops the app; a present record starts it locked. */
  function Start(membersFile: Option<seq<Participant>>, winnersFile: Option<seq<Participant>>)
    : (r: Result<App, LoadError>)
    ensures r.Failure? <==> membersFile.None?
    ensures r.Success? ==> r.value.members == membersFile.value
    ensures r.Success? ==> (Exists(r.value.record) <==> winnersFile.Some?)
    ensures r.Success? && winnersFile.Some? ==> Read(r.value.record) == Success(winnersFile.value)
  {
    match membersFile
    case None => Failure(MembersFileMissing)
    case Some(members) =>
      match winnersFile
      case None => Success(App(members, Unlocked))
      case Some(w) => Success(App(members, Write(Unlocked, w)))
  }

  /** Draws `count` winners and commits them as the record. Refused while a record exists,
      and for a count outside the widget's bounds. */
  function PickWinners(app: App, count: int, order: seq<nat>): (r: Result<Drawn, DrawError>)
    requires IsRowOrdering(order, |app.members|)
    ensures r.Success? <==> !Exists(app.record) && ValidCount(count, |app.members|)
    ensures r.Failure? ==> (r.error == AlreadyDrawn <==> Exists(app.record))
    ensures r.Failure? ==> r.error != NotLocked
    ensures r.Success? ==> r.value.app.members == app.members
    ensures r.Success? ==> |r.value.winners| == count && IsSampleOf(r.value.winners, app.members)
    ensures r.Success? ==> forall i :: 0 <= i < count ==> r.value.winners[i] == app.members[order[i]]
    ensures r.Success? ==> Read(r.value.app.record) == Success(r.value.winners)
  {
    if Exists(app.record) then Failure(AlreadyDrawn)
    else if !ValidCount(count, |app.members|) then Failure(InvalidCount)
    else
      var rows := order[..count];
      assert IsRowSelection(rows, |app.members|);
      var winners := Pick(app.members, rows);
      Success(Drawn(app.(record := Write(app.record, winners)), winners))
  }

  /** Deletes the record so that a new round can be drawn. Refused when there is no record. */
  function ResetRound(app: App): (r: Result<App, DrawError>)
    ensures r.Success? <==> Exists(app.record)
    ensures r.Failure? ==> r.error == NotLocked
    ensures r.Success? ==> r.value.members == app.members && !Exists(r.value.record)
  {
    match Remove(app.record)
    case Success(next) => Success(app.(record := next))
    case Failure(_) => Failure(NotLocked)
  }

  /** An input the sampler could have produced for a roster of `size` rows. */
  predicate Admissible(input: Input, size: nat)
  {
    input.click.PickClick? ==> IsRowOrdering(input.click.order, size)
  }

  /** One run of the page. A wrong passcode changes nothing. With the right one, an existing
      record is shown and may be deleted; without a record, the count form is shown and a
      click on the draw button draws and commits the winners. */
  function Step(app: App, input: Input): (r: Outcome)
    requires Admissible(input, |app.members|)
    ensures r.app.members == app.members
    ensures input.passcode != Access.AuthorizedCode ==> r == Outcome(app, AccessDenied(input.passcode != ""))
    ensures r.app.record != app.record <==>
              && input.passcode == Access.AuthorizedCode
              && ( || (Exists(app.record) && input.click.ResetClick?)
                   || (!Exists(app.record) && input.click.PickClick?
                       && ValidCount(input.click.count, |app.members|)))
    ensures Exists(app.record) && Exists(r.app.record) ==> r.app.record == app.record
    ensures r.view.WinnersSelected? ==>
              && !Exists(app.record)
              && Read(r.app.record) == Success(r.view.winners)
              && IsSampleOf(r.view.winners, app.members)
    ensures r.view.PreviousWinners? ==> r.app == app && Read(app.record) == Success(r.view.winners)
    ensures input.passcode == Access.AuthorizedCode && Exists(app.record) ==>
              if input.click.ResetClick? then r == Outcome(app.(record := Unlocked), RecordDeleted)
              else r == Outcome(app, PreviousWinners(Read(app.record).value))
    ensures r.view.CountForm? ==> !Exists(app.record) && r == Outcome(app, CountForm(1, |app.members|))
    ensures input.passcode == Access.AuthorizedCode && !Exists(app.record) && !input.click.PickClick? ==>
              r.view.CountForm?
    ensures r.view.WinnersSelected? <==>
              && input.passcode == Access.AuthorizedCode
              && !Exists(app.record)
              && input.click.PickClick?
              && ValidCount(input.click.count, |app.members|)
    ensures r.view.WinnersSelected? ==>
              && |r.view.winners| == input.click.count
              && forall i :: 0 <= i < |r.view.winners| ==> r.view.winners[i] == app.members[input.click.order[i]]
    ensures r.view.DrawRefused? ==> r.app == app && r.view.reason == InvalidCount
    ensures (&& input.passcode == Access.AuthorizedCode
             && !Exists(app.record)
             && input.click.PickClick?
             && !ValidCount(input.click.count, |app.members|))
            ==> r == Outcome(app, DrawRefused(InvalidCount))
  {
    match Access.Check(input.passcode)
    case Denied(shown) => Outcome(app, AccessDenied(shown))
    case Granted =>
      if Exists(app.record) then
        if input.click.ResetClick? then Outcome(ResetRound(app).value, RecordDeleted)
        else Outcome(app, PreviousWinners(Read(app.record).value))
      else
        match input.click
        case PickClick(count, order) =>
          (match PickWinners(app, count, order)
           case Success(d) => Outcome(d.app, WinnersSelected(d.winners))
           case Failure(e) => Outcome(app, DrawRefused(e)))
        case _ => Outcome(app, CountForm(1, |app.members|))
  }

  /** Every input of the sequence is admissible for a roster of `size` rows. */
  predicate AllAdmissible(inputs: seq<Input>, size: nat)
  {
    forall i :: 0 <= i < |inputs| ==> Admissible(inputs[i], size)
  }

  /** A sequence of runs, each starting from the app the previous one left. */
  function Session(app: App, inputs: seq<Input>): (t: Trace)
    requires AllAdmissible(inputs, |app.members|)
    ensures |t.views| == |inputs|
    ensures t.last.members == app.members
    ensures t.last.record != app.record ==>
              exists i :: 0 <= i < |inputs| && inputs[i].passcode == Access.AuthorizedCode
    decreases |inputs|
  {
    if inputs == [] then Trace(app, [])
    else
      var first := Step(app, inputs[0]);
      var rest := Session(first.app, inputs[1..]);
      Trace(rest.last, [first.view] + rest.views)
  }

  /** An authorized click on the reset button. */
  predicate IsReset(input: Input)
  {
    input.passcode == Access.AuthorizedCode && input.click.ResetClick?
  }

  /** How many runs drew winners. */
  function DrawCount(views: seq<View>): nat
  {
    if views == [] then 0
    else (if views[0].WinnersSelected? then 1 else 0) + DrawCount(views[1..])
  }

  /** Between resets there is at most one draw: a locked app keeps its record and draws
      nothing, and an unlocked one draws at most once. */
  lemma {:induction false} AtMostOneDrawPerRound(app: App, inputs: seq<Input>)
    requires AllAdmissible(inputs, |app.members|)
    requires forall i :: 0 <= i < |inputs| ==> !IsReset(inputs[i])
    ensures DrawCount(Session(app, inputs).views) <= (if Exists(app.record) then 0 else 1)
    ensures Exists(app.record) ==> Session(app, inputs).last.record == app.record
    decreases |inputs|
  {
    if inputs != [] {
      var first := Step(app, inputs[0]);
      assert !IsReset(inputs[0]);
      assert forall i :: 0 <= i < |inputs[1..]| ==> !IsReset(inputs[1..][i]) by {
        forall i | 0 <= i < |inputs[1..]|
          ensures !IsReset(inputs[1..][i])
        {
          assert inputs[1..][i] == inputs[i + 1];
        }
      }
      assert AllAdmissible(inputs[1..], |first.app.members|) by {
        forall i | 0 <= i < |inputs[1..]|
          ensures Admissible(inputs[1..][i], |first.app.members|)
        {
          assert inputs[1..][i] == inputs[i + 1];
        }
      }
      AtMostOneDrawPerRound(first.app, inputs[1..]);
      var t := Session(app, inputs);
      assert t.views == [first.view] + Session(first.app, inputs[1..]).views;
      assert DrawCount(t.views)
          == (if first.view.WinnersSelected? then 1 else 0) + DrawCount(Session(first.app, inputs[1..]).views);
      if !first.view.WinnersSelected? && !Exists(app.record) {
        assert first.app.record == app.record;
      }
    }
  }

  /** A session of runs with wrong passcodes leaves the app exactly as it was and shows only
      the access-denied view. */
  lemma {:induction false} WrongPasscodesChangeNothing(app: App, inputs: seq<Input>)
    requires AllAdmissible(inputs, |app.members|)
    requires forall i :: 0 <= i < |inputs| ==> inputs[i].passcode != Access.AuthorizedCode
    ensures Session(app, inputs).last == app
    ensures forall i :: 0 <= i < |inputs| ==> Session(app, inputs).views[i].AccessDenied?
    decreases |inputs|
  {
    if inputs != [] {
      var first := Step(app, inputs[0]);
      assert first.app == app;
      assert forall i :: 0 <= i < |inputs[1..]| ==> inputs[1..][i].passcode != Access.AuthorizedCode;
      assert AllAdmissible(inputs[1..], |app.members|) by {
        forall i | 0 <= i < |inputs[1..]|
          ensures Admissible(inputs[1..][i], |app.members|)
        {
          assert inputs[1..][i] == inputs[i + 1];
        }
      }
      WrongPasscodesChangeNothing(app, inputs[1..]);
      var t := Session(app, inputs);
      var rest := Session(app, inputs[1..]);
      assert t.views == [first.view] + rest.views;
      forall i | 0 <= i < |inputs|
        ensures t.views[i].AccessDenied?
      {
        if i > 0 {
          assert t.views[i] == rest.views[i - 1];
        }
      }
    }
  }

  /** A draw locks the app, and the next authorized run shows the same winners read back
      from the record; pressing the draw button again changes nothing. */
  lemma DrawThenShowPrevious(app: App, count: int, order: seq<nat>, again: seq<nat>, k: int)
    requires !Exists(app.record)
    requires ValidCount(count, |app.members|)
    requires IsRowOrdering(order, |app.members|)
    requires IsRowOrdering(again, |app.members|)
    ensures Step(app, Input(Access.AuthorizedCode, PickClick(count, order))).view.WinnersSelected?
    ensures var drawn := Step(app, Input(Access.AuthorizedCode, PickClick(count, order)));
            && Step(drawn.app, Input(Access.AuthorizedCode, NoClick))
               == Outcome(drawn.app, PreviousWinners(drawn.view.winners))
            && Step(drawn.app, Input(Access.AuthorizedCode, PickClick(k, again)))
               == Outcome(drawn.app, PreviousWinners(drawn.view.winners))
  {
  }

  /** An authorized reset of a locked app deletes the record, after which a draw is again
      offered and succeeds. */
  lemma ResetReopensDraw(app: App, count: int, order: seq<nat>)
    requires Exists(app.record)
    requires ValidCount(count, |app.members|)
    requires IsRowOrdering(order, |app.members|)
    ensures Step(app, Input(Access.AuthorizedCode, ResetClick)) == Outcome(app.(record := Unlocked), RecordDeleted)
    ensures Step(app.(record := Unlocked), Input(Access.AuthorizedCode, NoClick)).view
            == CountForm(1, |app.members|)
    ensures Step(app.(record := Unlocked), Input(Access.AuthorizedCode, PickClick(count, order))).view.WinnersSelected?
  {
  }
}
