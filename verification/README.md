# EGSA lottery draw state machine

A Dafny model of the decision core of the EGSA Lottery Winners app (`app.py`), a Streamlit
page that runs one authorized random draw of winners from a members roster, keeps the result
in a winners record file so that the draw cannot be repeated, and lets the admin delete that
record to open a new round.

The model has five modules:

- `Wrappers` (`wrappers.dfy`): `Option` and `Result`.
- `Access` (`access.dfy`): the passcode gate. One hard-coded passcode, `"EGSA2025!"`,
  enables both the draw and the reset. Only an exact match grants access. A wrong non-empty
  passcode shows the "invalid passcode" error, and an empty field shows only the read-only
  notice.
- `Roster` (`roster.dfy`): a participant is one row of the members sheet. `Pick` takes the
  rows at given positions. `IsSampleOf` says what a sample without replacement is: the rows at
  pairwise distinct positions. `SampleFacts` derives the facts every such sample has, with
  `PickSubMultiset` doing the induction.
- `WinnersRecord` (`winners_record.dfy`): the winners record file as
  `Lock = Unlocked | Locked(winners)`. The file's presence is the lock. `Read` and `Remove`
  fail with `NotFound` when the file is missing, and `Write` overwrites.
- `Lottery` (`lottery.dfy`): the app state `App(members, record)`, plus:
  - start-up (`Start`);
  - the draw (`PickWinners`) and the reset (`ResetRound`) as pure transitions;
  - one run of the page (`Step`): passcode, then a lock branch, then a button;
  - a sequence of runs (`Session`), with lemmas across runs.

Randomness is an input. `DataFrame.sample(n=k)` draws without replacement. The model takes a
random ordering of all row positions, supplied by the caller as `order` (a permutation of
`0 .. |members|-1`), and the winners are the rows at its first `k` positions, in that order.
The precondition on `order` does not depend on `k`, so a count outside the bounds can still
be requested and is refused.

Facts about the code that shape the model:

- The page has one constant passcode, used for both the draw and the reset. There is no
  configured secret that could be missing.
- Writing the record overwrites any file already there. Nothing at the store refuses a second
  write. Only the lock branch of the page (app.py:58) keeps a second draw from being offered.
- The page never produces a refusal. Out-of-range counts are excluded by the widget's
  `min_value=1` / `max_value=len(members_df)`. The draw button is shown only when no record
  exists, and the reset button only when one does. The model's refusals are explicit stand-ins
  for these missing paths:
  - `InvalidCount` for a count outside the widget's bounds;
  - `AlreadyDrawn` from `PickWinners` on a locked app;
  - `NotLocked` from `ResetRound` on an unlocked app.

  `Step` never shows `AlreadyDrawn` or `NotLocked`, because it offers each action only in its
  own branch, as the page does.

## Model

| member | source | states |
|---|---|---|
| Access.Check | app.py:47-52 | only an exact match with the hard-coded passcode grants access; a refused passcode shows the invalid-passcode error exactly when it is non-empty |
| Access.EmptyPasscodeDenied | app.py:125-128 | an empty passcode field never grants access and shows only the read-only notice, no error |
| Roster.Pick | app.py:96 | the picked rows are as many as the positions, and the i-th winner is the roster row at the i-th sampled position (sampled order, re-indexed from 0) |
| Roster.PickSubMultiset | app.py:96 | rows at pairwise distinct positions form a sub-multiset of the roster: nobody is drawn more often than they are listed |
| Roster.SampleFacts | app.py:96 | every sample without replacement has at most as many winners as the roster has members; each winner is a member; winners of a roster without repeated rows are pairwise distinct; a sample of the whole roster is a reordering of it |
| WinnersRecord.Read | app.py:68 | reading the record succeeds exactly when the file exists, and fails with NotFound otherwise |
| WinnersRecord.Write | app.py:102 | after a write the record exists and reading it back returns exactly the winners written |
| WinnersRecord.Remove | app.py:62 | deleting succeeds exactly when the record exists, and afterwards no record exists and a read fails |
| WinnersRecord.ReadThenWrite | app.py:68 | writing back what was read leaves the record unchanged |
| WinnersRecord.WriteThenRemove | app.py:61-62 | deleting a freshly written record unlocks, and a second delete fails with NotFound |
| Lottery.Start | app.py:29-38 | start-up fails exactly when the members file is missing; otherwise the roster is the file's rows, and the app starts locked exactly when a winners record exists, holding that record's winners |
| Lottery.PickWinners | app.py:71-102 | a draw succeeds exactly when no record exists and 1 <= count <= roster size. A record gives AlreadyDrawn, which stands in for the page not offering the draw button then. On success there are exactly count winners, they form a sample without replacement, the i-th is the row at the i-th sampled position, the record now reads back as those winners, and the roster is unchanged |
| Lottery.ResetRound | app.py:58-64 | a reset succeeds exactly when a record exists and leaves no record; otherwise NotLocked; the roster is unchanged |
| Lottery.Step | app.py:45-128 | one run never changes the roster. A wrong passcode changes nothing and shows the denied view. With the right passcode: a present record with a reset click is deleted and nothing else changes; a present record without a reset click is shown read back from the file and nothing changes; without a record, the count form with bounds 1 and the roster size is shown unless a draw is clicked. New winners are shown exactly when the passcode is right, no record exists, and a draw is clicked with a count within bounds. They are then exactly count rows, the i-th being the row at the i-th sampled position, and they are what the record reads back. A count out of bounds leaves the app unchanged with InvalidCount. A locked record is never replaced by another |
| Lottery.Session | app.py:32-35 | over any sequence of runs the roster stays the one loaded, there is one view per run, and the record ends up changed only if some run typed the right passcode |
| Lottery.AtMostOneDrawPerRound | app.py:58-71 | without an authorized reset, a locked app keeps its record and draws nothing, and an unlocked app draws at most once |
| Lottery.WrongPasscodesChangeNothing | app.py:125-128 | any sequence of runs with wrong passcodes leaves the app exactly as it was and shows only denied views |
| Lottery.DrawThenShowPrevious | app.py:58-102 | after a valid draw the next authorized run shows the same winners read back from the record, and clicking draw again changes nothing |
| Lottery.ResetReopensDraw | app.py:58-80 | an authorized reset of a locked app deletes the record, after which the count form is offered again and a valid draw succeeds |

## Left out

- Streamlit presentation: page setup, tables, messages, the expander, the progress-bar
  animation with `time.sleep` (app.py:86-94) and `experimental_rerun`. A run's screen is
  reduced to a `View` value. The run after a reset is a new `Step`.
- Excel reading and writing through pandas, and the download export `convert_df_to_excel` /
  `download_button` (app.py:107-120). These are file-format I/O. The record file is modelled by
  its contents, and the roster file by its rows.
- A failing record write. `Write` always succeeds. If `to_excel` at app.py:102 raised, the page
  would already have shown the winners (app.py:99) but stay unlocked. The model assumes the write
  succeeds, so a shown draw is always the stored record.
- Changes to `winners_record.xlsx` made outside the page, such as deleting it by hand as the
  admin note at app.py:136-137 suggests. The record changes only through page runs, so the
  statement that a locked app keeps its record without an authorized reset
  (`AtMostOneDrawPerRound`) assumes nobody else touches the file.
- Uniformity of the random sample. Probability is not stated. The random ordering is an input,
  and the model states only size, distinctness of the sampled rows, membership and order.
- The missing members file is modelled only as the error outcome of `Start`. The app's
  `st.stop()` is not modelled beyond that.
- An empty roster. The widget's bounds 1 and 0 conflict there, and the page defines no
  behaviour for it. The model refuses every count with `InvalidCount` and shows a count form
  whose bounds are 1 and 0.
- Concurrency between two sessions racing the check-then-write. The page has no protection,
  and runs are modelled one at a time.
- Edits to the members file between runs. `Session` keeps the roster that was loaded at start.
- Credentials beyond the page's one constant passcode (app.py:47). The page has no separate reset
  passcode and no configured secret.
