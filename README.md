# ATOMS standup team picker — Dafny model

The picker is a single-page app that runs a "standup of standups": ten team
names are shown on a board in a shuffled display order, and each press of the
pick button, after a short thinking delay, proposes the next team to present.
The proposal always follows a fixed hidden priority list (the secret order),
whatever the board shows. It is the first team in that list whose board record
exists and is not yet completed. The user confirms the proposal, which crosses
the team off and shows it as the speaker, or cancels it, which changes nothing
on the board. Any team can be crossed off or restored by hand. Resetting
produces a fresh, reshuffled board.

The model has three modules:

- `Roster` (`roster.dfy`) holds the secret order and the Fisher–Yates display
  shuffle. The shuffle is an in-place array algorithm specified by the pure
  function `Shuffled`. The random index drawn at step `i` is supplied as
  `draws[i]`, constrained to `0 <= draws[i] <= i`.
- `Board` (`board.dfy`) holds the team record and the pure board operations:
  seeding, lookup by id, the secret-order scan, crossing a team off, the
  manual toggle and the remaining count. It also proves the properties that
  relate them.
- `Standup` (`app.dfy`) holds the component as a class `App`. Its fields are
  the five pieces of component state, and it has one method per event
  handler. The invariant `Valid` says that the board's ids are a permutation
  of the secret order, which has no empty name.

The main results:

- The scan proposes exactly the first not-yet-completed team in secret order.
  Two boards with the same records in different display orders get the same
  proposal, so the shuffle never influences who is picked.
- The scan finds nobody exactly when the remaining count is zero.
- Confirming lowers the count by one for an open team.
- Confirming twice is the same as confirming once.
- Toggling twice restores the board.
- Every handler keeps the board a permutation of the roster.
- The shuffle returns a permutation of its input.
- A cancelled pick, repeated, proposes the same team again.
- A worked three-team walkthrough shows the order of picks.

Some details of the code that the model keeps as written:

- The scan's result is tested for truthiness (`App.tsx:44`), so an empty team
  name would count as "no candidate". `Board.PickCandidate` keeps this
  behaviour. The equivalence "no proposal exactly when nothing remains"
  therefore carries the condition that no roster name is empty. The secret
  order satisfies that condition.
- Before the mount effect has run, the board is empty (`App.tsx:10`). The
  constructor models that first render. `InitializeTeams` models the mount
  effect.
- The pick handler has no guard for an exhausted board. Only the button's
  disabled state prevents the call. An exhausted scan therefore reports the
  notice, and the state is left unchanged apart from the thinking flag.
- Resetting clears only the board and the speaker. It does not touch the
  proposal, the dialog flag or the thinking flag.

## Model

| member | source | states |
|---|---|---|
| Roster.SecretOrder | constants.ts:2-13 | the hidden priority list has exactly ten names, no name twice and no empty name |
| Roster.Swap | constants.ts:20 | one exchange puts s[j] at i and s[i] at j, keeps the length and leaves every other position alone |
| Roster.SwapPermutes | constants.ts:20 | one exchange keeps the multiset of elements |
| Roster.SwapsDown | constants.ts:18-21 | the loop steps from i down to 1 keep the length |
| Roster.SwapsDownPermutes | constants.ts:18-21 | the loop steps from i down to 1 keep the multiset of elements |
| Roster.Shuffled | constants.ts:16-23 | the shuffle keeps the length, and inputs of length 0 or 1 come back unchanged because the loop never runs |
| Roster.ShuffledPermutes | constants.ts:16-23 | the shuffle returns a permutation of its input |
| Roster.SwapInPlace | constants.ts:20 | the destructuring assignment leaves the array equal to the exchanged sequence |
| Roster.ShuffleArray | constants.ts:16-23 | returns a new array, leaves the input alone, and yields exactly Shuffled(input, draws), a permutation of the input |
| Board.InitialTeams | App.tsx:22-26 | one record per roster name, in roster order, with name equal to id and not completed |
| Board.InitialBoard | App.tsx:21-29 | the seeded and shuffled board has ids that are a permutation of the roster, every record is fresh, and all of the roster is remaining |
| Board.Find | App.tsx:40 | the lookup by id fails exactly when no record has that id; otherwise it returns a record on the board with that id |
| Board.FindFirst | App.tsx:40 | a successful lookup returns the first record with that id |
| Board.FindUnique | App.tsx:45 | on a board without duplicate ids, looking up a record's id returns that record |
| Board.NextCandidate | App.tsx:39-42 | the scan finds nobody exactly when no roster name has an open record; otherwise it returns the name at the first roster position whose record exists and is open |
| Board.PickCandidate | App.tsx:39-47 | the proposed record is absent exactly when the scan finds nobody or finds the empty name; otherwise it is the open board record whose id is the scanned name |
| Board.FindTransfers | App.tsx:40 | a record found by id on one board is what find returns on any board holding the same records with distinct ids |
| Board.FindIgnoresOrder | App.tsx:40 | with distinct ids, the lookup by id gives the same answer for every display order of the same records |
| Board.ScanSameFind | App.tsx:39-42 | the scan looks at the board only through the lookup by id: boards on which every lookup agrees get the same scan |
| Board.ScanIgnoresDisplayOrder | App.tsx:39-46 | two roster boards holding the same records in any two display orders get the same scanned name and the same proposed record |
| Board.NoCandidateIffNoneRemaining | App.tsx:39-42 | on a board whose ids permute the roster, the scan finds nobody exactly when the remaining count is zero |
| Board.NoPickIffNoneRemaining | App.tsx:44-51 | with no empty roster name, the exhaustion notice is given exactly when the remaining count is zero |
| Board.RemainingCount | App.tsx:87 | the count lies between 0 and the board size; it is 0 exactly when every record is completed and the board size exactly when none is |
| Board.MarkCompleted | App.tsx:57-59 | confirming keeps ids, names and order, marks every record with the id completed, leaves the rest unchanged, and changes nothing for an unknown id |
| Board.MarkCompletedIdempotent | App.tsx:57-59 | confirming the same id twice equals confirming it once |
| Board.MarkCompletedRemaining | App.tsx:57-59 | with distinct ids, confirming a team lowers the remaining count by one if it was open, and by zero if it was already completed |
| Board.Toggle | App.tsx:71-77 | the manual toggle keeps ids, names and order, flips the flag of records with the id, leaves the rest unchanged, and changes nothing for an unknown id |
| Board.ToggleInvolution | App.tsx:72-76 | toggling the same id twice restores the board |
| Board.ThreeTeamWalkthrough | App.tsx:39-76 | with roster A, B, C, the draws 1 then 0 shuffle the seed board into the display order C, A, B; the scan picks A; after A is confirmed it picks B; after C is crossed off by hand it still picks B; after B is confirmed it finds nobody |
| Standup.App.constructor | App.tsx:10-14 | the first render has an empty board, no proposal, a closed dialog, no thinking, no speaker and the idle phase; the roster is the secret order |
| Standup.App.InitializeTeams | App.tsx:16-29 | the board becomes the shuffled seeded board, the invariant holds, every record is fresh and all teams are remaining |
| Standup.App.RequestPick | App.tsx:32-35 | a pick while thinking is ignored; otherwise thinking starts; thinking is on afterwards either way |
| Standup.App.DelayElapsed | App.tsx:38-53 | thinking ends; the notice is reported exactly when nothing remains; otherwise the dialog opens with the scan's record as the proposal; the board is never touched |
| Standup.App.PickNextTeam | App.tsx:32-54 | a pick while thinking changes nothing; otherwise the phase becomes pending confirmation with the first open team in secret order, or the notice is reported exactly when nothing remains |
| Standup.App.HandleConfirmSelection | App.tsx:56-63 | the confirmed team is crossed off, the remaining count drops by one if it was open, the dialog closes, the proposal clears, the team becomes the speaker and the invariant holds |
| Standup.App.HandleCancelSelection | App.tsx:65-69 | only the dialog and the proposal are cleared; the board is untouched |
| Standup.App.ToggleTeamStatus | App.tsx:71-77 | the board becomes the toggled board and the invariant holds |
| Standup.App.ResetBoard | App.tsx:79-84 | a declined reset changes nothing; a confirmed one reseeds the shuffled board with every team remaining and clears the speaker |
| Standup.App.FinishSpeaking | App.tsx:125 | finishing clears only the speaker |
| Standup.CancelThenRepick | App.tsx:65-69 | with teams remaining, a pick, a cancel and a second pick propose the same team, and the board is unchanged |

## Left out

- Rendering is not modelled: the JSX, styling, icons, animations, the team cards, the dialog and the speaker view.
- The 800 ms timer is not modelled as a delay. A pick is split into `RequestPick` (the synchronous part) and `DelayElapsed` (the timeout body). `PickNextTeam` runs the two back to back.
- The timeout body reads the board captured when the pick was made. The model scans the board as it is when `DelayElapsed` runs. The two differ only if the board is changed during the delay.
- The two browser dialogs become values. The exhaustion `alert` is the result `allSelected`. The reset's `window.confirm` answer is the parameter `confirmed`.
- `Math.random` is replaced by the `draws` parameter.
- ShuffleArray: does not state that every permutation is equally likely. That depends on the distribution of `Math.random`, which is outside the model.
- The pick button's disabled state (`App.tsx:143`) is presentation. The handler model does not assume it, so an exhausted pick reports the notice.
- The dialog calls confirm only with a non-null team. `HandleConfirmSelection` therefore takes a `Team`, not an optional one.
- React's batching of state updates is not modelled. Each handler applies its setters as one atomic update of the fields.
- `SelectionResult` (`types.ts:7-10`) is declared but unused by the app, so it is not modelled.
