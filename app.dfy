/**
 * The picker component as an object: its five pieces of component state and
 * one method per event handler. The board value is replaced wholesale by each
 * handler that changes it, as the component's state setter does.
 */
module Standup {
  import opened Roster
  import opened Board

  /** The workflow phases the component state encodes. */
  datatype Phase = Idle | Thinking | PendingConfirm | Speaking

  class App {
    /** The hidden order, fixed for the life of the component. */
    const roster: seq<string>
    var teams: seq<Team>
    var selectedTeam: Option<Team>
    var isModalOpen: bool
    var isThinking: bool
    var speakingTeam: Option<Team>

    /** After mount the board's ids are always a permutation of the roster. */
    ghost predicate Valid()
      reads this
    {
      RosterBoard(roster, teams) && "" !in roster
    }

    /** The phase shown to the user: spinner, confirmation dialog, speaker view or the pick button. */
    function CurrentPhase(): Phase
      reads this
    {
      if isThinking then Thinking
      else if isModalOpen then PendingConfirm
      else if speakingTeam.Some? then Speaking
      else Idle
    }

    /** The first render: an empty board, nothing selected, nobody speaking. */
    constructor ()
      ensures roster == SecretOrder() && Distinct(roster) && "" !in roster && |roster| == 10
      ensures teams == [] && selectedTeam == None && speakingTeam == None
      ensures !isModalOpen && !isThinking
      ensures CurrentPhase() == Idle
    {
      roster := SecretOrder();
      teams := [];
      selectedTeam := None;
      isModalOpen := false;
      isThinking := false;
      speakingTeam := None;
    }

    /**
     * Seeds the board: one fresh record per roster name, in shuffled display
     * order. The mount effect runs this once after the first render.
     */
    method InitializeTeams(draws: seq<nat>)
      requires Distinct(roster) && "" !in roster
      requires ValidDraws(draws, |roster|)
      modifies this`teams
      ensures teams == Shuffled(InitialTeams(roster), draws)
      ensures Valid()
      ensures forall t :: t in teams ==> t.name == t.id && !t.isCompleted
      ensures RemainingCount(teams) == |roster|
    {
      var initial := InitialTeams(roster);
      var a := new Team[|initial|](k requires 0 <= k < |initial| => initial[k]);
      assert a[..] == initial;
      var shuffled := ShuffleArray(a, draws);
      teams := shuffled[..];
      InitialBoard(roster, draws);
    }

    /** The start of a pick: ignored while thinking, otherwise enters the thinking phase. */
    method RequestPick() returns (started: bool)
      modifies this`isThinking
      ensures started == !old(isThinking)
      ensures isThinking
    {
      if isThinking {
        started := false;
        return;
      }
      isThinking := true;
      started := true;
    }

    /**
     * The deferred part of a pick: scan the roster against the current board;
     * a candidate is put up for confirmation, otherwise allSelected reports the
     * exhaustion notice. Either way the thinking phase ends.
     */
    method DelayElapsed() returns (allSelected: bool)
      requires Valid()
      modifies this`selectedTeam, this`isModalOpen, this`isThinking
      ensures Valid() && !isThinking
      ensures allSelected <==> PickCandidate(roster, teams).None?
      ensures allSelected <==> RemainingCount(teams) == 0
      ensures allSelected ==> selectedTeam == old(selectedTeam) && isModalOpen == old(isModalOpen)
      ensures !allSelected ==> isModalOpen && selectedTeam.Some? && selectedTeam == PickCandidate(roster, teams)
    {
      var candidate := PickCandidate(roster, teams);
      NoPickIffNoneRemaining(roster, teams);
      if candidate.Some? {
        selectedTeam := candidate;
        isModalOpen := true;
        allSelected := false;
      } else {
        allSelected := true;
      }
      isThinking := false;
    }

    /** A whole pick with the delay collapsed into one step. */
    method PickNextTeam() returns (allSelected: bool)
      requires Valid()
      modifies this`selectedTeam, this`isModalOpen, this`isThinking
      ensures Valid()
      ensures old(isThinking) ==> unchanged(this) && !allSelected
      ensures !old(isThinking) ==> !isThinking
      ensures !old(isThinking) ==> (allSelected <==> RemainingCount(teams) == 0)
      ensures !old(isThinking) && allSelected ==>
        selectedTeam == old(selectedTeam) && isModalOpen == old(isModalOpen)
      ensures !old(isThinking) && !allSelected ==>
        CurrentPhase() == PendingConfirm && selectedTeam.Some? && selectedTeam == PickCandidate(roster, teams)
    {
      var started := RequestPick();
      if started {
        allSelected := DelayElapsed();
      } else {
        allSelected := false;
      }
    }

    /**
     * Confirming the presented team: its record becomes completed, the dialog
     * closes and the team becomes the speaker.
     */
    method HandleConfirmSelection(team: Team)
      requires Valid()
      modifies this`teams, this`isModalOpen, this`selectedTeam, this`speakingTeam
      ensures Valid()
      ensures teams == MarkCompleted(old(teams), team.id)
      ensures !isModalOpen && selectedTeam == None && speakingTeam == Some(team)
      ensures !isThinking ==> CurrentPhase() == Speaking
      ensures forall k :: 0 <= k < |old(teams)| && old(teams)[k].id == team.id ==>
        RemainingCount(teams) == RemainingCount(old(teams)) - (if old(teams)[k].isCompleted then 0 else 1)
    {
      RosterBoardDistinctIds(roster, teams);
      forall k | 0 <= k < |teams| && teams[k].id == team.id
        ensures RemainingCount(MarkCompleted(teams, team.id)) ==
                RemainingCount(teams) - (if teams[k].isCompleted then 0 else 1)
      {
        MarkCompletedRemaining(teams, k);
      }
      teams := MarkCompleted(teams, team.id);
      isModalOpen := false;
      selectedTeam := None;
      speakingTeam := Some(team);
    }

    /** Cancelling the dialog: nothing on the board changes, so the same team comes up next time. */
    method HandleCancelSelection()
      modifies this`isModalOpen, this`selectedTeam
      ensures !isModalOpen && selectedTeam == None
    {
      isModalOpen := false;
      selectedTeam := None;
    }

    /** The manual override from the board view, in any phase. */
    method ToggleTeamStatus(id: string)
      requires Valid()
      modifies this`teams
      ensures Valid()
      ensures teams == Toggle(old(teams), id)
    {
      teams := Toggle(teams, id);
    }

    /** Resetting, when the user confirms it: a freshly seeded board and no speaker. */
    method ResetBoard(confirmed: bool, draws: seq<nat>)
      requires Valid()
      requires ValidDraws(draws, |roster|)
      modifies this`teams, this`speakingTeam
      ensures Valid()
      ensures !confirmed ==> unchanged(this)
      ensures confirmed ==> teams == Shuffled(InitialTeams(roster), draws) && speakingTeam == None
      ensures confirmed ==> RemainingCount(teams) == |roster| && forall t :: t in teams ==> !t.isCompleted
    {
      if confirmed {
        InitializeTeams(draws);
        speakingTeam := None;
      }
    }

    /** The speaker finishes: only the speaker is cleared. */
    method FinishSpeaking()
      modifies this`speakingTeam
      ensures speakingTeam == None
    {
      speakingTeam := None;
    }
  }

  /**
   * A pick that is cancelled and then repeated puts the same team up again,
   * because cancelling leaves the board alone and the scan is deterministic.
   */
  method CancelThenRepick(app: App) returns (first: Option<Team>, second: Option<Team>)
    requires app.Valid() && !app.isThinking
    requires RemainingCount(app.teams) > 0
    modifies app
    ensures app.Valid()
    ensures first.Some? && first == second
    ensures app.teams == old(app.teams)
  {
    ghost var candidate := PickCandidate(app.roster, app.teams);
    var exhausted := app.PickNextTeam();
    first := app.selectedTeam;
    assert first == candidate && first.Some?;
    app.HandleCancelSelection();
    assert app.Valid() && !app.isThinking && PickCandidate(app.roster, app.teams) == candidate;
    exhausted := app.PickNextTeam();
    second := app.selectedTeam;
  }
}
