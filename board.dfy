/**
 * The board of teams and the pure computations the picker performs on it:
 * seeding from the roster, the roster-ordered scan for the next presenter,
 * the two single-record rewrites (confirm, toggle) and the remaining count.
 */
module Board {
  import opened Roster

  datatype Option<T> = None | Some(value: T)

  /** One participant on the board; only isCompleted ever changes. */
  datatype Team = Team(id: string, name: string, isCompleted: bool)

  /** The ids of the board, in display order. */
  function Ids(board: seq<Team>): (r: seq<string>)
    ensures |r| == |board|
    ensures forall k :: 0 <= k < |board| ==> r[k] == board[k].id
  {
    seq(|board|, k requires 0 <= k < |board| => board[k].id)
  }

  /** The board invariant: its ids are a permutation of a duplicate-free roster. */
  ghost predicate RosterBoard(roster: seq<string>, board: seq<Team>) {
    Distinct(roster) && multiset(Ids(board)) == multiset(roster)
  }

  /** Team records are told apart by their ids whenever the board is a roster board. */
  lemma RosterBoardDistinctIds(roster: seq<string>, board: seq<Team>)
    requires RosterBoard(roster, board)
    ensures Distinct(Ids(board))
  {
    DistinctPermutation(Ids(board), roster);
  }

  // ---------------------------------------------------------------------------
  // Seeding the board

  /** One fresh record per roster name, id and name both the roster name. */
  function InitialTeams(roster: seq<string>): (r: seq<Team>)
    ensures Ids(r) == roster
    ensures forall k :: 0 <= k < |r| ==> r[k].name == r[k].id && !r[k].isCompleted
  {
    seq(|roster|, k requires 0 <= k < |roster| => Team(roster[k], roster[k], false))
  }

  /** Taking the ids commutes with the shuffle steps. */
  lemma {:induction false} IdsSwapsDown(s: seq<Team>, draws: seq<nat>, i: nat)
    requires i < |s| && ValidDraws(draws, |s|)
    ensures Ids(SwapsDown(s, draws, i)) == SwapsDown(Ids(s), draws, i)
    decreases i
  {
    if i > 0 {
      var j := draws[i];
      assert Ids(Swap(s, i, j)) == Swap(Ids(s), i, j);
      IdsSwapsDown(Swap(s, i, j), draws, i - 1);
    }
  }

  /**
   * The shuffled seed board is a roster board of fresh records: every
   * record has id == name, none is completed, and all of them remain.
   */
  lemma InitialBoard(roster: seq<string>, draws: seq<nat>)
    requires Distinct(roster)
    requires ValidDraws(draws, |roster|)
    ensures RosterBoard(roster, Shuffled(InitialTeams(roster), draws))
    ensures forall t :: t in Shuffled(InitialTeams(roster), draws) ==> t.name == t.id && !t.isCompleted
    ensures RemainingCount(Shuffled(InitialTeams(roster), draws)) == |roster|
  {
    var init := InitialTeams(roster);
    var b := Shuffled(init, draws);
    if |init| > 0 {
      IdsSwapsDown(init, draws, |init| - 1);
    }
    ShuffledPermutes(Ids(init), draws);
    ShuffledPermutes(init, draws);
    forall t | t in b ensures t.name == t.id && !t.isCompleted {
      assert t in multiset(b);
    }
  }

  // ---------------------------------------------------------------------------
  // Lookup and the next-presenter scan

  /** Record k is the first on the board with the given id. */
  ghost predicate FirstWithId(board: seq<Team>, id: string, k: int) {
    0 <= k < |board| && board[k].id == id &&
    forall k' :: 0 <= k' < k ==> board[k'].id != id
  }

  /** The board's find by id: a record carrying it, if there is any. */
  function Find(board: seq<Team>, id: string): (r: Option<Team>)
    ensures r.None? <==> forall k :: 0 <= k < |board| ==> board[k].id != id
    ensures r.Some? ==> r.value in board && r.value.id == id
  {
    if |board| == 0 then None
    else if board[0].id == id then Some(board[0])
    else
      var r := Find(board[1..], id);
      assert r.None? ==> forall k :: 0 <= k < |board| ==> board[k].id != id by {
        if r.None? {
          forall k | 0 < k < |board| ensures board[k].id != id {
            assert board[k] == board[1..][k - 1];
          }
        }
      }
      r
  }

  /** The record find returns is the first one on the board with that id. */
  lemma {:induction false} FindFirst(board: seq<Team>, id: string)
    requires Find(board, id).Some?
    ensures exists k :: FirstWithId(board, id, k) && Find(board, id).value == board[k]
  {
    if board[0].id == id {
      assert FirstWithId(board, id, 0);
    } else {
      FindFirst(board[1..], id);
      var k :| FirstWithId(board[1..], id, k) && Find(board[1..], id).value == board[1..][k];
      assert FirstWithId(board, id, k + 1);
    }
  }

  /** Dropping the first record of a board with distinct ids keeps them distinct and loses that id. */
  lemma DistinctIdsTail(board: seq<Team>)
    requires |board| > 0 && Distinct(Ids(board))
    ensures Distinct(Ids(board[1..]))
    ensures board[0].id !in Ids(board[1..])
  {
    var rest := board[1..];
    forall i, j | 0 <= i < j < |rest| ensures Ids(rest)[i] != Ids(rest)[j] {
      assert Ids(board)[i + 1] == Ids(rest)[i] && Ids(board)[j + 1] == Ids(rest)[j];
    }
    forall j | 0 <= j < |rest| ensures Ids(rest)[j] != board[0].id {
      assert Ids(board)[j + 1] == Ids(rest)[j] && Ids(board)[0] == board[0].id;
    }
  }

  /** On a board with distinct ids, find returns the one record with that id. */
  lemma {:induction false} FindUnique(board: seq<Team>, k: nat)
    requires Distinct(Ids(board))
    requires k < |board|
    ensures Find(board, board[k].id) == Some(board[k])
  {
    if k > 0 {
      var rest := board[1..];
      DistinctIdsTail(board);
      assert Ids(rest)[k - 1] == board[k].id;
      FindUnique(rest, k - 1);
    }
  }

  /** The name's board record exists and is not completed. */
  predicate Eligible(board: seq<Team>, name: string) {
    match Find(board, name)
    case Some(t) => !t.isCompleted
    case None => false
  }

  /** Roster position k holds the first eligible name. */
  ghost predicate FirstEligible(roster: seq<string>, board: seq<Team>, k: int) {
    0 <= k < |roster| && Eligible(board, roster[k]) &&
    forall k' :: 0 <= k' < k ==> !Eligible(board, roster[k'])
  }

  /**
   * The scan for the next presenter: the first roster name whose record is
   * on the board and not completed. Display order plays no part.
   */
  function NextCandidate(roster: seq<string>, board: seq<Team>): (r: Option<string>)
    ensures r.None? <==> forall k :: 0 <= k < |roster| ==> !Eligible(board, roster[k])
    ensures r.Some? ==> exists k :: FirstEligible(roster, board, k) && r.value == roster[k]
  {
    if |roster| == 0 then None
    else if Eligible(board, roster[0]) then
      assert FirstEligible(roster, board, 0);
      Some(roster[0])
    else
      var r := NextCandidate(roster[1..], board);
      assert r.Some? ==> exists k :: FirstEligible(roster, board, k) && r.value == roster[k] by {
        if r.Some? {
          var k :| FirstEligible(roster[1..], board, k) && r.value == roster[1..][k];
          FirstEligibleShift(roster, board, k);
        }
      }
      assert r.None? ==> forall k :: 0 <= k < |roster| ==> !Eligible(board, roster[k]) by {
        if r.None? {
          NoneEligibleShift(roster, board);
        }
      }
      r
  }

  /** Skipping an ineligible first name shifts the first eligible position by one. */
  lemma FirstEligibleShift(roster: seq<string>, board: seq<Team>, k: int)
    requires |roster| > 0 && !Eligible(board, roster[0])
    requires FirstEligible(roster[1..], board, k)
    ensures FirstEligible(roster, board, k + 1)
  {
  }

  /** An ineligible first name followed by ineligible names leaves none eligible. */
  lemma NoneEligibleShift(roster: seq<string>, board: seq<Team>)
    requires |roster| > 0 && !Eligible(board, roster[0])
    requires forall k :: 0 <= k < |roster[1..]| ==> !Eligible(board, roster[1..][k])
    ensures forall k :: 0 <= k < |roster| ==> !Eligible(board, roster[k])
  {
    forall k | 0 < k < |roster| ensures !Eligible(board, roster[k]) {
      assert roster[k] == roster[1..][k - 1];
    }
  }

  /**
   * The whole lookup of a pick: the scan's name, tested for truthiness as the
   * source does (an empty name reads as no name), then that name's record.
   */
  function PickCandidate(roster: seq<string>, board: seq<Team>): (r: Option<Team>)
    ensures r.None? <==> NextCandidate(roster, board).None? || NextCandidate(roster, board) == Some("")
    ensures r.Some? ==> NextCandidate(roster, board) == Some(r.value.id)
    ensures r.Some? ==> r.value in board && !r.value.isCompleted
    ensures r.Some? ==> r == Find(board, r.value.id)
  {
    match NextCandidate(roster, board)
    case None => None
    case Some(name) =>
      if name == "" then None
      else
        assert Eligible(board, name) by {
          var k :| FirstEligible(roster, board, k) && name == roster[k];
        }
        Find(board, name)
  }

  /** A record find returns on one board is what find returns on any board with the same records and distinct ids. */
  lemma FindTransfers(b1: seq<Team>, b2: seq<Team>, id: string)
    requires Distinct(Ids(b2))
    requires multiset(b1) == multiset(b2)
    ensures Find(b1, id).Some? ==> Find(b2, id) == Find(b1, id)
  {
    if Find(b1, id).Some? {
      var t := Find(b1, id).value;
      assert t in multiset(b2);
      var k :| 0 <= k < |b2| && b2[k] == t;
      FindUnique(b2, k);
    }
  }

  /** With distinct ids, find depends only on which records are on the board, not on their order. */
  lemma FindIgnoresOrder(b1: seq<Team>, b2: seq<Team>, id: string)
    requires Distinct(Ids(b1)) && Distinct(Ids(b2))
    requires multiset(b1) == multiset(b2)
    ensures Find(b1, id) == Find(b2, id)
  {
    FindTransfers(b1, b2, id);
    FindTransfers(b2, b1, id);
  }

  /** The scan looks at the board only through find, so boards that find agrees on scan alike. */
  lemma {:induction false} ScanSameFind(roster: seq<string>, b1: seq<Team>, b2: seq<Team>)
    requires forall id :: Find(b1, id) == Find(b2, id)
    ensures NextCandidate(roster, b1) == NextCandidate(roster, b2)
    decreases |roster|
  {
    if |roster| > 0 {
      assert Eligible(b1, roster[0]) == Eligible(b2, roster[0]);
      ScanSameFind(roster[1..], b1, b2);
    }
  }

  /**
   * Hidden order versus visible order: two roster boards holding the same
   * records in different display orders get the same scan and the same
   * proposed record, so the shuffle never influences who is picked.
   */
  lemma ScanIgnoresDisplayOrder(roster: seq<string>, b1: seq<Team>, b2: seq<Team>)
    requires RosterBoard(roster, b1) && RosterBoard(roster, b2)
    requires multiset(b1) == multiset(b2)
    ensures NextCandidate(roster, b1) == NextCandidate(roster, b2)
    ensures PickCandidate(roster, b1) == PickCandidate(roster, b2)
  {
    RosterBoardDistinctIds(roster, b1);
    RosterBoardDistinctIds(roster, b2);
    forall id ensures Find(b1, id) == Find(b2, id) {
      FindIgnoresOrder(b1, b2, id);
    }
    ScanSameFind(roster, b1, b2);
  }

  /** On a roster board the scan comes up empty exactly when nobody remains. */
  lemma NoCandidateIffNoneRemaining(roster: seq<string>, board: seq<Team>)
    requires RosterBoard(roster, board)
    ensures NextCandidate(roster, board).None? <==> RemainingCount(board) == 0
  {
    if RemainingCount(board) == 0 {
      forall k | 0 <= k < |roster| ensures !Eligible(board, roster[k]) {
        var r := Find(board, roster[k]);
      }
    } else {
      var m :| 0 <= m < |board| && !board[m].isCompleted;
      var id := board[m].id;
      assert Ids(board)[m] == id;
      assert id in multiset(roster);
      var k :| 0 <= k < |roster| && roster[k] == id;
      RosterBoardDistinctIds(roster, board);
      FindUnique(board, m);
      assert Eligible(board, roster[k]);
    }
  }

  /** When no roster name is empty, a pick on a roster board fails exactly when nobody remains. */
  lemma NoPickIffNoneRemaining(roster: seq<string>, board: seq<Team>)
    requires RosterBoard(roster, board)
    requires "" !in roster
    ensures PickCandidate(roster, board).None? <==> RemainingCount(board) == 0
  {
    NoCandidateIffNoneRemaining(roster, board);
    var next := NextCandidate(roster, board);
    if next.Some? {
      var k :| FirstEligible(roster, board, k) && next.value == roster[k];
    }
  }

  // ---------------------------------------------------------------------------
  // Counting

  /** The number of records still waiting to present. */
  function RemainingCount(board: seq<Team>): (r: nat)
    ensures r <= |board|
    ensures r == 0 <==> forall k :: 0 <= k < |board| ==> board[k].isCompleted
    ensures r == |board| <==> forall k :: 0 <= k < |board| ==> !board[k].isCompleted
  {
    if |board| == 0 then 0
    else (if board[0].isCompleted then 0 else 1) + RemainingCount(board[1..])
  }

  // ---------------------------------------------------------------------------
  // Single-record rewrites

  /** Confirming a presenter: the records with that id become completed. */
  function MarkCompleted(board: seq<Team>, id: string): (r: seq<Team>)
    ensures Ids(r) == Ids(board)
    ensures forall k :: 0 <= k < |board| ==> r[k].name == board[k].name
    ensures forall k :: 0 <= k < |board| && board[k].id == id ==> r[k].isCompleted
    ensures forall k :: 0 <= k < |board| && board[k].id != id ==> r[k] == board[k]
    ensures id !in Ids(board) ==> r == board
  {
    seq(|board|, k requires 0 <= k < |board| =>
      if board[k].id == id then board[k].(isCompleted := true) else board[k])
  }

  /** Confirming the same id twice is the same as confirming it once. */
  lemma MarkCompletedIdempotent(board: seq<Team>, id: string)
    ensures MarkCompleted(MarkCompleted(board, id), id) == MarkCompleted(board, id)
  {
  }

  /**
   * On a board with distinct ids, confirming record k lowers the remaining
   * count by one if it was incomplete and leaves it alone otherwise.
   */
  lemma {:induction false} MarkCompletedRemaining(board: seq<Team>, k: nat)
    requires Distinct(Ids(board))
    requires k < |board|
    ensures RemainingCount(MarkCompleted(board, board[k].id)) ==
            RemainingCount(board) - (if board[k].isCompleted then 0 else 1)
  {
    var id := board[k].id;
    var r := MarkCompleted(board, id);
    var rest := board[1..];
    assert r[1..] == MarkCompleted(rest, id);
    DistinctIdsTail(board);
    if k > 0 {
      assert Ids(rest)[k - 1] == id;
      assert rest[k - 1] == board[k];
      MarkCompletedRemaining(rest, k - 1);
    }
  }

  /** The manual override: flip the completion flag of the records with that id. */
  function Toggle(board: seq<Team>, id: string): (r: seq<Team>)
    ensures Ids(r) == Ids(board)
    ensures forall k :: 0 <= k < |board| ==> r[k].name == board[k].name
    ensures forall k :: 0 <= k < |board| && board[k].id == id ==> r[k].isCompleted == !board[k].isCompleted
    ensures forall k :: 0 <= k < |board| && board[k].id != id ==> r[k] == board[k]
    ensures id !in Ids(board) ==> r == board
  {
    seq(|board|, k requires 0 <= k < |board| =>
      if board[k].id == id then board[k].(isCompleted := !board[k].isCompleted) else board[k])
  }

  /** Toggling is its own inverse. */
  lemma ToggleInvolution(board: seq<Team>, id: string)
    ensures Toggle(Toggle(board, id), id) == board
  {
  }

  // ---------------------------------------------------------------------------
  // A walk-through on a three-name roster, displayed in the order C, A, B

  /** The seed board, displayed C, A, B, and the boards after each step. */
  function Walk0(): seq<Team> { [Team("C", "C", false), Team("A", "A", false), Team("B", "B", false)] }
  function Walk1(): seq<Team> { [Team("C", "C", false), Team("A", "A", true), Team("B", "B", false)] }
  function Walk2(): seq<Team> { [Team("C", "C", true), Team("A", "A", true), Team("B", "B", false)] }
  function Walk3(): seq<Team> { [Team("C", "C", true), Team("A", "A", true), Team("B", "B", true)] }

  /**
   * The seed board is reachable: seeding A, B, C and shuffling with the draws
   * 1 at step 2 and 0 at step 1 displays C, A, B. Then confirm A, toggle C by
   * hand, confirm B. (A cancelled pick leaves the board alone; see
   * Standup.CancelThenRepick.)
   */
  lemma WalkthroughBoards()
    ensures Shuffled(InitialTeams(["A", "B", "C"]), [0, 0, 1]) == Walk0()
    ensures MarkCompleted(Walk0(), "A") == Walk1()
    ensures Toggle(Walk1(), "C") == Walk2()
    ensures MarkCompleted(Walk2(), "B") == Walk3()
  {
    var seed := InitialTeams(["A", "B", "C"]);
    assert seed == [Team("A", "A", false), Team("B", "B", false), Team("C", "C", false)];
    var draws: seq<nat> := [0, 0, 1];
    assert SwapsDown(seed, draws, 2) == SwapsDown(Swap(seed, 2, 1), draws, 1);
    assert SwapsDown(Swap(seed, 2, 1), draws, 1) == Swap(Swap(seed, 2, 1), 1, 0);
  }

  lemma WalkthroughScan0()
    ensures NextCandidate(["A", "B", "C"], Walk0()) == Some("A")
  {
    assert Ids(Walk0()) == ["C", "A", "B"];
    FindUnique(Walk0(), 1);
  }

  lemma WalkthroughScan1()
    ensures NextCandidate(["A", "B", "C"], Walk1()) == Some("B")
  {
    var roster := ["A", "B", "C"];
    assert Ids(Walk1()) == ["C", "A", "B"];
    assert roster[1..] == ["B", "C"];
    FindUnique(Walk1(), 1);
    FindUnique(Walk1(), 2);
  }

  lemma WalkthroughScan2()
    ensures NextCandidate(["A", "B", "C"], Walk2()) == Some("B")
  {
    var roster := ["A", "B", "C"];
    assert Ids(Walk2()) == ["C", "A", "B"];
    assert roster[1..] == ["B", "C"];
    FindUnique(Walk2(), 1);
    FindUnique(Walk2(), 2);
  }

  lemma WalkthroughScan3()
    ensures NextCandidate(["A", "B", "C"], Walk3()) == None
  {
    var roster := ["A", "B", "C"];
    assert Ids(Walk3()) == ["C", "A", "B"];
    assert multiset(Ids(Walk3())) == multiset(roster);
    NoCandidateIffNoneRemaining(roster, Walk3());
  }

  /**
   * The scan follows the roster, not the display order; completing a later
   * name by hand does not let it overtake an earlier one; once all three are
   * completed the scan finds nobody.
   */
  lemma ThreeTeamWalkthrough()
    ensures var roster := ["A", "B", "C"];
      Shuffled(InitialTeams(roster), [0, 0, 1]) == Walk0() &&
      NextCandidate(roster, Walk0()) == Some("A") &&
      NextCandidate(roster, MarkCompleted(Walk0(), "A")) == Some("B") &&
      NextCandidate(roster, Toggle(MarkCompleted(Walk0(), "A"), "C")) == Some("B") &&
      NextCandidate(roster, MarkCompleted(Toggle(MarkCompleted(Walk0(), "A"), "C"), "B")) == None
  {
    WalkthroughBoards();
    WalkthroughScan0();
    WalkthroughScan1();
    WalkthroughScan2();
    WalkthroughScan3();
  }
}
