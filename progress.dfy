/** The player's progress: points for first completions, best time per level,
    and the leaderboard built from the best times. */
module Progress {
  import opened Board

  /** What the progress object holds: the score, the completed levels in order of first
      completion, and the best time in seconds per level. */
  datatype Record = Record(score: int, completedLevels: seq<nat>, bestTimes: map<nat, nat>)

  predicate NoDuplicates(levels: seq<nat>) {
    forall i, j | 0 <= i < j < |levels| :: levels[i] != levels[j]
  }

  /** The score is 100 points per level completed at least once. */
  predicate Tallied(r: Record) {
    NoDuplicates(r.completedLevels) && r.score == 100 * |r.completedLevels|
  }

  /** The time kept after finishing in `time`: a missing entry, or a stored 0 (which reads
      as false), is replaced; otherwise the smaller time stays. */
  function NextBest(stored: Option<nat>, time: nat): (best: nat)
    ensures stored.None? ==> best == time
    ensures stored.Some? && stored.value > 0 ==> best == if time < stored.value then time else stored.value
    ensures stored == Some(0) ==> best == time
  {
    if stored.None? || stored.value == 0 || time < stored.value then time else stored.value
  }

  function Lookup(times: map<nat, nat>, level: nat): Option<nat> {
    if level in times then Some(times[level]) else None
  }

  /** completeLevel: 100 points and a new entry on the first completion of a level only;
      the best time of that level becomes NextBest; nothing else changes. */
  function Complete(r: Record, level: nat, time: nat): (r': Record)
    ensures level in r'.completedLevels
    ensures forall l :: l in r'.completedLevels <==> l in r.completedLevels || l == level
    ensures r'.score == r.score + (if level in r.completedLevels then 0 else 100)
    ensures r'.bestTimes.Keys == r.bestTimes.Keys + {level}
    ensures r'.bestTimes[level] == NextBest(Lookup(r.bestTimes, level), time)
    ensures forall l | l in r.bestTimes && l != level :: r'.bestTimes[l] == r.bestTimes[l]
  {
    var levels := if level in r.completedLevels then r.completedLevels else r.completedLevels + [level];
    var score := if level in r.completedLevels then r.score else r.score + 100;
    Record(score, levels, r.bestTimes[level := NextBest(Lookup(r.bestTimes, level), time)])
  }

  /** Completing keeps the score at 100 points per distinct level. */
  lemma CompleteTallies(r: Record, level: nat, time: nat)
    requires Tallied(r)
    ensures Tallied(Complete(r, level, time))
  {
  }

  /** Completing the same level again adds no points. */
  lemma CompleteTwice(r: Record, level: nat, t1: nat, t2: nat)
    ensures Complete(Complete(r, level, t1), level, t2).score == Complete(r, level, t1).score
  {
  }

  /** The best time after a run of completions of one level. */
  function BestAfter(stored: Option<nat>, times: seq<nat>): (best: Option<nat>)
    ensures times != [] ==> best.Some?
    ensures times == [] ==> best == stored
  {
    if times == [] then stored
    else Some(NextBest(BestAfter(stored, times[..|times| - 1]), times[|times| - 1]))
  }

  function MinOf(times: seq<nat>): (m: nat)
    requires times != []
    ensures forall i | 0 <= i < |times| :: m <= times[i]
    ensures exists i | 0 <= i < |times| :: m == times[i]
  {
    if |times| == 1 then times[0]
    else
      var n := |times| - 1;
      var m := MinOf(times[..n]);
      assert forall i | 0 <= i < n :: times[..n][i] == times[i];
      if times[n] < m then times[n] else m
  }

  /** With positive times the kept best time is the minimum of all times recorded. */
  lemma {:induction false} BestIsMinimum(times: seq<nat>)
    requires times != [] && forall i | 0 <= i < |times| :: times[i] > 0
    ensures BestAfter(None, times) == Some(MinOf(times))
  {
    if |times| > 1 {
      var n := |times| - 1;
      assert forall i | 0 <= i < n :: times[..n][i] == times[i];
      BestIsMinimum(times[..n]);
    }
  }

  /** A finishing time of 0 does not stick: the next completion replaces it, even by a
      slower time, so the kept time can exceed the minimum. */
  lemma ZeroTimeIsOverwritten(t: nat)
    ensures BestAfter(None, [0, t]) == Some(t)
    ensures t > 0 ==> MinOf([0, t]) == 0
  {
    assert [0, t][..1] == [0];
    assert [0][..0] == [];
  }

  // ---------------------------------------------------------------------------
  // The leaderboard

  datatype Entry = Entry(level: nat, time: nat)

  /** Leaderboard order: by time, ties by level (the order in which the levels are listed
      before the stable sort by time). */
  predicate Before(a: Entry, b: Entry) {
    a.time < b.time || (a.time == b.time && a.level < b.level)
  }

  predicate Ranked(board: seq<Entry>) {
    forall i, j | 0 <= i < j < |board| :: Before(board[i], board[j])
  }

  /** Inserts an entry for a level not yet on the board at its place in the order. */
  function Insert(board: seq<Entry>, e: Entry): (r: seq<Entry>)
    requires Ranked(board)
    requires forall i | 0 <= i < |board| :: board[i].level != e.level
    ensures Ranked(r)
    ensures |r| == |board| + 1
    ensures forall x :: x in r <==> x == e || x in board
  {
    if board == [] then [e]
    else if Before(e, board[0]) then [e] + board
    else
      var rest := Insert(board[1..], e);
      assert forall x :: x in board[1..] ==> x in board;
      FirstBeforeAll(board, e, rest);
      [board[0]] + rest
  }

  lemma FirstBeforeAll(board: seq<Entry>, e: Entry, rest: seq<Entry>)
    requires Ranked(board) && board != [] && !Before(e, board[0]) && board[0].level != e.level
    requires Ranked(rest) && forall x :: x in rest <==> x == e || x in board[1..]
    ensures Ranked([board[0]] + rest)
  {
    var r := [board[0]] + rest;
    forall i, j | 0 <= i < j < |r| ensures Before(r[i], r[j]) {
      assert r[j] == rest[j - 1] && rest[j - 1] in rest;
      if i == 0 && r[j] != e {
        var k :| 0 <= k < |board[1..]| && board[1..][k] == r[j];
        assert board[k + 1] == r[j];
      } else if i > 0 {
        assert r[i] == rest[i - 1];
      }
    }
  }

  /** The progress object of the game. */
  class GameManager {
    var score: int
    var completedLevels: seq<nat>
    var bestTimes: map<nat, nat>

    function State(): Record
      reads this
    {
      Record(score, completedLevels, bestTimes)
    }

    ghost predicate Valid()
      reads this
    {
      Tallied(State())
    }

    constructor()
      ensures Valid() && State() == Record(0, [], map[])
    {
      score := 0;
      completedLevels := [];
      bestTimes := map[];
    }

    method CompleteLevel(level: nat, time: nat)
      requires Valid()
      modifies this
      ensures Valid()
      ensures State() == Complete(old(State()), level, time)
    {
      if level !in completedLevels {
        completedLevels := completedLevels + [level];
        score := score + 100;
      }
      if level !in bestTimes || bestTimes[level] == 0 || time < bestTimes[level] {
        bestTimes := bestTimes[level := time];
      }
      CompleteTallies(old(State()), level, time);
    }

    /** getLeaderboard: one entry per level with a best time, ordered by time. */
    method GetLeaderboard() returns (board: seq<Entry>)
      ensures Ranked(board)
      ensures |board| == |bestTimes.Keys|
      ensures forall e :: e in board <==> e.level in bestTimes && bestTimes[e.level] == e.time
    {
      board := [];
      var todo := bestTimes.Keys;
      while todo != {}
        invariant todo <= bestTimes.Keys
        invariant Ranked(board)
        invariant |board| == |bestTimes.Keys - todo|
        invariant forall e :: e in board <==> e.level in bestTimes.Keys - todo && bestTimes[e.level] == e.time
        decreases |todo|
      {
        var level :| level in todo;
        forall i | 0 <= i < |board| ensures board[i].level != level {
          assert board[i] in board;
        }
        board := Insert(board, Entry(level, bestTimes[level]));
        assert bestTimes.Keys - (todo - {level}) == (bestTimes.Keys - todo) + {level};
        todo := todo - {level};
      }
    }
  }
}
