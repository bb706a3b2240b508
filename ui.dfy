/**
 * The state behind the terminal dashboard (src/ui.rs): the rolling log
 * queue, the window of it the log panel shows, and the test that decides
 * whether a graph edge lies on the best path seen so far.
 */
module Ui {
  import opened Wrappers

  /** The most messages the log queue keeps. */
  const MaxLogs: nat := 100

  /** A profitable cycle as the dashboard shows it (`ArbitrageOpportunity`); `path` reads "A > B > C > A". */
  datatype Opportunity = Opportunity(multiplier: real, sizeUsd: real, path: string)

  /** The last min(n, |xs|) elements of `xs`, in order. */
  function LastOf<T>(xs: seq<T>, n: nat): (r: seq<T>)
    ensures |r| == if |xs| <= n then |xs| else n
    ensures xs == xs[..|xs| - |r|] + r
  {
    if |xs| <= n then xs else xs[|xs| - n..]
  }

  /** Keeping the last n after each append keeps the last n of everything appended. */
  lemma LastOfAppend<T>(xs: seq<T>, m: T, n: nat)
    requires n > 0
    ensures LastOf(LastOf(xs, n) + [m], n) == LastOf(xs + [m], n)
  {
    if |xs| > n {
      assert (xs[|xs| - n..] + [m])[1..] == (xs + [m])[|xs| + 1 - n..];
    }
  }

  class AppState {
    var snapshotsReceived: nat
    var readyForArbitrage: bool
    var bestOpportunities: seq<Opportunity>
    var bestEverOpportunity: Option<Opportunity>
    var nodeCount: nat
    var edgeCount: nat
    var nodePositions: map<string, (real, real)>
    var edges: seq<(string, string)>
    var messagesPerSecond: real
    var totalMessagesReceived: nat
    var logs: seq<string>

    /** Every message ever logged, oldest first. */
    ghost var history: seq<string>

    /** The queue holds the last 100 messages ever logged. */
    ghost predicate Valid()
      reads this
    {
      logs == LastOf(history, MaxLogs)
    }

    /** `AppState::new`: zero counters, not ready, nothing recorded, empty logs. */
    constructor (nodeCount: nat, edgeCount: nat)
      ensures Valid() && history == []
      ensures snapshotsReceived == 0 && !readyForArbitrage
      ensures bestOpportunities == [] && bestEverOpportunity == None
      ensures this.nodeCount == nodeCount && this.edgeCount == edgeCount
      ensures nodePositions == map[] && edges == []
      ensures messagesPerSecond == 0.0 && totalMessagesReceived == 0
      ensures logs == []
    {
      snapshotsReceived := 0;
      readyForArbitrage := false;
      bestOpportunities := [];
      bestEverOpportunity := None;
      this.nodeCount := nodeCount;
      this.edgeCount := edgeCount;
      nodePositions := map[];
      edges := [];
      messagesPerSecond := 0.0;
      totalMessagesReceived := 0;
      logs := [];
      history := [];
    }

    /**
     * `add_log`: append the message; when that makes more than 100, drop the
     * oldest one (once).
     */
    method AddLog(message: string)
      modifies this`logs, this`history
      ensures history == old(history) + [message]
      ensures |logs| > 0 && logs[|logs| - 1] == message
      ensures |old(logs)| <= MaxLogs ==> logs == LastOf(old(logs) + [message], MaxLogs)
      ensures |old(logs)| > MaxLogs ==> logs == (old(logs) + [message])[1..]
      ensures old(Valid()) ==> Valid()
    {
      logs := logs + [message];
      history := history + [message];
      if |logs| > MaxLogs {
        logs := logs[1..];
      }
      if old(Valid()) {
        LastOfAppend(old(history), message, MaxLogs);
      }
    }
  }

  /** `saturating_sub`: subtraction that stops at zero. */
  function SaturatingSub(a: nat, b: nat): (r: nat)
    ensures a >= b ==> r + b == a
    ensures a < b ==> r == 0
  {
    if a >= b then a - b else 0
  }

  /**
   * The index of the first log line `draw_logs` shows for a panel `height`
   * rows tall: two rows go to the border, and the rest hold the newest lines.
   */
  function LogWindowStart(count: nat, height: nat): (start: nat)
    ensures start <= count
    ensures count - start == if count <= SaturatingSub(height, 2) then count else SaturatingSub(height, 2)
  {
    var maxLogs := SaturatingSub(height, 2);
    if count > maxLogs then count - maxLogs else 0
  }

  /** The lines the log panel shows: the newest ones that fit, oldest of them first. */
  function VisibleLogs(logs: seq<string>, height: nat): (r: seq<string>)
    ensures r == LastOf(logs, SaturatingSub(height, 2))
  {
    logs[LogWindowStart(|logs|, height)..]
  }

  /** `sep` occurs in `s` at index i. */
  predicate At(s: string, sep: string, i: nat) {
    i + |sep| <= |s| && s[i..i + |sep|] == sep
  }

  /** The first index at or after `from` where `sep` occurs in `s`. */
  function FirstAt(s: string, sep: string, from: nat): (r: Option<nat>)
    ensures r.Some? ==> from <= r.value && At(s, sep, r.value) && forall j :: from <= j < r.value ==> !At(s, sep, j)
    ensures r.None? ==> forall j :: from <= j ==> !At(s, sep, j)
    decreases |s| - from
  {
    if from + |sep| > |s| then None
    else if s[from..from + |sep|] == sep then Some(from)
    else FirstAt(s, sep, from + 1)
  }

  /** `str::split` with a non-empty separator: the pieces between non-overlapping occurrences, from left to right. */
  function Split(s: string, sep: string): (parts: seq<string>)
    requires |sep| > 0
    ensures |parts| > 0
    decreases |s|
  {
    match FirstAt(s, sep, 0)
    case None => [s]
    case Some(i) => [s[..i]] + Split(s[i + |sep|..], sep)
  }

  /** The pieces put back together with the separator between them. */
  function Join(parts: seq<string>, sep: string): string {
    if |parts| == 0 then ""
    else if |parts| == 1 then parts[0]
    else parts[0] + sep + Join(parts[1..], sep)
  }

  /** One step of `Split`: the piece before the first separator, then the split of what follows it. */
  lemma SplitStep(s: string, sep: string, i: nat)
    requires |sep| > 0 && FirstAt(s, sep, 0) == Some(i)
    ensures Split(s, sep) == [s[..i]] + Split(s[i + |sep|..], sep)
    ensures s == s[..i] + sep + s[i + |sep|..]
  {
    assert s == s[..i] + s[i..i + |sep|] + s[i + |sep|..];
  }

  /** Splitting loses nothing: joining the pieces gives back the text. */
  lemma {:induction false} SplitJoin(s: string, sep: string)
    requires |sep| > 0
    ensures Join(Split(s, sep), sep) == s
    decreases |s|
  {
    match FirstAt(s, sep, 0)
    case None =>
    case Some(i) =>
      var rest := s[i + |sep|..];
      SplitJoin(rest, sep);
      SplitStep(s, sep, i);
      var parts := Split(s, sep);
      assert parts[0] == s[..i] && parts[1..] == Split(rest, sep);
      assert Join(parts, sep) == s[..i] + sep + Join(Split(rest, sep), sep);
  }

  /** No piece contains the separator. */
  lemma {:induction false} SplitPiecesFree(s: string, sep: string)
    requires |sep| > 0
    ensures forall k, j :: 0 <= k < |Split(s, sep)| && 0 <= j ==> !At(Split(s, sep)[k], sep, j)
    decreases |s|
  {
    match FirstAt(s, sep, 0)
    case None =>
    case Some(i) =>
      var rest := s[i + |sep|..];
      SplitPiecesFree(rest, sep);
      SplitStep(s, sep, i);
      forall j: nat | At(s[..i], sep, j)
        ensures false
      {
        assert s[..i][j..j + |sep|] == s[j..j + |sep|];
        assert At(s, sep, j);
      }
  }

  /** The neighbours at i and i + 1 in `nodes` are `from` and `to`, in either order. */
  predicate Joins(nodes: seq<string>, i: nat, from: string, to: string)
    requires i + 1 < |nodes|
  {
    (nodes[i] == from && nodes[i + 1] == to) || (nodes[i] == to && nodes[i + 1] == from)
  }

  /** Some two neighbours in `nodes` are `from` and `to`, in either order (`windows(2).any(..)`). */
  function AnyAdjacent(nodes: seq<string>, from: string, to: string): (r: bool)
    ensures r <==> exists i :: 0 <= i < |nodes| - 1 && Joins(nodes, i, from, to)
  {
    if |nodes| < 2 then false
    else if Joins(nodes, 0, from, to) then true
    else
      var rest := AnyAdjacent(nodes[1..], from, to);
      AdjacentPastFirst(nodes, from, to);
      rest
  }

  /** When the first two neighbours do not match, a match lies in the rest of the path or nowhere. */
  lemma AdjacentPastFirst(nodes: seq<string>, from: string, to: string)
    requires |nodes| >= 2 && !Joins(nodes, 0, from, to)
    ensures (exists i :: 0 <= i < |nodes| - 1 && Joins(nodes, i, from, to)) <==>
            (exists i :: 0 <= i < |nodes| - 2 && Joins(nodes[1..], i, from, to))
  {
    if exists i :: 0 <= i < |nodes| - 1 && Joins(nodes, i, from, to) {
      var i :| 0 <= i < |nodes| - 1 && Joins(nodes, i, from, to);
      assert i > 0;
      assert Joins(nodes[1..], i - 1, from, to);
    }
    if exists i :: 0 <= i < |nodes| - 2 && Joins(nodes[1..], i, from, to) {
      var i :| 0 <= i < |nodes| - 2 && Joins(nodes[1..], i, from, to);
      assert Joins(nodes, i + 1, from, to);
    }
  }

  /** The nodes of the best path so far, split on " > "; none without a best opportunity. */
  function BestPathNodes(best: Option<Opportunity>): seq<string> {
    match best
    case None => []
    case Some(o) => Split(o.path, " > ")
  }

  /** The edge test of `draw_graph`: is the edge between `from` and `to` on the best path so far? */
  function OnBestPath(best: Option<Opportunity>, from: string, to: string): (r: bool)
    ensures best.None? ==> !r
    ensures r <==> exists i :: 0 <= i < |BestPathNodes(best)| - 1 && Joins(BestPathNodes(best), i, from, to)
  {
    var nodes := BestPathNodes(best);
    if |nodes| != 0 then AnyAdjacent(nodes, from, to) else false
  }

  /** The node test of `draw_graph`: is `node` on the best path so far? */
  function NodeOnBestPath(best: Option<Opportunity>, node: string): (r: bool)
    ensures best.None? ==> !r
    ensures r <==> exists i :: 0 <= i < |BestPathNodes(best)| && BestPathNodes(best)[i] == node
  {
    node in BestPathNodes(best)
  }

  /** Both ends of a highlighted edge are highlighted nodes. */
  lemma HighlightedEdgeEnds(best: Option<Opportunity>, from: string, to: string)
    requires OnBestPath(best, from, to)
    ensures NodeOnBestPath(best, from) && NodeOnBestPath(best, to)
  {
    var nodes := BestPathNodes(best);
    var i :| 0 <= i < |nodes| - 1 && Joins(nodes, i, from, to);
    assert nodes[i] in nodes && nodes[i + 1] in nodes;
  }

  /** The highlight does not depend on the direction of the edge. */
  lemma OnBestPathSymmetric(best: Option<Opportunity>, from: string, to: string)
    ensures OnBestPath(best, from, to) == OnBestPath(best, to, from)
  {
    var nodes := BestPathNodes(best);
    if OnBestPath(best, from, to) {
      var i :| 0 <= i < |nodes| - 1 && Joins(nodes, i, from, to);
      assert Joins(nodes, i, to, from);
    }
    if OnBestPath(best, to, from) {
      var i :| 0 <= i < |nodes| - 1 && Joins(nodes, i, to, from);
      assert Joins(nodes, i, from, to);
    }
  }

  /** A name without spaces followed by " > " splits off as the first piece. */
  lemma SplitAfterName(name: string, rest: string)
    requires ' ' !in name
    ensures Split(name + " > " + rest, " > ") == [name] + Split(rest, " > ")
  {
    var s := name + " > " + rest;
    var k := |name|;
    assert s[k..k + 3] == " > ";
    forall j: nat | j < k
      ensures !At(s, " > ", j)
    {
      assert s[j] == name[j];
    }
    var first := FirstAt(s, " > ", 0);
    assert first.Some? by { assert At(s, " > ", k); }
    assert first.value == k by { assert At(s, " > ", k); }
    SplitStep(s, " > ", k);
    assert s[..k] == name && s[k + 3..] == rest;
  }

  /** Every occurrence of " > " starts with a space. */
  lemma SeparatorStartsWithSpace(s: string, i: nat)
    requires At(s, " > ", i)
    ensures i < |s| && s[i] == ' '
  {
    assert s[i..i + 3][0] == s[i];
  }

  /** Names without spaces, joined with " > ", split back into the same names. */
  lemma {:induction false} SplitJoinNames(names: seq<string>)
    requires |names| > 0
    requires forall k :: 0 <= k < |names| ==> ' ' !in names[k]
    ensures Split(Join(names, " > "), " > ") == names
  {
    if |names| == 1 {
      var first := FirstAt(names[0], " > ", 0);
      if first.Some? {
        SeparatorStartsWithSpace(names[0], first.value);
        assert false;
      }
    } else {
      SplitAfterName(names[0], Join(names[1..], " > "));
      SplitJoinNames(names[1..]);
    }
  }

  /** On the path A > B > C > A, the edge C-B is highlighted and the edge A-A is not. */
  lemma PathExample()
    ensures OnBestPath(Some(Opportunity(1.5, 10.0, Join(["A", "B", "C", "A"], " > "))), "C", "B")
    ensures !OnBestPath(Some(Opportunity(1.5, 10.0, Join(["A", "B", "C", "A"], " > "))), "A", "A")
  {
    SplitJoinNames(["A", "B", "C", "A"]);
    var nodes := BestPathNodes(Some(Opportunity(1.5, 10.0, Join(["A", "B", "C", "A"], " > "))));
    assert nodes == ["A", "B", "C", "A"];
    assert Joins(nodes, 1, "C", "B");
    assert forall i :: 0 <= i < |nodes| - 1 ==> !Joins(nodes, i, "A", "A");
  }
}
