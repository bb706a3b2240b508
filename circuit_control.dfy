/**
 * The control flow of `circuit` (src/graph_cycles.rs:112-147) as written,
 * next to the corrected control flow that CycleFinder.Circuit models.
 *
 * A run of one `circuit(v)` frame is abstracted to the sequence of what
 * happens for each neighbour of `v`: the stack was shown to the visitor
 * (with its answer), nothing happened, or a nested frame ran. Stack height
 * is tracked as the number of vertices a frame leaves pushed when it returns.
 *
 * As written, the result of a nested frame is only matched against
 * `matches!(.., ControlFlow::Continue(true))`, so a `Break` from below is
 * dropped: the caller carries on with its next neighbour and later pops a
 * vertex that is not its own.
 */
module CircuitControl {
  import opened GraphCycles

  /** What happened for one neighbour inside a `circuit` frame. */
  datatype Event<B> =
    | Shown(answer: ControlFlow<B, ()>)   // the stack closed a cycle and the visitor answered
    | Passed                              // the root with a stack outside 3..5, or a blocked vertex
    | Entered(sub: seq<Event<B>>)         // a nested `circuit(w)` ran these events

  /** A frame's result and the number of vertices still pushed after it returns. */
  datatype Outcome<B> = Outcome(flow: ControlFlow<B, bool>, left: nat)

  /** Some event anywhere in the run is a `Break` answer. */
  predicate HasBreak<B>(events: seq<Event<B>>)
    decreases events
  {
    exists i :: 0 <= i < |events| &&
      match events[i]
      case Shown(answer) => answer.Break?
      case Passed => false
      case Entered(sub) => HasBreak(sub)
  }

  /**
   * The rest of a frame as written, from events `events` on, with `f` the
   * flag so far and `acc` the vertices left pushed by nested frames so far.
   * A `Break` from the visitor returns at once without popping; a nested
   * frame's `Break` only fails the `Continue(true)` test.
   */
  function RunAsWritten<B>(events: seq<Event<B>>, f: bool, acc: nat): (o: Outcome<B>)
    decreases events
  {
    if events == [] then Outcome(Continue(f), acc)
    else match events[0]
      case Shown(answer) =>
        if answer.Break? then Outcome(Break(answer.brk), acc + 1)
        else RunAsWritten(events[1..], true, acc)
      case Passed => RunAsWritten(events[1..], f, acc)
      case Entered(sub) =>
        var inner := RunAsWritten(sub, false, 0);
        RunAsWritten(events[1..], f || inner.flow == Continue(true), acc + inner.left)
  }

  /** The same frame with a nested `Break` passed straight up, as CycleFinder.Circuit does. */
  function RunCorrected<B>(events: seq<Event<B>>, f: bool, acc: nat): (o: Outcome<B>)
    decreases events
  {
    if events == [] then Outcome(Continue(f), acc)
    else match events[0]
      case Shown(answer) =>
        if answer.Break? then Outcome(Break(answer.brk), acc + 1)
        else RunCorrected(events[1..], true, acc)
      case Passed => RunCorrected(events[1..], f, acc)
      case Entered(sub) =>
        var inner := RunCorrected(sub, false, 0);
        if inner.flow.Break? then Outcome(Break(inner.flow.brk), acc + inner.left + 1)
        else RunCorrected(events[1..], f || inner.flow.value, acc + inner.left)
  }

  /** `visit` as written, given the run of the root frame for each root in turn. */
  function VisitAsWritten<B>(roots: seq<seq<Event<B>>>): (r: ControlFlow<B, ()>)
  {
    if roots == [] then Continue(())
    else match RunAsWritten(roots[0], false, 0).flow
      case Break(b) => Break(b)
      case Continue(_) => VisitAsWritten(roots[1..])
  }

  /**
   * As written, a frame that never shows the stack itself never returns
   * `Break`, whatever its nested frames answer.
   */
  lemma {:induction false} SilentFrameNeverBreaks<B>(events: seq<Event<B>>, f: bool, acc: nat)
    requires forall i :: 0 <= i < |events| ==> !events[i].Shown?
    ensures RunAsWritten(events, f, acc).flow.Continue?
    decreases events
  {
    if events != [] {
      match events[0]
      case Passed =>
        SilentFrameNeverBreaks(events[1..], f, acc);
      case Entered(sub) =>
        var inner := RunAsWritten(sub, false, 0);
        SilentFrameNeverBreaks(events[1..], f || inner.flow == Continue(true), acc + inner.left);
    }
  }

  /**
   * As written, `visit` returns `Continue` when no root frame shows the
   * stack. A root frame can show the stack only through an edge from the
   * root to itself, so in a component where no vertex has an edge to itself
   * `visit`, and with it `visit_cycles`, never stops early.
   * SelfLoopBreakEscapes shows a component with such an edge.
   */
  lemma {:induction false} VisitAsWrittenNeverBreaks<B>(roots: seq<seq<Event<B>>>)
    requires forall k, i :: 0 <= k < |roots| && 0 <= i < |roots[k]| ==> !roots[k][i].Shown?
    ensures VisitAsWritten(roots) == Continue(())
  {
    if roots != [] {
      SilentFrameNeverBreaks(roots[0], false, 0);
      VisitAsWrittenNeverBreaks(roots[1..]);
    }
  }

  /** Corrected, a frame returns `Break` exactly when a `Break` answer occurs somewhere in its run. */
  lemma {:induction false} CorrectedBreaksIffAnswered<B>(events: seq<Event<B>>, f: bool, acc: nat)
    ensures RunCorrected(events, f, acc).flow.Break? <==> HasBreak(events)
    decreases events
  {
    if events != [] {
      var rest := events[1..];
      assert forall i :: 0 <= i < |rest| ==> rest[i] == events[i + 1];
      match events[0]
      case Shown(answer) =>
        if !answer.Break? {
          CorrectedBreaksIffAnswered(rest, true, acc);
          HasBreakTail(events);
        }
      case Passed =>
        CorrectedBreaksIffAnswered(rest, f, acc);
        HasBreakTail(events);
      case Entered(sub) =>
        CorrectedBreaksIffAnswered(sub, false, 0);
        var inner := RunCorrected(sub, false, 0);
        if !inner.flow.Break? {
          CorrectedBreaksIffAnswered(rest, f || inner.flow.value, acc + inner.left);
          HasBreakTail(events);
        }
    }
  }

  /** When the first event holds no `Break`, the run has one exactly when the rest has one. */
  lemma HasBreakTail<B>(events: seq<Event<B>>)
    requires events != []
    requires match events[0]
      case Shown(answer) => !answer.Break?
      case Passed => true
      case Entered(sub) => !HasBreak(sub)
    ensures HasBreak(events) <==> HasBreak(events[1..])
  {
    var rest := events[1..];
    if HasBreak(events) {
      var i :| 0 <= i < |events| &&
        match events[i]
        case Shown(answer) => answer.Break?
        case Passed => false
        case Entered(sub) => HasBreak(sub);
      assert i != 0;
      assert rest[i - 1] == events[i];
    }
    if HasBreak(rest) {
      var i :| 0 <= i < |rest| &&
        match rest[i]
        case Shown(answer) => answer.Break?
        case Passed => false
        case Entered(sub) => HasBreak(sub);
      assert events[i + 1] == rest[i];
    }
  }

  /** Corrected, a frame that returns `Continue` leaves the stack as it found it, apart from `acc`. */
  lemma {:induction false} CorrectedContinueRestoresStack<B>(events: seq<Event<B>>, f: bool, acc: nat)
    ensures RunCorrected(events, f, acc).flow.Continue? ==> RunCorrected(events, f, acc).left == acc
    decreases events
  {
    if events != [] {
      match events[0]
      case Shown(answer) =>
        CorrectedContinueRestoresStack(events[1..], true, acc);
      case Passed =>
        CorrectedContinueRestoresStack(events[1..], f, acc);
      case Entered(sub) =>
        CorrectedContinueRestoresStack(sub, false, 0);
        var inner := RunCorrected(sub, false, 0);
        if !inner.flow.Break? {
          CorrectedContinueRestoresStack(events[1..], f || inner.flow.value, acc + inner.left);
        }
    }
  }

  /**
   * The triangle 0 -> 1 -> 2 -> 0 as one component, with a visitor that
   * answers `Break` to the first cycle: the root frame enters 1, which enters
   * 2, which shows [0, 1, 2]. As written the `Break` is lost, the root frame
   * returns `Continue(false)` and one vertex stays on the stack; corrected,
   * the `Break` reaches the root with all three vertices still pushed.
   */
  lemma TriangleBreakIsLost()
    ensures RunAsWritten([Entered([Entered([Shown(Break(7))])])], false, 0) == Outcome(Continue(false), 1)
    ensures VisitAsWritten([[Entered([Entered([Shown(Break(7))])])]]) == Continue(())
    ensures RunCorrected([Entered([Entered([Shown(Break(7))])])], false, 0) == Outcome(Break(7), 3)
  {
    var deepest: seq<Event<int>> := [Shown(Break(7))];
    assert RunAsWritten(deepest, false, 0) == Outcome(Break(7), 1);
    assert RunCorrected(deepest, false, 0) == Outcome(Break(7), 1);
    var middle: seq<Event<int>> := [Entered(deepest)];
    assert middle[1..] == [];
    assert RunAsWritten(middle, false, 0) == Outcome(Continue(false), 1);
    assert RunCorrected(middle, false, 0) == Outcome(Break(7), 2);
    var root: seq<Event<int>> := [Entered(middle)];
    assert root[1..] == [];
    assert RunAsWritten(root, false, 0) == Outcome(Continue(false), 1);
  }

  /**
   * The component [0, 1, 2, 3] with edges 0 -> 1, 1 -> 2, 1 -> 3, 1 -> 1,
   * 2 -> 0 and 3 -> 0, the neighbours of 1 in the order 2, 3, 1, and a
   * visitor that always answers `Break`. In the round of root 0, [0, 1, 2]
   * and [0, 1, 2, 3] are shown and both `Break`s are lost, leaving [0, 1]
   * pushed. In the round of root 1, 2 and 3 only reach the blocked 0, and the
   * self-loop of 1 meets the stack [0, 1, 1] of three vertices: it is shown,
   * and the root frame's own `Break` leaves `visit`.
   */
  lemma SelfLoopBreakEscapes()
    ensures RunAsWritten([Entered([Entered([Shown(Break(9))]), Entered([Shown(Break(9))]), Passed])], false, 0)
      == Outcome(Continue(false), 2)
    ensures VisitAsWritten([[Entered([Entered([Shown(Break(9))]), Entered([Shown(Break(9))]), Passed])],
                            [Entered([Passed]), Entered([Passed]), Shown(Break(9))]])
      == Break(9)
  {
    var deepest: seq<Event<int>> := [Shown(Break(9))];
    assert RunAsWritten(deepest, false, 0) == Outcome(Break(9), 1);
    var one: seq<Event<int>> := [Entered(deepest), Entered(deepest), Passed];
    assert one[1..] == [Entered(deepest), Passed] && one[1..][1..] == [Passed] && one[1..][1..][1..] == [];
    assert RunAsWritten(one[1..][1..], false, 2) == Outcome(Continue(false), 2);
    assert RunAsWritten(one[1..], false, 1) == Outcome(Continue(false), 2);
    assert RunAsWritten(one, false, 0) == Outcome(Continue(false), 2);
    var roundZero: seq<Event<int>> := [Entered(one)];
    assert roundZero[1..] == [];
    assert RunAsWritten(roundZero, false, 0) == Outcome(Continue(false), 2);
    var silent: seq<Event<int>> := [Passed];
    assert silent[1..] == [];
    assert RunAsWritten(silent, false, 0) == Outcome(Continue(false), 0);
    var roundOne: seq<Event<int>> := [Entered(silent), Entered(silent), Shown(Break(9))];
    assert roundOne[1..] == [Entered(silent), Shown(Break(9))] && roundOne[1..][1..] == [Shown(Break(9))];
    assert RunAsWritten(roundOne, false, 0) == Outcome(Break(9), 1);
    var roots := [roundZero, roundOne];
    assert roots[1..] == [roundOne];
  }
}
