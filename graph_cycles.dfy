/**
 * Bounded elementary-cycle search (src/graph_cycles.rs).
 *
 * The graph is given by neighbour lists over node ids `0 .. |g|`; a strongly
 * connected component is a sequence of distinct node ids, and the search works
 * on positions in that sequence ("SCC-local indices"). The component list
 * itself comes from Tarjan's algorithm in petgraph, which is not part of this
 * model: components are inputs.
 *
 * A visitor that may keep state (Rust's `FnMut`) is modelled as a function of
 * everything it has been shown so far: the `history` of cycles, threaded through
 * the search, ending with the cycle it is being shown now.
 */
module GraphCycles {
  import opened Wrappers
  import opened Seqs

  /** Rust's `std::ops::ControlFlow<B, C>`. */
  datatype ControlFlow<B, C> = Continue(value: C) | Break(brk: B)

  /** Neighbour lists: node `u` has an edge to every node in `g[u]`. */
  type Graph = seq<seq<nat>>

  /** A visitor answers, given every cycle it has been shown so far (the last one is the current one). */
  type Visitor<B> = seq<seq<nat>> -> ControlFlow<B, ()>

  predicate WellFormed(g: Graph) {
    forall u, i :: 0 <= u < |g| && 0 <= i < |g[u]| ==> g[u][i] < |g|
  }

  /** What `tarjan_scc` hands to `CycleFinder::new`: distinct node ids of the graph. */
  predicate IsComponent(g: Graph, scc: seq<nat>) {
    Distinct(scc) && forall i :: 0 <= i < |scc| ==> scc[i] < |g|
  }

  /** An elementary cycle of 3 to 5 vertices: each vertex has an edge to the next, the last one an edge back to the first, and no vertex repeats. */
  predicate ElementaryCycle(g: Graph, c: seq<nat>) {
    && 3 <= |c| <= 5
    && Distinct(c)
    && (forall i :: 0 <= i < |c| ==> c[i] < |g|)
    && (forall i :: 0 <= i < |c| - 1 ==> c[i + 1] in g[c[i]])
    && c[0] in g[c[|c| - 1]]
  }

  /** A cycle as `cycles()` returns it: an elementary cycle followed by its first node again. */
  predicate ClosedCycle(g: Graph, c: seq<nat>) {
    && 4 <= |c| <= 6
    && c[0] == c[|c| - 1]
    && Distinct(c[..|c| - 1])
    && (forall i :: 0 <= i < |c| ==> c[i] < |g|)
    && (forall i :: 0 <= i < |c| - 1 ==> c[i + 1] in g[c[i]])
  }

  /** Every answer the visitor gave on the way to `h` was `Continue`. */
  predicate AllContinued<B>(visitor: Visitor<B>, h: seq<seq<nat>>) {
    h == [] || (visitor(h).Continue? && AllContinued(visitor, h[..|h| - 1]))
  }

  /** `h1` is `h0` followed by elementary cycles of `g` through nodes of `scc`. */
  predicate Extension(g: Graph, scc: seq<nat>, h0: seq<seq<nat>>, h1: seq<seq<nat>>) {
    && |h0| <= |h1|
    && h1[..|h0|] == h0
    && forall i :: |h0| <= i < |h1| ==> ElementaryCycle(g, h1[i]) && forall x :: x in h1[i] ==> x in scc
  }

  /** An extension whose new cycles all start at node `first`. */
  predicate RootedExtension(g: Graph, scc: seq<nat>, first: nat, h0: seq<seq<nat>>, h1: seq<seq<nat>>) {
    Extension(g, scc, h0, h1) && forall i :: |h0| <= i < |h1| ==> h1[i][0] == first
  }

  lemma RootedExtensionTrans(g: Graph, scc: seq<nat>, first: nat, h0: seq<seq<nat>>, h1: seq<seq<nat>>, h2: seq<seq<nat>>)
    requires RootedExtension(g, scc, first, h0, h1) && RootedExtension(g, scc, first, h1, h2)
    ensures RootedExtension(g, scc, first, h0, h2)
  {
    assert h2[..|h0|] == h2[..|h1|][..|h0|];
  }

  lemma ExtensionTrans(g: Graph, scc: seq<nat>, h0: seq<seq<nat>>, h1: seq<seq<nat>>, h2: seq<seq<nat>>)
    requires Extension(g, scc, h0, h1) && Extension(g, scc, h1, h2)
    ensures Extension(g, scc, h0, h2)
  {
    assert h2[..|h0|] == h2[..|h1|][..|h0|];
  }

  /** Appending one more cycle that starts at `first` keeps a rooted extension and, when the visitor let it pass, keeps every answer a `Continue`. */
  lemma RootedExtensionPush<B>(g: Graph, scc: seq<nat>, first: nat, h0: seq<seq<nat>>, h1: seq<seq<nat>>, c: seq<nat>, visitor: Visitor<B>)
    requires RootedExtension(g, scc, first, h0, h1)
    requires ElementaryCycle(g, c) && c[0] == first && forall x :: x in c ==> x in scc
    ensures RootedExtension(g, scc, first, h0, h1 + [c])
    ensures AllContinued(visitor, h1) && visitor(h1 + [c]).Continue? ==> AllContinued(visitor, h1 + [c])
  {
    assert (h1 + [c])[..|h0|] == h1[..|h0|];
    assert (h1 + [c])[..|h1|] == h1;
  }

  /** The `filter_map` of `adjacent_vertices`: the positions in `scc` of the nodes of `ns` that lie in `scc`, in order. */
  function PositionsIn(ns: seq<nat>, scc: seq<nat>): (ws: seq<nat>)
    ensures |ws| <= |ns|
    ensures forall w :: w in ws ==> w < |scc| && scc[w] in ns
    ensures forall m :: m in ns && m in scc ==> Position(scc, m).Some? && Position(scc, m).value in ws
  {
    if ns == [] then []
    else
      var rest := PositionsIn(ns[1..], scc);
      match Position(scc, ns[0])
      case None => rest
      case Some(i) => [i] + rest
  }

  /** The node at SCC-local index `u` has an edge to the node at SCC-local index `w`. */
  predicate Edge(g: Graph, scc: seq<nat>, u: nat, w: nat) {
    u < |scc| && w < |scc| && scc[u] < |g| && scc[w] in g[scc[u]]
  }

  /**
   * `adjacent_vertices(v)`: the SCC-local indices of the neighbours of `scc[v]`.
   * A position is in the result exactly when its node is a neighbour of `scc[v]`.
   */
  function AdjacentVertices(g: Graph, scc: seq<nat>, v: nat): (ws: seq<nat>)
    requires WellFormed(g) && IsComponent(g, scc) && v < |scc|
    ensures forall j :: 0 <= j < |ws| ==> ws[j] < |scc|
    ensures forall w :: w in ws <==> Edge(g, scc, v, w)
  {
    var ws := PositionsIn(g[scc[v]], scc);
    forall w | 0 <= w < |scc| && scc[w] in g[scc[v]]
      ensures w in ws
    {
      PositionOfDistinct(scc, w);
    }
    assert forall j :: 0 <= j < |ws| ==> ws[j] in ws;
    ws
  }

  /** Number of `false` entries: the number of unblocked vertices. */
  function CountFalse(bs: seq<bool>): (n: nat)
    ensures n <= |bs|
  {
    if bs == [] then 0 else (if bs[0] then 0 else 1) + CountFalse(bs[1..])
  }

  /** Number of `true` entries: the number of blocked vertices. */
  function CountTrue(bs: seq<bool>): (n: nat)
    ensures n <= |bs|
  {
    if bs == [] then 0 else (if bs[0] then 1 else 0) + CountTrue(bs[1..])
  }

  /** Blocking one more vertex, and unblocking none, lowers the number of unblocked vertices. */
  lemma {:induction false} CountFalseDrops(a: seq<bool>, c: seq<bool>, v: nat)
    requires |a| == |c| && v < |a|
    requires forall x :: 0 <= x < |a| && a[x] ==> c[x]
    requires !a[v] && c[v]
    ensures CountFalse(c) < CountFalse(a)
  {
    if v == 0 {
      CountFalseMonotone(a[1..], c[1..]);
    } else {
      CountFalseDrops(a[1..], c[1..], v - 1);
    }
  }

  lemma {:induction false} CountFalseMonotone(a: seq<bool>, c: seq<bool>)
    requires |a| == |c|
    requires forall x :: 0 <= x < |a| && a[x] ==> c[x]
    ensures CountFalse(c) <= CountFalse(a)
  {
    if a != [] {
      CountFalseMonotone(a[1..], c[1..]);
    }
  }

  /** Unblocking one more vertex, and blocking none, lowers the number of blocked vertices. */
  lemma {:induction false} CountTrueDrops(a: seq<bool>, c: seq<bool>, v: nat)
    requires |a| == |c| && v < |a|
    requires forall x :: 0 <= x < |a| && c[x] ==> a[x]
    requires a[v] && !c[v]
    ensures CountTrue(c) < CountTrue(a)
  {
    if v == 0 {
      CountFalseMonotone(c[1..], a[1..]);
      CountTrueVsFalse(a[1..]);
      CountTrueVsFalse(c[1..]);
    } else {
      CountTrueDrops(a[1..], c[1..], v - 1);
    }
  }

  lemma {:induction false} CountTrueVsFalse(a: seq<bool>)
    ensures CountTrue(a) + CountFalse(a) == |a|
  {
    if a != [] {
      CountTrueVsFalse(a[1..]);
    }
  }

  /**
   * The ghost invariant behind "unblock never frees a vertex on the stack".
   * `stamp[y]` is the time `y` was last pushed. Guarded(t): a blocked vertex
   * pushed at time `t` or later only holds, in its B set, vertices pushed at
   * time `t` or later.
   */
  ghost predicate Guarded(blocked: seq<bool>, b: seq<set<nat>>, stamp: seq<nat>, t: nat)
    requires |blocked| == |b| == |stamp|
  {
    forall y: int, z: nat {:trigger z in b[y]} :: 0 <= y < |blocked| && blocked[y] && stamp[y] >= t && z in b[y] ==> z < |stamp| && stamp[z] >= t
  }

  /** Unblocking vertices and clearing the B sets of unblocked ones keeps every Guarded fact. */
  lemma GuardedKept(bl0: seq<bool>, b0: seq<set<nat>>, bl1: seq<bool>, b1: seq<set<nat>>, stamp: seq<nat>, t: nat)
    requires |bl0| == |b0| == |bl1| == |b1| == |stamp|
    requires Guarded(bl0, b0, stamp, t)
    requires forall x :: 0 <= x < |bl1| && bl1[x] ==> bl0[x] && b1[x] == b0[x]
    ensures Guarded(bl1, b1, stamp, t)
  {
    forall y, z | 0 <= y < |bl1| && bl1[y] && stamp[y] >= t && z in b1[y]
      ensures z < |stamp| && stamp[z] >= t
    {
      assert bl0[y] && z in b0[y];
    }
  }

  /** Adding `v` to some B sets keeps Guarded(t) when `v` was pushed at `t` or later. */
  lemma GuardedInsert(bl: seq<bool>, b0: seq<set<nat>>, b1: seq<set<nat>>, stamp: seq<nat>, t: nat, v: nat)
    requires |bl| == |b0| == |b1| == |stamp| && v < |stamp| && stamp[v] >= t
    requires Guarded(bl, b0, stamp, t)
    requires forall x :: 0 <= x < |b1| ==> b1[x] <= b0[x] + {v}
    ensures Guarded(bl, b1, stamp, t)
  {
    forall y, z | 0 <= y < |bl| && bl[y] && stamp[y] >= t && z in b1[y]
      ensures z < |stamp| && stamp[z] >= t
    {
      assert z in b0[y] || z == v;
    }
  }

  /** The path of SCC-local indices on the stack, closed by an edge back to its first vertex, is an elementary cycle of node ids. */
  lemma StackIsCycle(g: Graph, scc: seq<nat>, path: seq<nat>, stack: seq<nat>)
    requires WellFormed(g) && IsComponent(g, scc)
    requires 3 <= |path| <= 5 && |stack| == |path|
    requires forall i :: 0 <= i < |path| ==> path[i] < |scc| && stack[i] == scc[path[i]]
    requires Distinct(path)
    requires forall i :: 0 <= i < |path| - 1 ==> Edge(g, scc, path[i], path[i + 1])
    requires Edge(g, scc, path[|path| - 1], path[0])
    ensures ElementaryCycle(g, stack) && stack[0] == scc[path[0]]
    ensures forall x :: x in stack ==> x in scc
  {
    forall i, j | 0 <= i < j < |stack|
      ensures stack[i] != stack[j]
    {
      assert path[i] != path[j];
    }
  }

  /** Sizes and ranges of the finder's vectors; every stamp is earlier than `clock`. */
  ghost predicate Shaped(g: Graph, scc: seq<nat>, blocked: seq<bool>, b: seq<set<nat>>, stamp: seq<nat>, clock: nat) {
    && WellFormed(g) && IsComponent(g, scc)
    && |blocked| == |scc| && |b| == |scc| && |stamp| == |scc|
    && (forall x, z :: 0 <= x < |b| && z in b[x] ==> z < |scc|)
    && (forall x :: 0 <= x < |stamp| ==> stamp[x] < clock)
  }

  /**
   * What holds while the search rooted at `s` runs with `path` on the stack:
   * the path starts at the root, is a simple path of the component whose
   * vertices are all blocked and were pushed in order, an unblocked vertex
   * other than the root has an empty B set, and every vertex above the root
   * guards the B sets of the vertices pushed after it.
   */
  ghost predicate SearchState(g: Graph, scc: seq<nat>, s: nat, blocked: seq<bool>, b: seq<set<nat>>, stamp: seq<nat>, path: seq<nat>)
    requires |blocked| == |scc| && |b| == |scc| && |stamp| == |scc|
  {
    && s < |scc|
    && (forall i :: 0 <= i < |path| ==> path[i] < |scc| && blocked[path[i]])
    && (path != [] ==> path[0] == s)
    && Distinct(path)
    && (forall i :: 0 <= i < |path| - 1 ==> Edge(g, scc, path[i], path[i + 1]))
    && (forall i, j :: 0 <= i < j < |path| ==> stamp[path[i]] < stamp[path[j]])
    && (forall x :: 0 <= x < |scc| && x != s && !blocked[x] ==> b[x] == {})
    && (forall i :: 1 <= i < |path| ==> Guarded(blocked, b, stamp, stamp[path[i]]))
  }

  /** Vertices blocked in `bl0` stay blocked in `bl1`, with the same stamp. */
  ghost predicate Kept(bl0: seq<bool>, st0: seq<nat>, bl1: seq<bool>, st1: seq<nat>) {
    && |bl0| == |st0| == |bl1| == |st1|
    && forall x :: 0 <= x < |bl0| && bl0[x] ==> bl1[x] && st1[x] == st0[x]
  }

  /** The B sets once `v` has joined the B set of each of its neighbours. */
  function Remembered(g: Graph, scc: seq<nat>, b: seq<set<nat>>, v: nat): (r: seq<set<nat>>)
    ensures |r| == |b|
    ensures forall x :: 0 <= x < |b| ==> r[x] == if Edge(g, scc, v, x) then b[x] + {v} else b[x]
  {
    seq(|b|, x requires 0 <= x < |b| => if Edge(g, scc, v, x) then b[x] + {v} else b[x])
  }

  /**
   * Across `circuit(v)`: `v` is pushed at time `clock` and blocked, the
   * neighbour loop keeps blocked vertices, and the retreat keeps every vertex
   * pushed before `v`; so every vertex blocked at the start is still blocked.
   */
  lemma KeptAcross(bl0: seq<bool>, st0: seq<nat>, bl2: seq<bool>, st2: seq<nat>, bl3: seq<bool>, v: nat, clock: nat)
    requires |bl0| == |st0| && v < |bl0| && !bl0[v]
    requires forall x :: 0 <= x < |st0| ==> st0[x] < clock
    requires Kept(bl0[v := true], st0[v := clock], bl2, st2)
    requires |bl3| == |bl2| && forall x :: 0 <= x < |bl3| && bl2[x] && st2[x] < st2[v] ==> bl3[x]
    ensures Kept(bl0, st0, bl3, st2)
  {
    forall x | 0 <= x < |bl0| && bl0[x]
      ensures bl3[x] && st2[x] == st0[x]
    {
      assert bl0[v := true][x] && st0[v := clock][x] == st0[x];
    }
  }

  /** Each of the first `i` neighbours in `ws` is the root or blocked. */
  predicate NeighboursBlocked(blocked: seq<bool>, ws: seq<nat>, s: nat, i: nat) {
    i <= |ws| && forall j :: 0 <= j < i ==> ws[j] == s || (ws[j] < |blocked| && blocked[ws[j]])
  }

  /** Neighbours found blocked stay blocked while blocked vertices are kept, and one more blocked neighbour extends the prefix. */
  lemma KeptNeighbours(bl0: seq<bool>, st0: seq<nat>, bl1: seq<bool>, st1: seq<nat>, ws: seq<nat>, s: nat, i: nat)
    requires Kept(bl0, st0, bl1, st1) && NeighboursBlocked(bl0, ws, s, i) && i < |ws|
    requires ws[i] == s || (ws[i] < |bl1| && bl1[ws[i]])
    ensures NeighboursBlocked(bl1, ws, s, i + 1)
  {
  }

  /** Every B set member has a stamp, so Guarded(0) always holds. */
  lemma GuardedZero(g: Graph, scc: seq<nat>, blocked: seq<bool>, b: seq<set<nat>>, stamp: seq<nat>, clock: nat)
    requires Shaped(g, scc, blocked, b, stamp, clock)
    ensures Guarded(blocked, b, stamp, 0)
  {
  }

  /** Pushing an unblocked neighbour of the top of the stack (or the root on an empty stack) keeps the search state. */
  lemma PushKeeps(g: Graph, scc: seq<nat>, s: nat, blocked: seq<bool>, b: seq<set<nat>>, stamp: seq<nat>, clock: nat, path: seq<nat>, v: nat)
    requires Shaped(g, scc, blocked, b, stamp, clock) && SearchState(g, scc, s, blocked, b, stamp, path)
    requires v < |scc| && !blocked[v]
    requires path == [] <==> v == s
    requires path != [] ==> Edge(g, scc, path[|path| - 1], v)
    ensures Shaped(g, scc, blocked[v := true], b, stamp[v := clock], clock + 1)
    ensures SearchState(g, scc, s, blocked[v := true], b, stamp[v := clock], path + [v])
  {
    var bl, st, p := blocked[v := true], stamp[v := clock], path + [v];
    assert v !in path;
    forall i | 1 <= i < |p|
      ensures Guarded(bl, b, st, st[p[i]])
    {
      var t := st[p[i]];
      forall y, z | 0 <= y < |bl| && bl[y] && st[y] >= t && z in b[y]
        ensures z < |st| && st[z] >= t
      {
        if y != v && i < |path| {
          assert Guarded(blocked, b, stamp, stamp[path[i]]);
          assert z in b[y];
        }
      }
    }
  }

  /**
   * Popping `v` after the search below it reported a cycle: `v` and the
   * vertices freed by `unblock(v)` were all pushed at `t` or later, so the
   * rest of the path stays blocked and the state is kept.
   */
  lemma PopAfterFound(g: Graph, scc: seq<nat>, s: nat, bl0: seq<bool>, b0: seq<set<nat>>, bl1: seq<bool>, b1: seq<set<nat>>, stamp: seq<nat>, clock: nat, p: seq<nat>, v: nat, t: nat)
    requires Shaped(g, scc, bl0, b0, stamp, clock) && p != [] && v == p[|p| - 1] && SearchState(g, scc, s, bl0, b0, stamp, p)
    requires t == if |p| == 1 then 0 else stamp[v]
    requires |bl1| == |scc| && |b1| == |scc|
    requires forall x :: 0 <= x < |scc| && bl1[x] ==> bl0[x] && b1[x] == b0[x]
    requires forall x :: 0 <= x < |scc| && bl0[x] && !bl1[x] ==> stamp[x] >= t && b1[x] == {}
    requires forall x :: 0 <= x < |scc| && !bl0[x] ==> b1[x] == b0[x]
    ensures Shaped(g, scc, bl1, b1, stamp, clock) && SearchState(g, scc, s, bl1, b1, stamp, p[..|p| - 1])
    ensures forall x :: 0 <= x < |scc| && bl0[x] && stamp[x] < t ==> bl1[x]
  {
    var path := p[..|p| - 1];
    forall i | 0 <= i < |path|
      ensures path[i] == p[i] && path[i] < |scc|
    {
      assert p[i] == path[i];
    }
    forall i | 0 <= i < |path|
      ensures bl1[path[i]]
    {
      assert p[i] == path[i] && p[|path|] == v;
      assert bl0[path[i]];
    }
    forall x, z | 0 <= x < |b1| && z in b1[x]
      ensures z < |scc|
    {
      assert z in b0[x];
    }
    forall i | 1 <= i < |path|
      ensures Guarded(bl1, b1, stamp, stamp[path[i]])
    {
      assert p[i] == path[i];
      GuardedKept(bl0, b0, bl1, b1, stamp, stamp[path[i]]);
    }
    forall i | 0 <= i < |path| - 1
      ensures Edge(g, scc, path[i], path[i + 1])
    {
      assert p[i] == path[i] && p[i + 1] == path[i + 1];
    }
    forall i, j | 0 <= i < j < |path|
      ensures stamp[path[i]] < stamp[path[j]]
    {
      assert p[i] == path[i] && p[j] == path[j];
    }
    forall i, j | 0 <= i < j < |path|
      ensures path[i] != path[j]
    {
      assert p[i] == path[i] && p[j] == path[j];
    }
  }

  /**
   * Popping `v` after the search below it reported nothing: `v` joins the B
   * set of each of its neighbours, which are all blocked (or the root), and
   * the state is kept.
   */
  lemma PopAfterFailed(g: Graph, scc: seq<nat>, s: nat, bl: seq<bool>, b0: seq<set<nat>>, b1: seq<set<nat>>, stamp: seq<nat>, clock: nat, p: seq<nat>, v: nat)
    requires Shaped(g, scc, bl, b0, stamp, clock) && p != [] && v == p[|p| - 1] && SearchState(g, scc, s, bl, b0, stamp, p)
    requires var ws := AdjacentVertices(g, scc, v); NeighboursBlocked(bl, ws, s, |ws|)
    requires b1 == Remembered(g, scc, b0, v)
    ensures Shaped(g, scc, bl, b1, stamp, clock) && SearchState(g, scc, s, bl, b1, stamp, p[..|p| - 1])
  {
    var path := p[..|p| - 1];
    var ws := AdjacentVertices(g, scc, v);
    forall x | 0 <= x < |scc| && x != s && !bl[x]
      ensures !Edge(g, scc, v, x)
    {
      assert !bl[x] ==> x !in ws;
    }
    forall i | 0 <= i < |path|
      ensures path[i] == p[i] && path[i] < |scc|
    {
      assert p[i] == path[i];
    }
    assert v == p[|path|];
    forall i | 1 <= i < |path|
      ensures Guarded(bl, b1, stamp, stamp[path[i]])
    {
      assert p[i] == path[i];
      GuardedInsert(bl, b0, b1, stamp, stamp[path[i]], v);
    }
    forall i | 0 <= i < |path|
      ensures bl[path[i]]
    {
      assert p[i] == path[i];
    }
    forall i | 0 <= i < |path| - 1
      ensures Edge(g, scc, path[i], path[i + 1])
    {
      assert p[i] == path[i] && p[i + 1] == path[i + 1];
    }
    forall i, j | 0 <= i < j < |path|
      ensures stamp[path[i]] < stamp[path[j]]
    {
      assert p[i] == path[i] && p[j] == path[j];
    }
    forall i, j | 0 <= i < j < |path|
      ensures path[i] != path[j]
    {
      assert p[i] == path[i] && p[j] == path[j];
    }
  }

  /**
   * `x` is reached from `v` along `p`: each vertex after the first lies in
   * the B set of the one before it and is blocked. These are the vertices
   * the cascade of `unblock(v)` frees.
   */
  ghost predicate Chain(blocked: seq<bool>, b: seq<set<nat>>, v: nat, x: nat, p: seq<nat>) {
    && p != [] && p[0] == v && p[|p| - 1] == x
    && (forall i :: 0 <= i < |p| ==> p[i] < |blocked| && p[i] < |b|)
    && (forall i :: 1 <= i < |p| ==> p[i] in b[p[i - 1]] && blocked[p[i]])
  }

  ghost predicate Reaches(blocked: seq<bool>, b: seq<set<nat>>, v: nat, x: nat) {
    exists p :: Chain(blocked, b, v, x, p)
  }

  /** `v` itself, and every blocked vertex reached from it: the vertices `unblock(v)` frees. */
  ghost predicate Freed(blocked: seq<bool>, b: seq<set<nat>>, v: nat, x: nat) {
    x == v || (x < |blocked| && blocked[x] && Reaches(blocked, b, v, x))
  }

  /**
   * The blocked flags and B sets after `unblock(v)`, in closed form: the freed
   * vertices are unblocked and their B sets emptied; nothing else changes.
   * The order in which the cascade visits B sets does not matter.
   */
  ghost function Unblocked(blocked: seq<bool>, b: seq<set<nat>>, v: nat): (r: (seq<bool>, seq<set<nat>>))
    ensures |r.0| == |blocked| && |r.1| == |b|
  {
    (seq(|blocked|, x requires 0 <= x < |blocked| => blocked[x] && !Freed(blocked, b, v, x)),
     seq(|b|, x requires 0 <= x < |b| => if Freed(blocked, b, v, x) then {} else b[x]))
  }

  /** A chain from `w`, which lies in B[v], that survives in an earlier state where it is still a chain, extends to a chain from `v`. */
  lemma ChainPrepend(bl0: seq<bool>, b0: seq<set<nat>>, bl1: seq<bool>, b1: seq<set<nat>>, v: nat, w: nat, x: nat, p: seq<nat>)
    requires |bl0| == |b0| == |bl1| == |b1| && v < |bl0|
    requires w in b0[v] && w < |bl1| && bl1[w]
    requires forall y :: 0 <= y < |bl1| && bl1[y] ==> bl0[y] && b1[y] == b0[y]
    requires Chain(bl1, b1, w, x, p)
    ensures Chain(bl0, b0, v, x, [v] + p)
  {
    var q := [v] + p;
    forall i | 1 <= i < |q|
      ensures q[i] in b0[q[i - 1]] && bl0[q[i]]
    {
      if i > 1 {
        assert q[i - 1] == p[i - 2] && q[i] == p[i - 1];
        assert bl1[p[i - 2]];
      }
    }
  }

  /** If freeing is closed under B sets of blocked vertices, every vertex on a chain from a freed `v` is freed. */
  lemma {:induction false} ChainFreed(bl0: seq<bool>, b0: seq<set<nat>>, bl1: seq<bool>, v: nat, x: nat, p: seq<nat>)
    requires |bl0| == |b0| == |bl1| && v < |bl0| && bl0[v] && !bl1[v]
    requires forall y, w :: 0 <= y < |bl0| && bl0[y] && !bl1[y] && w in b0[y] && w < |bl0| && bl0[w] ==> !bl1[w]
    requires Chain(bl0, b0, v, x, p)
    ensures x < |bl0| && bl0[x] && !bl1[x]
    decreases |p|
  {
    if |p| > 1 {
      var q := p[..|p| - 1];
      assert Chain(bl0, b0, v, p[|p| - 2], q);
      var y := p[|p| - 2];
      ChainFreed(bl0, b0, bl1, v, y, q);
      assert x in b0[y] && x < |bl0| && bl0[x];
    }
  }

  /**
   * A state that frees `v`, frees only vertices reached from `v`, and frees
   * the blocked members of the B set of every vertex it frees, is exactly
   * `Unblocked`.
   */
  lemma UnblockedExactly(bl0: seq<bool>, b0: seq<set<nat>>, bl1: seq<bool>, b1: seq<set<nat>>, v: nat)
    requires |bl0| == |b0| == |bl1| == |b1| && v < |bl0| && bl0[v]
    requires !bl1[v] && b1[v] == {}
    requires forall x :: 0 <= x < |bl1| && bl1[x] ==> bl0[x] && b1[x] == b0[x]
    requires forall x :: 0 <= x < |bl1| && bl0[x] && !bl1[x] ==> b1[x] == {}
    requires forall x :: 0 <= x < |bl1| && !bl0[x] ==> b1[x] == b0[x]
    requires forall x :: 0 <= x < |bl1| && bl0[x] && !bl1[x] ==> Reaches(bl0, b0, v, x)
    requires forall y, w :: 0 <= y < |bl0| && bl0[y] && !bl1[y] && w in b0[y] && w < |bl0| && bl0[w] ==> !bl1[w]
    ensures (bl1, b1) == Unblocked(bl0, b0, v)
  {
    var u := Unblocked(bl0, b0, v);
    forall x | 0 <= x < |bl0| && Freed(bl0, b0, v, x)
      ensures !bl1[x] && bl0[x]
    {
      if x != v {
        var p :| Chain(bl0, b0, v, x, p);
        ChainFreed(bl0, b0, bl1, v, x, p);
      }
    }
    assert forall x :: 0 <= x < |bl0| ==> bl1[x] == u.0[x];
    assert forall x :: 0 <= x < |bl0| ==> b1[x] == u.1[x];
    assert bl1 == u.0 && b1 == u.1;
  }

  /**
   * One pass of the loop in `unblock(v)`: the nested `unblock(w)` ran from
   * state (blc, bc) to bl1. The vertices freed so far are still reached from
   * `v` in the state `unblock(v)` started from (bl0, b0), and every freed
   * vertex other than `v` still has the blocked members of its B set freed.
   */
  lemma UnblockPass(bl0: seq<bool>, b0: seq<set<nat>>, blc: seq<bool>, bc: seq<set<nat>>, bl1: seq<bool>, v: nat, w: nat)
    requires |bl0| == |b0| == |blc| == |bc| == |bl1| && v < |bl0| && w < |bl0|
    requires w in b0[v] && blc[w]
    requires forall y :: 0 <= y < |blc| && blc[y] ==> bl0[y] && bc[y] == b0[y]
    requires forall y :: 0 <= y < |bl1| && bl1[y] ==> blc[y]
    requires forall y :: 0 <= y < |blc| && blc[y] && !bl1[y] ==> Reaches(blc, bc, w, y)
    requires forall y, z :: 0 <= y < |blc| && blc[y] && !bl1[y] && z in bc[y] && z < |blc| && blc[z] ==> !bl1[z]
    requires forall y, z :: 0 <= y < |blc| && y != v && bl0[y] && !blc[y] && z in b0[y] && z < |blc| && bl0[z] ==> !blc[z]
    requires forall y :: 0 <= y < |blc| && bl0[y] && !blc[y] ==> Reaches(bl0, b0, v, y)
    ensures forall y, z :: 0 <= y < |bl1| && y != v && bl0[y] && !bl1[y] && z in b0[y] && z < |bl1| && bl0[z] ==> !bl1[z]
    ensures forall y :: 0 <= y < |bl1| && bl0[y] && !bl1[y] ==> Reaches(bl0, b0, v, y)
  {
    forall y | 0 <= y < |bl1| && bl0[y] && !bl1[y]
      ensures Reaches(bl0, b0, v, y)
    {
      if blc[y] {
        var p :| Chain(blc, bc, w, y, p);
        ChainPrepend(bl0, b0, blc, bc, v, w, y, p);
      }
    }
    forall y, z | 0 <= y < |bl1| && y != v && bl0[y] && !bl1[y] && z in b0[y] && z < |bl1| && bl0[z]
      ensures !bl1[z]
    {
      if blc[y] {
        assert z in bc[y];
      }
    }
  }

  /** The blocked flags and B sets at the end of `circuit(v)`: unblock `v` if a cycle was found below it, else put it in its neighbours' B sets. */
  ghost function Retreated(g: Graph, scc: seq<nat>, blocked: seq<bool>, b: seq<set<nat>>, v: nat, found: bool): (r: (seq<bool>, seq<set<nat>>))
    ensures |r.0| == |blocked| && |r.1| == |b|
  {
    if found then Unblocked(blocked, b, v) else (blocked, Remembered(g, scc, b, v))
  }

  /** A chain to a blocked `x` extends by a blocked member of B[x]. */
  lemma ChainAppend(bl: seq<bool>, b: seq<set<nat>>, v: nat, x: nat, w: nat, p: seq<nat>)
    requires Chain(bl, b, v, x, p) && w in b[x] && w < |bl| && w < |b| && bl[w]
    ensures Chain(bl, b, v, w, p + [w])
  {
    var q := p + [w];
    forall i | 1 <= i < |q|
      ensures q[i] in b[q[i - 1]] && bl[q[i]]
    {
      if i < |p| {
        assert q[i] == p[i] && q[i - 1] == p[i - 1];
      }
    }
  }

  /**
   * What `Unblocked` keeps and changes: `v` is freed with an empty B set, a
   * vertex still blocked keeps its B set, a freed vertex was reached from `v`
   * and has an empty B set, a vertex that was not blocked keeps its B set, and
   * the blocked members of a freed vertex's B set are freed too.
   */
  lemma UnblockedFrame(bl0: seq<bool>, b0: seq<set<nat>>, v: nat)
    requires |bl0| == |b0| && v < |bl0|
    ensures !Unblocked(bl0, b0, v).0[v] && Unblocked(bl0, b0, v).1[v] == {}
    ensures forall x :: 0 <= x < |bl0| && Unblocked(bl0, b0, v).0[x] ==> bl0[x] && Unblocked(bl0, b0, v).1[x] == b0[x]
    ensures forall x :: 0 <= x < |bl0| && bl0[x] && !Unblocked(bl0, b0, v).0[x] ==> Unblocked(bl0, b0, v).1[x] == {} && Reaches(bl0, b0, v, x)
    ensures forall x :: 0 <= x < |bl0| && !bl0[x] && x != v ==> Unblocked(bl0, b0, v).1[x] == b0[x]
    ensures forall x, w :: 0 <= x < |bl0| && bl0[x] && !Unblocked(bl0, b0, v).0[x] && w in b0[x] && w < |bl0| && bl0[w] ==> !Unblocked(bl0, b0, v).0[w]
  {
    var u := Unblocked(bl0, b0, v);
    assert Chain(bl0, b0, v, v, [v]);
    forall x, w | 0 <= x < |bl0| && bl0[x] && !u.0[x] && w in b0[x] && w < |bl0| && bl0[w]
      ensures !u.0[w]
    {
      var p :| Chain(bl0, b0, v, x, p);
      ChainAppend(bl0, b0, v, x, w, p);
    }
  }

  /**
   * The loop of `unblock(v)`, from (bl0, b0) to (bl, b), with `tmp` the part
   * of B[v] not yet visited: `v` is free, blocked vertices keep their B sets,
   * freed ones were reached from `v` and have empty B sets, the blocked
   * members of every freed vertex's B set other than `v` are freed, and so are
   * those of the visited part of B[v].
   */
  ghost predicate Cascading(bl0: seq<bool>, b0: seq<set<nat>>, bl: seq<bool>, b: seq<set<nat>>, v: nat, tmp: set<nat>) {
    && |bl0| == |b0| == |bl| == |b| && v < |bl0|
    && !bl[v] && b[v] == b0[v] && tmp <= b0[v]
    && (forall x :: 0 <= x < |bl| && bl[x] ==> bl0[x] && b[x] == b0[x])
    && (forall x :: 0 <= x < |bl| && x != v && bl0[x] && !bl[x] ==> b[x] == {})
    && (forall x :: 0 <= x < |bl| && !bl0[x] ==> b[x] == b0[x])
    && (forall x :: 0 <= x < |bl| && bl0[x] && !bl[x] ==> Reaches(bl0, b0, v, x))
    && (forall x, w :: 0 <= x < |bl| && x != v && bl0[x] && !bl[x] && w in b0[x] && w < |bl| && bl0[w] ==> !bl[w])
    && (forall w :: w in b0[v] && w !in tmp && w < |bl| && bl0[w] ==> !bl[w])
  }

  lemma CascadeStart(bl0: seq<bool>, b0: seq<set<nat>>, v: nat)
    requires |bl0| == |b0| && v < |bl0| && bl0[v]
    ensures Cascading(bl0, b0, bl0[v := false], b0, v, b0[v])
  {
    assert Chain(bl0, b0, v, v, [v]);
  }

  /** Visiting `w` of B[v] while it is blocked: the nested `unblock(w)` keeps the loop's invariant. */
  lemma CascadePass(bl0: seq<bool>, b0: seq<set<nat>>, blc: seq<bool>, bc: seq<set<nat>>, v: nat, w: nat, tmp: set<nat>)
    requires Cascading(bl0, b0, blc, bc, v, tmp + {w}) && w in b0[v] && w < |blc| && blc[w]
    ensures Cascading(bl0, b0, Unblocked(blc, bc, w).0, Unblocked(blc, bc, w).1, v, tmp)
  {
    var (bl1, b1) := Unblocked(blc, bc, w);
    UnblockedFrame(blc, bc, w);
    UnblockPass(bl0, b0, blc, bc, bl1, v, w);
  }

  /** Visiting `w` of B[v] once it is no longer blocked changes nothing. */
  lemma CascadeSkip(bl0: seq<bool>, b0: seq<set<nat>>, bl: seq<bool>, b: seq<set<nat>>, v: nat, w: nat, tmp: set<nat>)
    requires Cascading(bl0, b0, bl, b, v, tmp + {w}) && w in b0[v] && w < |bl| && !bl[w]
    ensures Cascading(bl0, b0, bl, b, v, tmp)
  {
  }

  /** Once all of B[v] is visited, emptying B[v] gives exactly `Unblocked`. */
  lemma CascadeEnd(bl0: seq<bool>, b0: seq<set<nat>>, bl: seq<bool>, b: seq<set<nat>>, v: nat)
    requires Cascading(bl0, b0, bl, b, v, {}) && bl0[v]
    ensures (bl, b[v := {}]) == Unblocked(bl0, b0, v)
  {
    UnblockedExactly(bl0, b0, bl, b[v := {}], v);
  }

  /** The reset for the search rooted at `root`: vertices from `root` on unblocked, B sets after `root` emptied. */
  function Restarted(blocked: seq<bool>, b: seq<set<nat>>, root: nat): (r: (seq<bool>, seq<set<nat>>))
    requires root < |blocked| == |b|
    ensures |r.0| == |r.1| == |blocked|
    ensures forall x :: 0 <= x < |blocked| ==> r.0[x] == (x < root && blocked[x])
    ensures forall x :: 0 <= x < |blocked| ==> r.1[x] == if root < x then {} else b[x]
  {
    (blocked[..root] + seq(|blocked| - root, _ => false),
     seq(|b|, x requires 0 <= x < |b| => if root < x then {} else b[x]))
  }

  /** The state of Johnson's circuit search inside one strongly connected component. */
  class CycleFinder {
    const graph: Graph
    const scc: seq<nat>
    var blocked: seq<bool>
    var b: seq<set<nat>>
    var stack: seq<nat>
    var s: nat

    /** The SCC-local indices of the nodes on `stack`. */
    ghost var path: seq<nat>
    /** When each vertex was last pushed, on the clock `clock`. */
    ghost var stamp: seq<nat>
    ghost var clock: nat

    ghost predicate Valid()
      reads this
    {
      && Shaped(graph, scc, blocked, b, stamp, clock)
      && |stack| == |path|
      && (forall i :: 0 <= i < |path| ==> path[i] < |scc| && stack[i] == scc[path[i]])
    }

    ghost predicate Searching()
      reads this
      requires Valid()
    {
      SearchState(graph, scc, s, blocked, b, stamp, path)
    }

    /** `CycleFinder::new`: nothing blocked, every B set empty, empty stack. */
    constructor (graph: Graph, scc: seq<nat>)
      requires WellFormed(graph) && IsComponent(graph, scc)
      ensures Valid()
      ensures this.graph == graph && this.scc == scc
      ensures blocked == seq(|scc|, _ => false) && b == seq(|scc|, _ => {})
      ensures stack == [] && path == [] && s == 0
    {
      this.graph := graph;
      this.scc := scc;
      blocked := seq(|scc|, _ => false);
      b := seq(|scc|, _ => {});
      stack := [];
      s := 0;
      path := [];
      stamp := seq(|scc|, _ => 0);
      clock := 1;
    }

    /**
     * `unblock(v)`: unblock `v`, then, for every vertex of its B set that is
     * still blocked, unblock it in turn; finally empty B[v]. With `t` the time
     * `v` was pushed, only vertices pushed at `t` or later are freed, which is
     * why a vertex lower on the stack is never unblocked.
     */
    method Unblock(v: nat, ghost t: nat)
      requires Valid() && v < |scc| && blocked[v] && stamp[v] >= t
      requires Guarded(blocked, b, stamp, t)
      modifies this`blocked, this`b
      decreases CountTrue(blocked)
      ensures Valid()
      ensures blocked == Unblocked(old(blocked), old(b), v).0 && b == Unblocked(old(blocked), old(b), v).1
      ensures forall x :: 0 <= x < |scc| && old(blocked[x]) && !blocked[x] ==> stamp[x] >= t
    {
      CascadeStart(blocked, b, v);
      blocked := blocked[v := false];
      var tmp := b[v];
      while tmp != {}
        invariant Valid()
        invariant Cascading(old(blocked), old(b), blocked, b, v, tmp)
        invariant forall z :: z in tmp ==> stamp[z] >= t
        invariant Guarded(blocked, b, stamp, t)
        invariant forall x :: 0 <= x < |scc| && old(blocked[x]) && !blocked[x] ==> stamp[x] >= t
        decreases tmp
      {
        var w :| w in tmp;
        tmp := tmp - {w};
        assert old(b[v]) == b[v];
        if blocked[w] {
          ghost var blc, bc := blocked, b;
          CountTrueDrops(old(blocked), blocked, v);
          Unblock(w, t);
          UnblockedFrame(blc, bc, w);
          GuardedKept(blc, bc, blocked, b, stamp, t);
          CascadePass(old(blocked), old(b), blc, bc, v, w, tmp);
        } else {
          CascadeSkip(old(blocked), old(b), blocked, b, v, w, tmp);
        }
      }
      CascadeEnd(old(blocked), old(b), blocked, b, v);
      b := b[v := {}];
    }

    /** Putting `v` in the B set of each of its neighbours. */
    method Remember(v: nat)
      requires Valid() && v < |scc|
      modifies this`b
      ensures b == Remembered(graph, scc, old(b), v)
    {
      var ws := AdjacentVertices(graph, scc, v);
      for j := 0 to |ws|
        invariant |b| == |scc|
        invariant forall x :: 0 <= x < |scc| ==> b[x] == if x in ws[..j] then old(b[x]) + {v} else old(b[x])
      {
        assert ws[..j + 1] == ws[..j] + [ws[j]];
        b := b[ws[j] := b[ws[j]] + {v}];
      }
      assert ws[..|ws|] == ws;
      assert forall x :: 0 <= x < |scc| ==> b[x] == Remembered(graph, scc, old(b), v)[x];
    }

    /** `unblock(v)` at the end of `circuit(v)` when a cycle was reported below `v`. */
    method Release(v: nat)
      requires Valid() && Searching()
      requires path != [] && v == path[|path| - 1]
      modifies this`blocked, this`b
      ensures Valid() && SearchState(graph, scc, s, blocked, b, stamp, path[..|path| - 1])
      ensures (blocked, b) == Unblocked(old(blocked), old(b), v)
      ensures v != s ==> forall x :: 0 <= x < |scc| && old(blocked[x]) && stamp[x] < stamp[v] ==> blocked[x]
    {
      ghost var bl0, b0 := blocked, b;
      ghost var p := path[..|path| - 1];
      assert path == p + [v];
      assert v == s <==> p == [];
      ghost var t := if |path| == 1 then 0 else stamp[v];
      if |path| == 1 {
        GuardedZero(graph, scc, blocked, b, stamp, clock);
      }
      Unblock(v, t);
      UnblockedFrame(bl0, b0, v);
      PopAfterFound(graph, scc, s, bl0, b0, blocked, b, stamp, clock, path, v, t);
    }

    /** Otherwise, at the end of `circuit(v)`: `v` joins the B set of each of its neighbours and stays blocked. */
    method Defer(v: nat)
      requires Valid() && Searching()
      requires path != [] && v == path[|path| - 1]
      requires var ws := AdjacentVertices(graph, scc, v); NeighboursBlocked(blocked, ws, s, |ws|)
      modifies this`b
      ensures Valid() && SearchState(graph, scc, s, blocked, b, stamp, path[..|path| - 1])
      ensures b == Remembered(graph, scc, old(b), v)
    {
      ghost var b0 := b;
      Remember(v);
      PopAfterFailed(graph, scc, s, blocked, b0, b, stamp, clock, path, v);
    }

    /** `stack.pop()`. */
    method Pop()
      requires Valid() && path != []
      requires SearchState(graph, scc, s, blocked, b, stamp, path[..|path| - 1])
      modifies this`stack, this`path
      ensures Valid() && Searching()
      ensures stack == old(stack[..|stack| - 1]) && path == old(path[..|path| - 1])
    {
      stack := stack[..|stack| - 1];
      path := path[..|path| - 1];
    }

    /**
     * The end of `circuit(v)`: if a cycle was reported below `v`, unblock
     * `v`; otherwise put `v` in the B set of each of its neighbours. Then pop
     * `v` off the stack.
     */
    method Retreat(v: nat, found: bool)
      requires Valid() && Searching()
      requires path != [] && v == path[|path| - 1]
      requires !found ==> var ws := AdjacentVertices(graph, scc, v); NeighboursBlocked(blocked, ws, s, |ws|)
      modifies this`blocked, this`b, this`stack, this`path
      ensures Valid() && Searching()
      ensures stack == old(stack[..|stack| - 1]) && path == old(path[..|path| - 1])
      ensures blocked[v] == !found
      ensures (blocked, b) == Retreated(graph, scc, old(blocked), old(b), v, found)
      ensures v != s ==> forall x :: 0 <= x < |scc| && old(blocked[x]) && stamp[x] < stamp[v] ==> blocked[x]
    {
      if found {
        Release(v);
      } else {
        assert blocked[path[|path| - 1]];
        Defer(v);
      }
      Pop();
    }

    /** The start of `circuit(v)`: push `v` on the stack and block it. */
    method Push(v: nat)
      requires Valid() && Searching()
      requires v < |scc| && !blocked[v]
      requires path == [] <==> v == s
      requires path != [] ==> Edge(graph, scc, path[|path| - 1], v)
      modifies this`stack, this`path, this`blocked, this`stamp, this`clock
      ensures Valid() && Searching()
      ensures stack == old(stack) + [scc[v]] && path == old(path) + [v]
      ensures blocked == old(blocked)[v := true] && stamp == old(stamp)[v := old(clock)]
      ensures clock == old(clock) + 1
    {
      PushKeeps(graph, scc, s, blocked, b, stamp, clock, path, v);
      stack := stack + [scc[v]];
      path := path + [v];
      blocked := blocked[v := true];
      stamp := stamp[v := clock];
      clock := clock + 1;
    }

    /**
     * `circuit(v)`: push `v` and block it; for each neighbour `w`, report the
     * stack to the visitor when `w` is the root and the stack holds 3 to 5
     * vertices, or descend into `w` when it is not blocked. A `Break` from the
     * visitor is passed straight up and leaves the stack as the visitor saw
     * it; otherwise `Retreat` finishes and the result says whether anything
     * was reported below `v`.
     */
    method Circuit<B>(v: nat, visitor: Visitor<B>, history: seq<seq<nat>>)
      returns (r: ControlFlow<B, bool>, history': seq<seq<nat>>)
      requires Valid() && Searching()
      requires v < |scc| && !blocked[v]
      requires path == [] <==> v == s
      requires path != [] ==> Edge(graph, scc, path[|path| - 1], v)
      requires AllContinued(visitor, history)
      modifies this
      decreases CountFalse(blocked), 0
      ensures s == old(s)
      ensures RootedExtension(graph, scc, scc[s], history, history')
      ensures r.Continue? ==>
        && Valid() && Searching()
        && stack == old(stack) && path == old(path)
        && AllContinued(visitor, history')
        && r.value == (|history'| > |history|)
        && blocked[v] == !r.value
        && (v != s ==> Kept(old(blocked), old(stamp), blocked, stamp))
      ensures r.Break? ==>
        && |history'| > |history|
        && visitor(history') == Break(r.brk)
        && AllContinued(visitor, history'[..|history'| - 1])
    {
      ghost var bl0, st0, c0 := blocked, stamp, clock;
      Push(v);
      CountFalseDrops(old(blocked), blocked, v);
      var res;
      res, history' := Scan(v, visitor, history);
      if res.Break? {
        return Break(res.brk), history';
      }
      ghost var bl2, st2 := blocked, stamp;
      Retreat(v, res.value);
      if v != s {
        KeptAcross(bl0, st0, bl2, st2, blocked, v, c0);
      }
      return res, history';
    }

    /**
     * The loop of `circuit(v)` over the neighbours of `v`, now on top of the
     * stack. The result says whether a cycle was reported below `v`; when none
     * was, every neighbour other than the root is blocked.
     */
    method Scan<B>(v: nat, visitor: Visitor<B>, history: seq<seq<nat>>)
      returns (r: ControlFlow<B, bool>, history': seq<seq<nat>>)
      requires Valid() && Searching()
      requires path != [] && v == path[|path| - 1]
      requires AllContinued(visitor, history)
      modifies this
      decreases CountFalse(blocked), 2
      ensures s == old(s)
      ensures RootedExtension(graph, scc, scc[s], history, history')
      ensures r.Continue? ==>
        && Valid() && Searching()
        && stack == old(stack) && path == old(path)
        && AllContinued(visitor, history')
        && r.value == (|history'| > |history|)
        && Kept(old(blocked), old(stamp), blocked, stamp)
        && (!r.value ==> var ws := AdjacentVertices(graph, scc, v); NeighboursBlocked(blocked, ws, s, |ws|))
      ensures r.Break? ==>
        && |history'| > |history|
        && visitor(history') == Break(r.brk)
        && AllContinued(visitor, history'[..|history'| - 1])
    {
      var f := false;
      var ws := AdjacentVertices(graph, scc, v);
      history' := history;
      for i := 0 to |ws|
        invariant Valid() && Searching() && s == old(s)
        invariant stack == old(stack) && path == old(path)
        invariant Kept(old(blocked), old(stamp), blocked, stamp)
        invariant CountFalse(blocked) <= CountFalse(old(blocked))
        invariant RootedExtension(graph, scc, scc[s], history, history') && AllContinued(visitor, history')
        invariant f == (|history'| > |history|)
        invariant !f ==> NeighboursBlocked(blocked, ws, s, i)
      {
        ghost var h0, bl0, st0 := history', blocked, stamp;
        var res;
        res, history' := Step(v, ws[i], visitor, history');
        RootedExtensionTrans(graph, scc, scc[s], history, h0, history');
        if res.Break? {
          return Break(res.brk), history';
        }
        CountFalseMonotone(bl0, blocked);
        if !f && !res.value {
          KeptNeighbours(bl0, st0, blocked, stamp, ws, s, i);
        }
        f := f || res.value;
      }
      return Continue(f), history';
    }

    /**
     * One neighbour `w` of the top of the stack `v`: when `w` is the root and
     * the stack holds 3 to 5 vertices, show the stack to the visitor; when `w`
     * is not blocked, descend into it. The result says whether a cycle was
     * reported.
     */
    method Step<B>(v: nat, w: nat, visitor: Visitor<B>, hist: seq<seq<nat>>)
      returns (r: ControlFlow<B, bool>, hist': seq<seq<nat>>)
      requires Valid() && Searching()
      requires path != [] && v == path[|path| - 1] && Edge(graph, scc, v, w)
      requires AllContinued(visitor, hist)
      modifies this
      decreases CountFalse(blocked), 1
      ensures s == old(s)
      ensures RootedExtension(graph, scc, scc[s], hist, hist')
      ensures r.Continue? ==>
        && Valid() && Searching()
        && stack == old(stack) && path == old(path)
        && AllContinued(visitor, hist')
        && r.value == (|hist'| > |hist|)
        && Kept(old(blocked), old(stamp), blocked, stamp)
        && (!r.value ==> w == s || blocked[w])
      ensures r.Break? ==>
        && |hist'| > |hist|
        && visitor(hist') == Break(r.brk)
        && AllContinued(visitor, hist'[..|hist'| - 1])
    {
      hist' := hist;
      if w == s {
        if 3 <= |stack| <= 5 {
          StackIsCycle(graph, scc, path, stack);
          var answer := visitor(hist + [stack]);
          RootedExtensionPush(graph, scc, scc[s], hist, hist, stack, visitor);
          hist' := hist + [stack];
          if answer.Break? {
            return Break(answer.brk), hist';
          }
          return Continue(true), hist';
        }
      } else if !blocked[w] {
        r, hist' := Circuit(w, visitor, hist);
        return;
      }
      return Continue(false), hist';
    }

    /**
     * Resetting for the search rooted at `root`: unblock the vertices from
     * `root` on and empty the B sets after `root` (B[root] itself is kept).
     */
    method Restart(root: nat)
      requires Valid() && path == [] && root < |scc|
      requires forall x :: 0 <= x < root && !blocked[x] ==> b[x] == {}
      modifies this`s, this`blocked, this`b
      ensures Valid() && Searching() && s == root
      ensures blocked == Restarted(old(blocked), old(b), root).0 && b == Restarted(old(blocked), old(b), root).1
    {
      s := root;
      blocked := blocked[..root] + seq(|scc| - root, _ => false);
      for k := root + 1 to |scc|
        modifies this`b
        invariant |b| == |scc|
        invariant forall x :: 0 <= x <= root ==> b[x] == old(b[x])
        invariant forall x :: root < x < k ==> b[x] == {}
        invariant forall x :: k <= x < |scc| ==> b[x] == old(b[x])
      {
        b := b[k := {}];
      }
      assert b == Restarted(old(blocked), old(b), root).1;
    }

    /**
     * `visit`: for each root `s` in increasing order, reset, run the circuit
     * search from `s`, and block `s` for good. A `Break` ends the search.
     */
    method Visit<B>(visitor: Visitor<B>, history: seq<seq<nat>>)
      returns (r: ControlFlow<B, ()>, history': seq<seq<nat>>)
      requires Valid() && path == []
      requires AllContinued(visitor, history)
      modifies this
      ensures Extension(graph, scc, history, history')
      ensures r.Continue? ==> Valid() && AllContinued(visitor, history') && stack == old(stack)
      ensures r.Break? ==>
        && |history'| > |history|
        && visitor(history') == Break(r.brk)
        && AllContinued(visitor, history'[..|history'| - 1])
    {
      history' := history;
      for root := 0 to |scc|
        invariant Valid() && path == [] && stack == old(stack)
        invariant forall x :: 0 <= x < root && !blocked[x] ==> b[x] == {}
        invariant Extension(graph, scc, history, history')
        invariant AllContinued(visitor, history')
      {
        Restart(root);
        ghost var h0 := history';
        var res;
        res, history' := Circuit(root, visitor, history');
        ExtensionTrans(graph, scc, history, h0, history');
        if res.Break? {
          return Break(res.brk), history';
        }
        blocked := blocked[root := true];
      }
      return Continue(()), history';
    }
  }

  /** Closing an elementary cycle with its first node gives a closed cycle, and only an elementary cycle closes to one. */
  lemma CloseCycle(g: Graph, c: seq<nat>)
    requires c != []
    ensures ElementaryCycle(g, c) <==> ClosedCycle(g, c + [c[0]])
  {
    var d := c + [c[0]];
    assert d[..|d| - 1] == c;
  }

  /** A cycle each of whose nodes lies in one of the components. */
  predicate WithinSomeComponent(sccs: seq<seq<nat>>, c: seq<nat>) {
    exists k :: 0 <= k < |sccs| && forall x :: x in c ==> x in sccs[k]
  }

  /**
   * `visit_cycles`: run a fresh finder over each component in turn. The first
   * `Break` from the visitor ends the search and its value is returned;
   * otherwise the result is `None`. Every cycle shown to the visitor is an
   * elementary cycle of 3 to 5 nodes inside one component.
   */
  method VisitCycles<B>(g: Graph, sccs: seq<seq<nat>>, visitor: Visitor<B>) returns (r: Option<B>, history: seq<seq<nat>>)
    requires WellFormed(g) && forall k :: 0 <= k < |sccs| ==> IsComponent(g, sccs[k])
    ensures forall i :: 0 <= i < |history| ==> ElementaryCycle(g, history[i]) && WithinSomeComponent(sccs, history[i])
    ensures r.None? ==> AllContinued(visitor, history)
    ensures r.Some? ==>
      && history != []
      && visitor(history) == Break(r.value)
      && AllContinued(visitor, history[..|history| - 1])
  {
    history := [];
    for k := 0 to |sccs|
      invariant forall i :: 0 <= i < |history| ==> ElementaryCycle(g, history[i]) && WithinSomeComponent(sccs, history[i])
      invariant AllContinued(visitor, history)
    {
      var finder := new CycleFinder(g, sccs[k]);
      ghost var h0 := history;
      var res;
      res, history := finder.Visit(visitor, history);
      forall i | 0 <= i < |history|
        ensures ElementaryCycle(g, history[i]) && WithinSomeComponent(sccs, history[i])
      {
        if i < |h0| {
          assert history[i] == history[..|h0|][i];
        } else {
          assert forall x :: x in history[i] ==> x in sccs[k];
        }
      }
      if res.Break? {
        return Some(res.brk), history;
      }
    }
    return None, history;
  }

  /** The visitor of `visit_all_cycles`, which never stops the search. */
  function AlwaysContinue(h: seq<seq<nat>>): (answer: ControlFlow<(), ()>)
    ensures answer.Continue?
  {
    Continue(())
  }

  /** `visit_all_cycles`: the visitor sees every cycle the search finds; the search never stops early. */
  method VisitAllCycles(g: Graph, sccs: seq<seq<nat>>) returns (history: seq<seq<nat>>)
    requires WellFormed(g) && forall k :: 0 <= k < |sccs| ==> IsComponent(g, sccs[k])
    ensures forall i :: 0 <= i < |history| ==> ElementaryCycle(g, history[i]) && WithinSomeComponent(sccs, history[i])
  {
    var r;
    r, history := VisitCycles(g, sccs, AlwaysContinue);
  }

  /**
   * `cycles`: every cycle the search finds, each followed by its first node
   * again, in the order the search found them. `found` is the list of cycles
   * `visit_all_cycles` showed to its visitor.
   */
  method Cycles(g: Graph, sccs: seq<seq<nat>>) returns (cs: seq<seq<nat>>, ghost found: seq<seq<nat>>)
    requires WellFormed(g) && forall k :: 0 <= k < |sccs| ==> IsComponent(g, sccs[k])
    ensures |cs| == |found|
    ensures forall i :: 0 <= i < |found| ==>
      && ElementaryCycle(g, found[i])
      && WithinSomeComponent(sccs, found[i])
      && cs[i] == found[i] + [found[i][0]]
    ensures forall i :: 0 <= i < |cs| ==>
      && ClosedCycle(g, cs[i])
      && ElementaryCycle(g, cs[i][..|cs[i]| - 1])
      && WithinSomeComponent(sccs, cs[i])
  {
    var shown := VisitAllCycles(g, sccs);
    found := shown;
    cs := [];
    for i := 0 to |shown|
      invariant |cs| == i
      invariant forall j :: 0 <= j < i ==> cs[j] == shown[j] + [shown[j][0]]
    {
      cs := cs + [shown[i] + [shown[i][0]]];
    }
    forall i | 0 <= i < |cs|
      ensures ClosedCycle(g, cs[i]) && ElementaryCycle(g, cs[i][..|cs[i]| - 1]) && WithinSomeComponent(sccs, cs[i])
    {
      CloseCycle(g, shown[i]);
      assert cs[i][..|cs[i]| - 1] == shown[i];
      assert WithinSomeComponent(sccs, shown[i]);
      var k :| 0 <= k < |sccs| && forall x :: x in shown[i] ==> x in sccs[k];
      assert forall x :: x in cs[i] ==> x in shown[i];
      assert forall x :: x in cs[i] ==> x in sccs[k];
    }
  }
}
