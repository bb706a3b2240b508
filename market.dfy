/**
 * The currency graph and the gain engine of the arbitrage scanner (src/main.rs).
 *
 * Currencies are nodes; a trading pair BASE-QUOTE gives an edge base -> quote
 * (selling base at the bid) and an edge quote -> base (buying base at the
 * ask). An edge carries the conversion rate `price` and the amount that can
 * be converted, `size`. Prices and sizes are exact reals here; the program
 * uses f64.
 *
 * The graph is a node list (in index order) and a map from (from, to) to the
 * edge weight, so there is at most one edge per ordered pair of nodes.
 */
module Market {
  import opened Wrappers
  import opened Seqs
  import GraphCycles

  type Currency = string

  /** One entry of the product catalogue (`CoinbasePair`). */
  datatype Pair = Pair(id: string, base: Currency, quote: Currency, status: string)

  /** An edge weight: the rate of conversion along the edge and the amount available. */
  datatype Edge = Edge(price: real, size: real)

  type EdgeMap = map<(Currency, Currency), Edge>

  /** The filter of `fetch_trading_pairs`: the pairs whose status is "online", in catalogue order. */
  function OnlinePairs(pairs: seq<Pair>): (r: seq<Pair>)
    ensures |r| <= |pairs|
    ensures forall p :: p in r <==> p in pairs && p.status == "online"
  {
    if pairs == [] then []
    else (if pairs[0].status == "online" then [pairs[0]] else []) + OnlinePairs(pairs[1..])
  }

  /**
   * The filter keeps the catalogue's order: filtering a catalogue read in two
   * parts gives the two filtered parts one after the other.
   */
  lemma {:induction false} OnlinePairsInOrder(a: seq<Pair>, b: seq<Pair>)
    ensures OnlinePairs(a + b) == OnlinePairs(a) + OnlinePairs(b)
    decreases |a|
  {
    if a == [] {
      assert a + b == b;
    } else {
      var rest := OnlinePairs(a[1..] + b);
      assert (a + b)[1..] == a[1..] + b;
      OnlinePairsInOrder(a[1..], b);
      assert OnlinePairs(a + b) == (if a[0].status == "online" then [a[0]] else []) + rest;
    }
  }

  /** A single pair is kept exactly when it is online; with OnlinePairsInOrder this determines the filter. */
  lemma OnlinePairsSingle(p: Pair)
    ensures OnlinePairs([p]) == if p.status == "online" then [p] else []
  {
    assert [p][1..] == [];
  }

  /** Pairs that can only be viewed, not traded: those with EUR or GBP on either side. */
  predicate ViewOnly(p: Pair) {
    p.base == "EUR" || p.quote == "EUR" || p.base == "GBP" || p.quote == "GBP"
  }

  /** `node_map.entry(x).or_insert_with(add_node)`: a name gets a node the first time it is seen. */
  function AddName(ns: seq<Currency>, x: Currency): seq<Currency> {
    if x in ns then ns else ns + [x]
  }

  /** The node list after the first loop of `main` has read `pairs`. */
  function NodesOf(pairs: seq<Pair>): seq<Currency> {
    if pairs == [] then []
    else
      var ns := NodesOf(pairs[..|pairs| - 1]);
      var p := pairs[|pairs| - 1];
      if ViewOnly(p) then ns else AddName(AddName(ns, p.base), p.quote)
  }

  /** The edges after the second loop of `main` has read `pairs`: both directions of every tradable pair, with zero weights. */
  function EdgesOf(pairs: seq<Pair>): EdgeMap {
    if pairs == [] then map[]
    else
      var m := EdgesOf(pairs[..|pairs| - 1]);
      var p := pairs[|pairs| - 1];
      if ViewOnly(p) then m else m[(p.base, p.quote) := Edge(0.0, 0.0)][(p.quote, p.base) := Edge(0.0, 0.0)]
  }

  /** A name is mentioned by a tradable pair. */
  predicate Traded(pairs: seq<Pair>, x: Currency) {
    exists p :: p in pairs && !ViewOnly(p) && (x == p.base || x == p.quote)
  }

  /** Each currency of a tradable pair becomes exactly one node, and no other name does. */
  lemma {:induction false} NodesOfSpec(pairs: seq<Pair>)
    ensures Distinct(NodesOf(pairs))
    ensures forall x :: x in NodesOf(pairs) <==> Traded(pairs, x)
  {
    if pairs != [] {
      var init := pairs[..|pairs| - 1];
      var p := pairs[|pairs| - 1];
      NodesOfSpec(init);
      assert pairs == init + [p];
      forall x
        ensures x in NodesOf(pairs) <==> Traded(pairs, x)
      {
        if Traded(pairs, x) {
          var q :| q in pairs && !ViewOnly(q) && (x == q.base || x == q.quote);
          if q != p {
            assert q in init;
          }
        }
        if x in NodesOf(init) {
          var q :| q in init && !ViewOnly(q) && (x == q.base || x == q.quote);
          assert q in pairs;
        }
      }
    }
  }

  /** Both directions of every tradable pair are edges, all with price 0 and size 0, and there are no other edges. */
  lemma {:induction false} EdgesOfSpec(pairs: seq<Pair>)
    ensures forall k :: k in EdgesOf(pairs) ==> EdgesOf(pairs)[k] == Edge(0.0, 0.0)
    ensures forall a, c :: (a, c) in EdgesOf(pairs) <==>
      exists p :: p in pairs && !ViewOnly(p) && ((a == p.base && c == p.quote) || (a == p.quote && c == p.base))
  {
    if pairs != [] {
      var init := pairs[..|pairs| - 1];
      var p := pairs[|pairs| - 1];
      EdgesOfSpec(init);
      assert pairs == init + [p];
      forall a, c
        ensures (a, c) in EdgesOf(pairs) <==>
          exists q :: q in pairs && !ViewOnly(q) && ((a == q.base && c == q.quote) || (a == q.quote && c == q.base))
      {
        if (a, c) in EdgesOf(init) {
          var q :| q in init && !ViewOnly(q) && ((a == q.base && c == q.quote) || (a == q.quote && c == q.base));
          assert q in pairs;
        }
        if exists q :: q in pairs && !ViewOnly(q) && ((a == q.base && c == q.quote) || (a == q.quote && c == q.base)) {
          var q :| q in pairs && !ViewOnly(q) && ((a == q.base && c == q.quote) || (a == q.quote && c == q.base));
          if q != p {
            assert q in init;
          }
        }
      }
    }
  }

  /** The tradable pairs, in order. */
  function Tradable(pairs: seq<Pair>): seq<Pair> {
    if pairs == [] then []
    else
      var p := pairs[|pairs| - 1];
      Tradable(pairs[..|pairs| - 1]) + (if ViewOnly(p) then [] else [p])
  }

  /** Pairs with EUR or GBP on either side contribute neither nodes nor edges. */
  lemma {:induction false} ViewOnlyPairsIgnored(pairs: seq<Pair>)
    ensures NodesOf(pairs) == NodesOf(Tradable(pairs))
    ensures EdgesOf(pairs) == EdgesOf(Tradable(pairs))
  {
    if pairs != [] {
      var init := pairs[..|pairs| - 1];
      var p := pairs[|pairs| - 1];
      ViewOnlyPairsIgnored(init);
      if ViewOnly(p) {
        assert Tradable(pairs) == Tradable(init);
      } else {
        var t := Tradable(init) + [p];
        assert Tradable(pairs) == t;
        assert t[..|t| - 1] == Tradable(init);
        assert NodesOf(t) == AddName(AddName(NodesOf(Tradable(init)), p.base), p.quote);
      }
    }
  }

  /** The names in `ns` that are not in `gone`, in order. */
  function KeepOnly(ns: seq<Currency>, gone: set<Currency>): (r: seq<Currency>)
    ensures forall x :: x in r <==> x in ns && x !in gone
    ensures Distinct(ns) ==> Distinct(r)
  {
    if ns == [] then []
    else
      var rest := KeepOnly(ns[1..], gone);
      assert forall x :: x in rest ==> x in ns[1..];
      if ns[0] in gone then rest else [ns[0]] + rest
  }

  lemma {:induction false} KeepOnlyNothing(ns: seq<Currency>)
    ensures KeepOnly(ns, {}) == ns
  {
    if ns != [] {
      KeepOnlyNothing(ns[1..]);
      assert ns == [ns[0]] + ns[1..];
    }
  }

  lemma {:induction false} KeepOnlyMore(ns: seq<Currency>, gone: set<Currency>, x: Currency)
    ensures KeepOnly(KeepOnly(ns, gone), {x}) == KeepOnly(ns, gone + {x})
  {
    if ns != [] {
      KeepOnlyMore(ns[1..], gone, x);
    }
  }

  /** The number of edges leaving `n`. */
  function OutDegree(edges: EdgeMap, n: Currency): nat {
    |set k | k in edges && k.0 == n|
  }

  /** The nodes `main` prunes: those with exactly one outgoing edge. */
  function Doomed(nodes: seq<Currency>, edges: EdgeMap): set<Currency> {
    set x | x in nodes && OutDegree(edges, x) == 1
  }

  /** The edges of `edges` between two nodes of `ns`. */
  function Between(edges: EdgeMap, ns: seq<Currency>): (r: EdgeMap)
    ensures forall k :: k in r <==> k in edges && k.0 in ns && k.1 in ns
    ensures forall k :: k in r ==> r[k] == edges[k]
  {
    map k | k in edges && k.0 in ns && k.1 in ns :: edges[k]
  }

  lemma SuffixFrom(d: seq<Currency>, j: nat)
    requires j < |d|
    ensures forall x :: x in d[j..] <==> x == d[j] || x in d[j + 1..]
  {
    assert d[j..] == [d[j]] + d[j + 1..];
  }

  lemma BetweenFewer(edges: EdgeMap, ns: seq<Currency>, fewer: seq<Currency>)
    requires forall x :: x in fewer ==> x in ns
    ensures Between(Between(edges, ns), fewer) == Between(edges, fewer)
  {
  }

  /** One more removal in the pruning loop keeps its invariant. */
  lemma RemoveOneMore(ns: seq<Currency>, es: EdgeMap, gone: set<Currency>, doomed: seq<Currency>, j: nat)
    requires j < |doomed|
    requires forall x :: x in gone <==> x in doomed[j + 1..]
    ensures forall x :: x in gone + {doomed[j]} <==> x in doomed[j..]
    ensures KeepOnly(KeepOnly(ns, gone), {doomed[j]}) == KeepOnly(ns, gone + {doomed[j]})
    ensures Between(Between(es, KeepOnly(ns, gone)), KeepOnly(ns, gone + {doomed[j]})) == Between(es, KeepOnly(ns, gone + {doomed[j]}))
  {
    SuffixFrom(doomed, j);
    KeepOnlyMore(ns, gone, doomed[j]);
    BetweenFewer(es, KeepOnly(ns, gone), KeepOnly(ns, gone + {doomed[j]}));
  }

  /** Removing exactly the nodes of out-degree 1, with their edges, gives the pruned graph. */
  lemma PruneOutcome(ns: seq<Currency>, es: EdgeMap, gone: set<Currency>)
    requires Distinct(ns)
    requires forall x :: x in gone <==> x in ns && OutDegree(es, x) == 1
    ensures gone == Doomed(ns, es)
    ensures Distinct(KeepOnly(ns, gone))
    ensures forall x :: x in KeepOnly(ns, gone) <==> x in ns && OutDegree(es, x) != 1
    ensures forall k :: k in Between(es, KeepOnly(ns, gone)) ==> k.0 in KeepOnly(ns, gone) && k.1 in KeepOnly(ns, gone)
  {
  }

  /** The currency graph: nodes in index order and at most one edge per ordered pair of nodes. */
  class MarketGraph {
    var nodes: seq<Currency>
    var edges: EdgeMap

    ghost predicate Valid()
      reads this
    {
      Distinct(nodes) && forall k :: k in edges ==> k.0 in nodes && k.1 in nodes
    }

    /** `DiGraph::new`. */
    constructor ()
      ensures Valid() && nodes == [] && edges == map[]
    {
      nodes := [];
      edges := map[];
    }

    /** `add_node`: a new node at the next index. */
    method AddNode(name: Currency) returns (i: nat)
      modifies this
      ensures nodes == old(nodes) + [name] && edges == old(edges)
      ensures i == |old(nodes)| && nodes[i] == name
    {
      i := |nodes|;
      nodes := nodes + [name];
    }

    /**
     * `update_edge` (and `add_edge`, which coincides with it here because
     * parallel edges are not represented): the edge from `from` to `to` now
     * has weight `e`.
     */
    method UpdateEdge(from: Currency, to: Currency, e: Edge)
      modifies this
      ensures edges == old(edges)[(from, to) := e] && nodes == old(nodes)
    {
      edges := edges[(from, to) := e];
    }

    /** `remove_node`: the node goes, and every edge into or out of it. */
    method RemoveNode(name: Currency)
      modifies this
      ensures nodes == KeepOnly(old(nodes), {name})
      ensures edges == Between(old(edges), nodes)
    {
      nodes := KeepOnly(nodes, {name});
      edges := Between(edges, nodes);
    }

    /**
     * The pruning step of `main`: collect the nodes with exactly one outgoing
     * edge, then remove them (last first). Out-degrees are taken once, before
     * any removal; nodes left with one outgoing edge afterwards stay.
     */
    method Prune()
      requires Valid()
      modifies this
      ensures Valid()
      ensures nodes == KeepOnly(old(nodes), Doomed(old(nodes), old(edges)))
      ensures forall x :: x in nodes <==> x in old(nodes) && OutDegree(old(edges), x) != 1
      ensures forall k :: k in edges <==> k in old(edges) && k.0 in nodes && k.1 in nodes
      ensures forall k :: k in edges ==> edges[k] == old(edges)[k]
    {
      ghost var ns0, es0 := nodes, edges;
      var doomed := OneEdgeOut(nodes, edges);
      KeepOnlyNothing(nodes);
      ghost var gone: set<Currency> := {};
      var j := |doomed|;
      while j > 0
        invariant 0 <= j <= |doomed|
        invariant forall x :: x in gone <==> x in doomed[j..]
        invariant nodes == KeepOnly(ns0, gone) && edges == Between(es0, nodes)
      {
        j := j - 1;
        RemoveOneMore(ns0, es0, gone, doomed, j);
        RemoveNode(doomed[j]);
        gone := gone + {doomed[j]};
      }
      PruneOutcome(ns0, es0, gone);
    }

    /**
     * One turn of the read loop of `fetch_exchange_rates` for a decoded frame:
     * update the edges of the entry's pair, then, unless a snapshot was
     * applied, rate every cycle and report the best one when it gains. `Err`
     * is a panic of the program.
     */
    method HandleMessage(msg: Message, cycles: seq<seq<Currency>>) returns (r: Result<Option<GainCycle>, Fault>)
      requires Valid() && NonZeroAsks(msg)
      requires forall c :: c in cycles ==> HopsIn(edges, c)
      modifies this
      ensures nodes == old(nodes) && Valid()
      ensures forall c :: c in cycles ==> HopsIn(edges, c)
      ensures match Receive(old(nodes), old(edges), msg)
        case Err(f) => r == Err(f) && edges == old(edges)
        case Ok(eff) => edges == eff.edges && r == (if eff.evaluate then Evaluate(cycles, eff.edges) else Ok(None))
    {
      ghost var spec := Receive(nodes, edges, msg);
      if msg.Skipped? {
        return Ok(None);
      }
      var names := SplitOnce(msg.productId);
      if names.None? {
        return Err(NoDash(msg.productId));
      }
      var (baseName, quoteName) := names.value;
      var base := FindNodeWithWeight(nodes, baseName);
      if base.None? {
        return Err(UnknownCurrency(baseName));
      }
      var quote := FindNodeWithWeight(nodes, quoteName);
      if quote.None? {
        return Err(UnknownCurrency(quoteName));
      }
      var b, q := nodes[base.value], nodes[quote.value];
      if msg.kind == "snapshot" {
        if msg.book.Some? {
          var book := msg.book.value;
          if |book.asks| == 0 || |book.bids| == 0 {
            return Err(EmptyBook);
          }
          var ask, bid := book.asks[0], book.bids[0];
          UpdateEdge(b, q, Edge(bid.price, bid.size));
          UpdateEdge(q, b, AskEdge(ask.price, ask.size));
          return Ok(None);
        }
      } else if msg.kind == "l2update" {
        if msg.changes.Some? {
          ApplyUpdate(b, q, msg.changes.value);
        }
      }
      assert spec.Ok? && edges == spec.value.edges;
      var rated := RateCycles(cycles, edges);
      var now := edges;
      assert rated == seq(|cycles|, i requires 0 <= i < |cycles| => Assess(now, cycles[i]));
      if |rated| == 0 {
        return Err(NoCycles);
      }
      var best := BestDeal(rated);
      if rated[best].gain > 1.0 {
        r := Ok(Some(rated[best]));
      } else {
        r := Ok(None);
      }
    }

    /** The loop over the changes of an "l2update". */
    method ApplyUpdate(base: Currency, quote: Currency, cs: seq<Change>)
      requires NonZeroSells(cs)
      modifies this
      ensures nodes == old(nodes)
      ensures edges == ApplyChanges(old(edges), base, quote, cs)
    {
      for i := 0 to |cs|
        invariant nodes == old(nodes)
        invariant edges == ApplyChanges(old(edges), base, quote, cs[..i])
      {
        var change := cs[i];
        ghost var upto := cs[..i + 1];
        assert upto[..i] == cs[..i] && upto[i] == change;
        if change.side == "buy" {
          UpdateEdge(base, quote, Edge(change.price, change.size));
        } else if change.side == "sell" {
          UpdateEdge(quote, base, AskEdge(change.price, change.size));
        }
        ChangeStep(old(edges), base, quote, upto);
      }
      assert cs[..|cs|] == cs;
    }

    /**
     * `graph.cycles()` as `fetch_exchange_rates` uses it: the elementary
     * cycles of 3 to 5 currencies in the given components, each closed with
     * its first currency again, written as currency names. `closed` is the
     * result of GraphCycles.Cycles on the node indices.
     */
    method Cycles(sccs: seq<seq<nat>>) returns (cycles: seq<seq<Currency>>, ghost closed: seq<seq<nat>>)
      requires forall k :: 0 <= k < |sccs| ==> GraphCycles.IsComponent(Adjacency(nodes, edges), sccs[k])
      ensures |cycles| == |closed|
      ensures forall i :: 0 <= i < |closed| ==>
        && GraphCycles.ClosedCycle(Adjacency(nodes, edges), closed[i])
        && cycles[i] == Names(nodes, closed[i])
      ensures forall c :: c in cycles ==> CycleOver(nodes, edges, c)
    {
      ghost var shown;
      var found;
      found, shown := GraphCycles.Cycles(Adjacency(nodes, edges), sccs);
      closed := found;
      NamedCyclesOver(nodes, edges, found);
      cycles := NamedCycles(nodes, found);
    }

    /**
     * `fetch_exchange_rates` over a finite run of decoded frames: list the
     * cycles once, pick the pairs to watch, then handle frame after frame
     * until one would panic. Returns the watched pairs, every report the
     * program prints, and the panic that ends the run, if any.
     */
    method FetchExchangeRates(pairs: seq<Pair>, sccs: seq<seq<nat>>, frames: seq<Message>)
      returns (watched: seq<Pair>, reports: seq<GainCycle>, fault: Option<Fault>, ghost cycles: seq<seq<Currency>>)
      requires Valid()
      requires forall k :: 0 <= k < |sccs| ==> GraphCycles.IsComponent(Adjacency(nodes, edges), sccs[k])
      requires forall i :: 0 <= i < |frames| ==> NonZeroAsks(frames[i])
      modifies this
      ensures Valid() && nodes == old(nodes)
      ensures watched == WatchedPairs(pairs, nodes)
      ensures forall c :: c in cycles ==> CycleOver(nodes, old(edges), c) && HopsIn(old(edges), c)
      ensures Replay(nodes, old(edges), cycles, frames) == Run(edges, reports, fault)
      ensures forall g :: g in reports ==> g.gain > 1.0 && CycleOver(nodes, edges, g.cycle)
    {
      var listed;
      ghost var closed;
      listed, closed := Cycles(sccs);
      cycles := listed;
      watched := WatchedPairs(pairs, nodes);
      reports, fault := ReadLoop(listed, frames);
      forall g | g in reports
        ensures g.gain > 1.0 && CycleOver(nodes, edges, g.cycle)
      {
        var j :| 0 <= j < |reports| && reports[j] == g;
      }
    }

    /**
     * The `loop` of `fetch_exchange_rates` over a finite run of decoded
     * frames: handle frame after frame until one would panic.
     */
    method ReadLoop(cycles: seq<seq<Currency>>, frames: seq<Message>) returns (reports: seq<GainCycle>, fault: Option<Fault>)
      requires Valid()
      requires forall c :: c in cycles ==> HopsIn(edges, c)
      requires forall i :: 0 <= i < |frames| ==> NonZeroAsks(frames[i])
      modifies this
      ensures Valid() && nodes == old(nodes)
      ensures Replay(nodes, old(edges), cycles, frames) == Run(edges, reports, fault)
      ensures forall g :: g in reports ==> g.cycle in cycles
    {
      reports, fault := [], None;
      for i := 0 to |frames|
        invariant Valid() && nodes == old(nodes)
        invariant forall c :: c in cycles ==> HopsIn(edges, c)
        invariant forall g :: g in reports ==> g.cycle in cycles
        invariant Replay(nodes, old(edges), cycles, frames) == After(reports, Replay(nodes, edges, cycles, frames[i..]))
      {
        ghost var e0 := edges;
        var r := HandleMessage(frames[i], cycles);
        HandledIsTurn(nodes, e0, edges, cycles, frames[i], r);
        ReadStep(nodes, old(edges), e0, edges, cycles, frames, i, reports, r);
        match r
        case Err(f) =>
          fault := Some(f);
          return;
        case Ok(report) =>
          reports := reports + if report.Some? then [report.value] else [];
      }
      assert frames[|frames|..] == [];
    }
  }

  /** The collection step of the pruning: the nodes with exactly one outgoing edge, in node order. */
  method OneEdgeOut(ns: seq<Currency>, es: EdgeMap) returns (doomed: seq<Currency>)
    ensures forall x :: x in doomed <==> x in ns && OutDegree(es, x) == 1
  {
    doomed := [];
    for i := 0 to |ns|
      invariant forall x :: x in doomed <==> x in ns[..i] && OutDegree(es, x) == 1
    {
      assert ns[..i + 1] == ns[..i] + [ns[i]];
      if OutDegree(es, ns[i]) == 1 {
        doomed := doomed + [ns[i]];
      }
    }
    assert ns[..|ns|] == ns;
  }

  /** The two loops of `main` that build the graph from the catalogue, with `node_map` from names to node indices. */
  method BuildGraph(pairs: seq<Pair>) returns (g: MarketGraph)
    ensures fresh(g) && g.Valid()
    ensures g.nodes == NodesOf(pairs) && g.edges == EdgesOf(pairs)
  {
    g := new MarketGraph();
    var nodeMap: map<Currency, nat> := map[];
    for i := 0 to |pairs|
      invariant g.nodes == NodesOf(pairs[..i]) && g.edges == map[]
      invariant forall x :: x in nodeMap <==> x in g.nodes
      invariant forall x :: x in nodeMap ==> nodeMap[x] < |g.nodes| && g.nodes[nodeMap[x]] == x
    {
      var p := pairs[i];
      assert pairs[..i + 1][..i] == pairs[..i];
      if ViewOnly(p) {
        continue;
      }
      if p.base !in nodeMap {
        var n := g.AddNode(p.base);
        nodeMap := nodeMap[p.base := n];
      }
      if p.quote !in nodeMap {
        var n := g.AddNode(p.quote);
        nodeMap := nodeMap[p.quote := n];
      }
    }
    assert pairs[..|pairs|] == pairs;
    NodesOfSpec(pairs);
    for i := 0 to |pairs|
      invariant g.nodes == NodesOf(pairs) && g.edges == EdgesOf(pairs[..i])
    {
      var p := pairs[i];
      assert pairs[..i + 1][..i] == pairs[..i];
      if ViewOnly(p) {
        continue;
      }
      assert Traded(pairs, p.base) && Traded(pairs, p.quote);
      var base := nodeMap[p.base];
      var quote := nodeMap[p.quote];
      g.UpdateEdge(g.nodes[base], g.nodes[quote], Edge(0.0, 0.0));
      g.UpdateEdge(g.nodes[quote], g.nodes[base], Edge(0.0, 0.0));
    }
    assert pairs[..|pairs|] == pairs;
    EdgesOfSpec(pairs);
  }

  /** A price level of the order book: price and size, as parsed from the feed's decimal strings. */
  datatype Level = Level(price: real, size: real)

  /** The body of a "snapshot" entry (`TickerSnapshot`). */
  datatype Book = Book(bids: seq<Level>, asks: seq<Level>)

  /** One entry of an "l2update" (`TickerUpdate`): side, price, size. */
  datatype Change = Change(side: string, price: real, size: real)

  /**
   * One frame of the feed, already decoded. `Skipped` is a frame that is not
   * text, or text that is not a ticker entry. For a ticker entry, `book` and
   * `changes` are the decodings of the same text as a snapshot and as an
   * update, `None` where that decoding fails.
   */
  datatype Message =
    | Skipped
    | Ticker(productId: string, kind: string, book: Option<Book>, changes: Option<seq<Change>>)

  /** Why the loop of `fetch_exchange_rates` panics. */
  datatype Fault =
    | NoDash(productId: string)          // `split_once("-")` found no dash
    | UnknownCurrency(name: Currency)    // `find_node_with_weight` found no node
    | EmptyBook                          // `asks[0]` or `bids[0]` of an empty side
    | NoCycles                           // `max_by` over no cycles

  /** `split_once("-")`: the text before and after the first dash. */
  function SplitOnce(s: string): (r: Option<(string, string)>)
    ensures r.None? <==> '-' !in s
    ensures r.Some? ==> r.value.0 + "-" + r.value.1 == s && '-' !in r.value.0
  {
    match Position(s, '-')
    case None => None
    case Some(i) =>
      assert s == s[..i] + "-" + s[i + 1..];
      Some((s[..i], s[i + 1..]))
  }

  /** `find_node_with_weight`: the index of the first node carrying `name`. */
  function FindNodeWithWeight(nodes: seq<Currency>, name: Currency): (r: Option<nat>)
    ensures r.Some? ==> r.value < |nodes| && nodes[r.value] == name && name !in nodes[..r.value]
    ensures r.None? <==> name !in nodes
  {
    Position(nodes, name)
  }

  /** `node_with_weight`: some node carries `name`. */
  function NodeWithWeight(nodes: seq<Currency>, name: Currency): (r: bool)
    ensures r <==> name in nodes
  {
    FindNodeWithWeight(nodes, name).Some?
  }

  /** The filter at the start of `fetch_exchange_rates`: the pairs both of whose currencies are still nodes. */
  function WatchedPairs(pairs: seq<Pair>, nodes: seq<Currency>): (r: seq<Pair>)
    ensures |r| <= |pairs|
    ensures forall p :: p in r <==> p in pairs && p.base in nodes && p.quote in nodes
  {
    if pairs == [] then []
    else
      var p := pairs[0];
      (if NodeWithWeight(nodes, p.base) && NodeWithWeight(nodes, p.quote) then [p] else []) + WatchedPairs(pairs[1..], nodes)
  }

  /** The prices the program divides by: the best ask of a snapshot and every "sell" change. */
  predicate NonZeroAsks(msg: Message) {
    msg.Ticker? ==>
      (msg.book.Some? && |msg.book.value.asks| > 0 ==> msg.book.value.asks[0].price != 0.0) &&
      (msg.changes.Some? ==> NonZeroSells(msg.changes.value))
  }

  predicate NonZeroSells(cs: seq<Change>) {
    forall i :: 0 <= i < |cs| && cs[i].side == "sell" ==> cs[i].price != 0.0
  }

  /** The edge quote -> base an ask gives: one unit of quote buys 1/price of base, and size units of base cost size * price of quote. */
  function AskEdge(price: real, size: real): (e: Edge)
    requires price != 0.0
    ensures e.price * price == 1.0 && e.size == size * price
  {
    Edge(1.0 / price, size * price)
  }

  /**
   * What a snapshot does to the edges: base -> quote gets the best bid and
   * its size; quote -> base gets the inverse of the best ask and the ask's
   * size in quote currency.
   */
  function SnapshotEdges(edges: EdgeMap, base: Currency, quote: Currency, book: Book): (r: Result<EdgeMap, Fault>)
    requires |book.asks| > 0 ==> book.asks[0].price != 0.0
    ensures r.Err? <==> |book.asks| == 0 || |book.bids| == 0
    ensures r.Err? ==> r.error == EmptyBook
    ensures r.Ok? ==> (quote, base) in r.value
    ensures r.Ok? ==> r.value[(quote, base)] == AskEdge(book.asks[0].price, book.asks[0].size)
    ensures r.Ok? ==> (base, quote) in r.value
    ensures r.Ok? && base != quote ==> r.value[(base, quote)] == Edge(book.bids[0].price, book.bids[0].size)
    ensures r.Ok? ==> forall k :: k != (base, quote) && k != (quote, base) ==>
      (k in r.value <==> k in edges) && (k in edges ==> r.value[k] == edges[k])
  {
    if |book.asks| == 0 || |book.bids| == 0 then Err(EmptyBook)
    else
      var ask := book.asks[0];
      var bid := book.bids[0];
      Ok(edges[(base, quote) := Edge(bid.price, bid.size)][(quote, base) := AskEdge(ask.price, ask.size)])
  }

  /** The edge a change writes, if any: a "buy" sets base -> quote, a "sell" sets quote -> base; other sides write nothing. */
  function Written(base: Currency, quote: Currency, c: Change): Option<((Currency, Currency), Edge)>
    requires c.side == "sell" ==> c.price != 0.0
  {
    if c.side == "buy" then Some(((base, quote), Edge(c.price, c.size)))
    else if c.side == "sell" then Some(((quote, base), AskEdge(c.price, c.size)))
    else None
  }

  /** The edges after the changes of an "l2update" are applied in order. */
  function ApplyChanges(edges: EdgeMap, base: Currency, quote: Currency, cs: seq<Change>): EdgeMap
    requires NonZeroSells(cs)
  {
    if cs == [] then edges
    else
      var e := ApplyChanges(edges, base, quote, cs[..|cs| - 1]);
      match Written(base, quote, cs[|cs| - 1])
      case None => e
      case Some(w) => e[w.0 := w.1]
  }

  /** Applying one more change: the edge it writes, if any, takes its weight. */
  lemma ChangeStep(edges: EdgeMap, base: Currency, quote: Currency, cs: seq<Change>)
    requires NonZeroSells(cs) && cs != []
    ensures var before := ApplyChanges(edges, base, quote, cs[..|cs| - 1]);
      var c := cs[|cs| - 1];
      ApplyChanges(edges, base, quote, cs) ==
        if c.side == "buy" then before[(base, quote) := Edge(c.price, c.size)]
        else if c.side == "sell" then before[(quote, base) := AskEdge(c.price, c.size)]
        else before
  {
    var c := cs[|cs| - 1];
    assert NonZeroSells(cs[..|cs| - 1]);
    if c.side == "buy" {
      assert Written(base, quote, c) == Some(((base, quote), Edge(c.price, c.size)));
    }
  }

  /** The weight the last change writing edge `k` gave it. */
  function LastWrite(base: Currency, quote: Currency, cs: seq<Change>, k: (Currency, Currency)): Option<Edge>
    requires NonZeroSells(cs)
  {
    if cs == [] then None
    else match Written(base, quote, cs[|cs| - 1])
      case Some(w) =>
        if w.0 == k then Some(w.1) else LastWrite(base, quote, cs[..|cs| - 1], k)
      case None => LastWrite(base, quote, cs[..|cs| - 1], k)
  }

  /** After an update, each edge holds what the last change to write it wrote, or else what it held before. */
  lemma {:induction false} ApplyChangesLastWrite(edges: EdgeMap, base: Currency, quote: Currency, cs: seq<Change>)
    requires NonZeroSells(cs)
    ensures forall k :: k in ApplyChanges(edges, base, quote, cs) <==> k in edges || LastWrite(base, quote, cs, k).Some?
    ensures forall k :: k in ApplyChanges(edges, base, quote, cs) ==>
      ApplyChanges(edges, base, quote, cs)[k] ==
        (if LastWrite(base, quote, cs, k).Some? then LastWrite(base, quote, cs, k).value else edges[k])
  {
    if cs != [] {
      ApplyChangesLastWrite(edges, base, quote, cs[..|cs| - 1]);
    }
  }

  /** A change writes only base -> quote or quote -> base. */
  lemma {:induction false} LastWriteOnPair(base: Currency, quote: Currency, cs: seq<Change>, k: (Currency, Currency))
    requires NonZeroSells(cs)
    requires k != (base, quote) && k != (quote, base)
    ensures LastWrite(base, quote, cs, k).None?
  {
    if cs != [] {
      LastWriteOnPair(base, quote, cs[..|cs| - 1], k);
    }
  }

  /** An update leaves every edge other than the two of its pair as it was. */
  lemma ApplyChangesFrame(edges: EdgeMap, base: Currency, quote: Currency, cs: seq<Change>)
    requires NonZeroSells(cs)
    ensures forall k :: k != (base, quote) && k != (quote, base) ==>
      (k in ApplyChanges(edges, base, quote, cs) <==> k in edges) &&
      (k in edges ==> ApplyChanges(edges, base, quote, cs)[k] == edges[k])
  {
    ApplyChangesLastWrite(edges, base, quote, cs);
    forall k | k != (base, quote) && k != (quote, base) {
      LastWriteOnPair(base, quote, cs, k);
    }
  }

  /** Applying the same update twice gives what applying it once gives. */
  lemma ApplyChangesIdempotent(edges: EdgeMap, base: Currency, quote: Currency, cs: seq<Change>)
    requires NonZeroSells(cs)
    ensures ApplyChanges(ApplyChanges(edges, base, quote, cs), base, quote, cs) == ApplyChanges(edges, base, quote, cs)
  {
    var once := ApplyChanges(edges, base, quote, cs);
    ApplyChangesLastWrite(edges, base, quote, cs);
    ApplyChangesLastWrite(once, base, quote, cs);
  }

  /** What one ticker entry does: the edges afterwards, and whether the cycles are then evaluated. */
  datatype Effect = Effect(edges: EdgeMap, evaluate: bool)

  /** Every hop of the walk `c` is an edge. */
  predicate HopsIn(edges: EdgeMap, c: seq<Currency>) {
    forall i :: 0 <= i < |c| - 1 ==> (c[i], c[i + 1]) in edges
  }

  /**
   * The edge updates of one turn of the loop in `fetch_exchange_rates`. A
   * snapshot that decodes updates the edges and skips the evaluation
   * (`continue`); every other ticker entry is followed by an evaluation.
   */
  function Receive(nodes: seq<Currency>, edges: EdgeMap, msg: Message): (r: Result<Effect, Fault>)
    requires NonZeroAsks(msg)
    ensures msg.Skipped? ==> r == Ok(Effect(edges, false))
    ensures msg.Ticker? && SplitOnce(msg.productId).None? ==> r == Err(NoDash(msg.productId))
    ensures r.Ok? && msg.Ticker? ==>
      && SplitOnce(msg.productId).Some?
      && SplitOnce(msg.productId).value.0 in nodes
      && SplitOnce(msg.productId).value.1 in nodes
    ensures r.Ok? ==> forall k :: k in edges ==> k in r.value.edges
    ensures r.Ok? ==> forall k :: k in r.value.edges ==> k in edges || (k.0 in nodes && k.1 in nodes)
    ensures r.Ok? ==> forall c :: HopsIn(edges, c) ==> HopsIn(r.value.edges, c)
  {
    match msg
    case Skipped => Ok(Effect(edges, false))
    case Ticker(id, kind, book, changes) =>
      match SplitOnce(id)
      case None => Err(NoDash(id))
      case Some(names) =>
        var (base, quote) := names;
        if FindNodeWithWeight(nodes, base).None? then Err(UnknownCurrency(base))
        else if FindNodeWithWeight(nodes, quote).None? then Err(UnknownCurrency(quote))
        else if kind == "snapshot" && book.Some? then
          match SnapshotEdges(edges, base, quote, book.value)
          case Err(f) => Err(f)
          case Ok(e) => Ok(Effect(e, false))
        else if kind == "l2update" && changes.Some? then
          ApplyChangesFrame(edges, base, quote, changes.value);
          ApplyChangesLastWrite(edges, base, quote, changes.value);
          Ok(Effect(ApplyChanges(edges, base, quote, changes.value), true))
        else Ok(Effect(edges, true))
  }

  /** The fraction of a trade kept after the taker fee of 1.2%. */
  const Keep: real := 1.0 - 1.2 / 100.0

  /** An amount of an edge's source currency, converted along the edge after the fee. */
  function Convert(amount: real, e: Edge): real {
    amount * e.price * Keep
  }

  /** The size bound of a walk: `Unbounded` stands for the `f64::MAX` the walk starts from. */
  datatype Size = Unbounded | Finite(amount: real)

  /** `f64::min` of the size so far and an edge's size. */
  function MinSize(s: Size, x: real): real {
    match s
    case Unbounded => x
    case Finite(a) => if a <= x then a else x
  }

  /** The number of hops of a walk, that is, of its `array_windows` of width 2. */
  function Hops(c: seq<Currency>): nat {
    if |c| == 0 then 0 else |c| - 1
  }

  /** What one unit converts to along hops i..n-1 of `c`, after fees. */
  function Rate(edges: EdgeMap, c: seq<Currency>, i: nat, n: nat): real
    requires HopsIn(edges, c) && i <= n <= Hops(c)
    decreases n
  {
    if n == i then 1.0
    else Rate(edges, c, i, n - 1) * (edges[(c[n - 1], c[n])].price * Keep)
  }

  /** The amount that can be carried along the first n hops of `c`, bounded by every hop's size. */
  function SizeAlong(edges: EdgeMap, c: seq<Currency>, n: nat): Size
    requires HopsIn(edges, c) && n <= Hops(c)
  {
    if n == 0 then Unbounded
    else
      var e := edges[(c[n - 1], c[n])];
      Finite(Convert(MinSize(SizeAlong(edges, c, n - 1), e.size), e))
  }

  /** `calculate_gain`: the gain and the size of a walk. */
  method CalculateGain(c: seq<Currency>, edges: EdgeMap) returns (gain: real, size: Size)
    requires HopsIn(edges, c)
    ensures gain == Rate(edges, c, 0, Hops(c))
    ensures size == SizeAlong(edges, c, Hops(c))
  {
    gain, size := 1.0, Unbounded;
    for i := 0 to Hops(c)
      invariant gain == Rate(edges, c, 0, i)
      invariant size == SizeAlong(edges, c, i)
    {
      var e := edges[(c[i], c[i + 1])];
      gain := gain * (e.price * Keep);
      size := Finite(MinSize(size, e.size) * e.price * Keep);
    }
  }

  function Pow(x: real, n: nat): real {
    if n == 0 then 1.0 else Pow(x, n - 1) * x
  }

  /** The product of the prices along hops i..n-1, fees left out. */
  function PriceProduct(edges: EdgeMap, c: seq<Currency>, i: nat, n: nat): real
    requires HopsIn(edges, c) && i <= n <= Hops(c)
    decreases n
  {
    if n == i then 1.0 else PriceProduct(edges, c, i, n - 1) * edges[(c[n - 1], c[n])].price
  }

  /** The fee is paid once per hop: the gain is the product of the prices times 0.988 to the number of hops. */
  lemma {:induction false} RateFactors(edges: EdgeMap, c: seq<Currency>, i: nat, n: nat)
    requires HopsIn(edges, c) && i <= n <= Hops(c)
    ensures Rate(edges, c, i, n) == Pow(Keep, n - i) * PriceProduct(edges, c, i, n)
    decreases n
  {
    if n > i {
      RateFactors(edges, c, i, n - 1);
      var p := edges[(c[n - 1], c[n])].price;
      var a := Pow(Keep, n - 1 - i);
      var b := PriceProduct(edges, c, i, n - 1);
      assert Rate(edges, c, i, n) == (a * b) * (p * Keep);
      assert (a * b) * (p * Keep) == (a * Keep) * (b * p);
    }
  }

  /** No prices or sizes below zero along the first n hops. */
  predicate NonNegative(edges: EdgeMap, c: seq<Currency>, n: nat)
    requires HopsIn(edges, c) && n <= Hops(c)
  {
    forall j :: 0 <= j < n ==> edges[(c[j], c[j + 1])].price >= 0.0 && edges[(c[j], c[j + 1])].size >= 0.0
  }

  /**
   * The size is the bottleneck of the walk: after at least one hop it is a
   * finite amount, not negative, and no more than any hop's size converted
   * along the rest of the walk.
   */
  lemma SizeIsBottleneck(edges: EdgeMap, c: seq<Currency>, n: nat)
    requires HopsIn(edges, c) && 0 < n <= Hops(c) && NonNegative(edges, c, n)
    ensures SizeAlong(edges, c, n).Finite?
    ensures SizeAlong(edges, c, n).amount >= 0.0
    ensures forall j :: 0 <= j < n ==> SizeAlong(edges, c, n).amount <= edges[(c[j], c[j + 1])].size * Rate(edges, c, j, n)
  {
    forall j | 0 <= j < n
      ensures SizeAlong(edges, c, n).amount <= edges[(c[j], c[j + 1])].size * Rate(edges, c, j, n)
    {
      BottleneckAt(edges, c, n, j);
      CarriedIsSizeTimesRate(edges, c, j, n);
      var carried := Carried(edges, c, j, n);
      assert SizeAlong(edges, c, n).amount <= carried;
      assert carried == edges[(c[j], c[j + 1])].size * Rate(edges, c, j, n);
    }
    BottleneckAt(edges, c, n, 0);
  }

  /** Hop j's size, converted along hops j..n-1 after fees. */
  function Carried(edges: EdgeMap, c: seq<Currency>, j: nat, n: nat): real
    requires HopsIn(edges, c) && j < n <= Hops(c)
    decreases n
  {
    var e := edges[(c[n - 1], c[n])];
    Convert(if n == j + 1 then edges[(c[j], c[j + 1])].size else Carried(edges, c, j, n - 1), e)
  }

  lemma {:induction false} CarriedIsSizeTimesRate(edges: EdgeMap, c: seq<Currency>, j: nat, n: nat)
    requires HopsIn(edges, c) && j < n <= Hops(c)
    ensures Carried(edges, c, j, n) == edges[(c[j], c[j + 1])].size * Rate(edges, c, j, n)
    decreases n
  {
    var e := edges[(c[n - 1], c[n])];
    var f := e.price * Keep;
    var s := edges[(c[j], c[j + 1])].size;
    if n == j + 1 {
      MulAssoc(s, e.price, Keep);
      assert Rate(edges, c, j, n) == 1.0 * f;
    } else {
      var before := Carried(edges, c, j, n - 1);
      CarriedIsSizeTimesRate(edges, c, j, n - 1);
      MulAssoc(before, e.price, Keep);
      MulAssoc(s, Rate(edges, c, j, n - 1), f);
    }
  }

  /** The bottleneck bound for one hop j. */
  lemma {:induction false} BottleneckAt(edges: EdgeMap, c: seq<Currency>, n: nat, j: nat)
    requires HopsIn(edges, c) && j < n <= Hops(c) && NonNegative(edges, c, n)
    ensures SizeAlong(edges, c, n).Finite? && SizeAlong(edges, c, n).amount >= 0.0
    ensures SizeAlong(edges, c, n).amount <= Carried(edges, c, j, n)
    decreases n
  {
    var e := edges[(c[n - 1], c[n])];
    var prev := SizeAlong(edges, c, n - 1);
    var m := MinSize(prev, e.size);
    if n > 1 {
      BottleneckAt(edges, c, n - 1, 0);
    }
    assert 0.0 <= m <= e.size;
    if j < n - 1 {
      BottleneckAt(edges, c, n - 1, j);
      ConvertMonotone(m, Carried(edges, c, j, n - 1), e);
    } else {
      ConvertMonotone(m, e.size, e);
    }
  }

  /** Converting along an edge with a price not below zero keeps amounts in order and not below zero. */
  lemma ConvertMonotone(a: real, b: real, e: Edge)
    requires 0.0 <= a <= b && e.price >= 0.0
    ensures 0.0 <= Convert(a, e) <= Convert(b, e)
  {
    MulMonotone(0.0, a, e.price);
    MulMonotone(a, b, e.price);
    MulMonotone(0.0, a * e.price, Keep);
    MulMonotone(a * e.price, b * e.price, Keep);
  }

  lemma MulAssoc(a: real, b: real, f: real)
    ensures (a * b) * f == a * (b * f)
  {
  }

  lemma MulMonotone(a: real, b: real, f: real)
    requires a <= b && f >= 0.0
    ensures a * f <= b * f
  {
  }

  /**
   * A triangle whose prices multiply to exactly 1 loses the fee three times:
   * its gain is 0.988 cubed, below 1, and the amount that gets round is
   * limited by the last hop's size of 1.
   */
  lemma BreakEvenTriangle()
    ensures var edges := map[("A", "B") := Edge(2.0, 10.0), ("B", "C") := Edge(0.5, 100.0), ("C", "A") := Edge(1.0, 1.0)];
      var c := ["A", "B", "C", "A"];
      HopsIn(edges, c) && Rate(edges, c, 0, 3) == 0.964430272 && SizeAlong(edges, c, 3) == Finite(0.988)
  {
    var edges := map[("A", "B") := Edge(2.0, 10.0), ("B", "C") := Edge(0.5, 100.0), ("C", "A") := Edge(1.0, 1.0)];
    var c := ["A", "B", "C", "A"];
    assert HopsIn(edges, c);
    assert SizeAlong(edges, c, 1) == Finite(10.0 * 2.0 * Keep);
    assert SizeAlong(edges, c, 2) == Finite(20.0 * Keep * 0.5 * Keep);
    assert SizeAlong(edges, c, 3) == Finite(1.0 * 1.0 * Keep);
  }

  /** A cycle with its gain and size (`GainCycle`). */
  datatype GainCycle = GainCycle(gain: real, size: Size, cycle: seq<Currency>)

  /** `calculate_gain` of one cycle, as a value. */
  function Assess(edges: EdgeMap, c: seq<Currency>): GainCycle
    requires HopsIn(edges, c)
  {
    GainCycle(Rate(edges, c, 0, Hops(c)), SizeAlong(edges, c, Hops(c)), c)
  }

  /** `partial_cmp` of two (gain, size) pairs answers `Greater`: larger gain, or equal gain and larger size. */
  predicate Above(a: GainCycle, b: GainCycle) {
    a.gain > b.gain || (a.gain == b.gain && SizeAbove(a.size, b.size))
  }

  predicate SizeAbove(x: Size, y: Size) {
    (x.Unbounded? && y.Finite?) || (x.Finite? && y.Finite? && x.amount > y.amount)
  }

  /** The index `max_by` picks: it keeps the candidate so far only when it is strictly above the next one, so the last of equals wins. */
  function LastMax(gs: seq<GainCycle>): (m: nat)
    requires |gs| > 0
    ensures m < |gs|
  {
    if |gs| == 1 then 0
    else
      var m := LastMax(gs[..|gs| - 1]);
      if Above(gs[m], gs[|gs| - 1]) then m else |gs| - 1
  }

  /** What `max_by` picks is the greatest, and strictly above every cycle after it. */
  lemma {:induction false} LastMaxIsGreatest(gs: seq<GainCycle>)
    requires |gs| > 0
    ensures forall j :: 0 <= j < |gs| ==> !Above(gs[j], gs[LastMax(gs)])
    ensures forall j :: LastMax(gs) < j < |gs| ==> Above(gs[LastMax(gs)], gs[j])
  {
    if |gs| > 1 {
      var init := gs[..|gs| - 1];
      LastMaxIsGreatest(init);
      var m := LastMax(init);
      assert forall j :: 0 <= j < |init| ==> init[j] == gs[j];
    }
  }

  /** `max_by` over the cycles' gains, as a loop. */
  method BestDeal(gs: seq<GainCycle>) returns (best: nat)
    requires |gs| > 0
    ensures best == LastMax(gs)
  {
    best := 0;
    for i := 1 to |gs|
      invariant best == LastMax(gs[..i])
    {
      assert gs[..i + 1][..i] == gs[..i];
      if !Above(gs[best], gs[i]) {
        best := i;
      }
    }
    assert gs[..|gs|] == gs;
  }

  /**
   * The evaluation after an update: rate every cycle, pick the best with
   * `max_by`, report it when its gain is above 1. No cycles at all is a panic.
   */
  function Evaluate(cycles: seq<seq<Currency>>, edges: EdgeMap): (r: Result<Option<GainCycle>, Fault>)
    requires forall c :: c in cycles ==> HopsIn(edges, c)
    ensures r.Err? <==> cycles == []
    ensures r.Err? ==> r.error == NoCycles
    ensures r.Ok? ==> (r.value.None? <==> forall i :: 0 <= i < |cycles| ==> Assess(edges, cycles[i]).gain <= 1.0)
    ensures r.Ok? && r.value.Some? ==>
      && r.value.value.gain > 1.0
      && (exists i :: 0 <= i < |cycles| && r.value.value == Assess(edges, cycles[i]))
      && forall i :: 0 <= i < |cycles| ==> !Above(Assess(edges, cycles[i]), r.value.value)
  {
    if cycles == [] then Err(NoCycles)
    else
      var gs := seq(|cycles|, i requires 0 <= i < |cycles| => Assess(edges, cycles[i]));
      assert forall i :: 0 <= i < |cycles| ==> gs[i] == Assess(edges, cycles[i]);
      var m := LastMax(gs);
      LastMaxIsGreatest(gs);
      assert forall i :: 0 <= i < |gs| ==> gs[i].gain <= gs[m].gain;
      if gs[m].gain > 1.0 then Ok(Some(gs[m])) else Ok(None)
  }

  /** One turn of the read loop: the edges after the frame, the report printed, and the panic that ends the run, if any. */
  datatype Turn = Turn(edges: EdgeMap, report: Option<GainCycle>, fault: Option<Fault>)

  /**
   * One frame: `Receive` updates the edges; unless the frame was a snapshot
   * that was applied, `Evaluate` follows and its report, if any, is printed.
   */
  function TurnOf(nodes: seq<Currency>, edges: EdgeMap, cycles: seq<seq<Currency>>, msg: Message): (t: Turn)
    requires forall c :: c in cycles ==> HopsIn(edges, c)
    requires NonZeroAsks(msg)
    ensures forall c :: c in cycles ==> HopsIn(t.edges, c)
    ensures t.report.Some? ==> t.fault.None? && t.report.value.gain > 1.0 && t.report.value.cycle in cycles
    ensures msg.Skipped? ==> t == Turn(edges, None, None)
    ensures msg.Ticker? && msg.kind != "snapshot" && cycles == [] ==> t.fault.Some?
  {
    match Receive(nodes, edges, msg)
    case Err(f) => Turn(edges, None, Some(f))
    case Ok(eff) =>
      if !eff.evaluate then Turn(eff.edges, None, None)
      else match Evaluate(cycles, eff.edges)
        case Err(f) => Turn(eff.edges, None, Some(f))
        case Ok(report) => Turn(eff.edges, report, None)
  }

  /** What a run of the read loop leaves: the edges, the reports printed in order, and the panic that ended it, if any. */
  datatype Run = Run(edges: EdgeMap, reports: seq<GainCycle>, fault: Option<Fault>)

  /** The read loop of `fetch_exchange_rates` over decoded frames, one turn per frame, up to the first panic. */
  function Replay(nodes: seq<Currency>, edges: EdgeMap, cycles: seq<seq<Currency>>, frames: seq<Message>): (r: Run)
    requires forall c :: c in cycles ==> HopsIn(edges, c)
    requires forall i :: 0 <= i < |frames| ==> NonZeroAsks(frames[i])
    ensures |r.reports| <= |frames|
    ensures forall j :: 0 <= j < |r.reports| ==> r.reports[j].gain > 1.0
    ensures forall c :: c in cycles ==> HopsIn(r.edges, c)
    ensures (forall i :: 0 <= i < |frames| ==> frames[i].Skipped?) ==> r == Run(edges, [], None)
    decreases |frames|
  {
    if frames == [] then Run(edges, [], None)
    else
      var t := TurnOf(nodes, edges, cycles, frames[0]);
      if t.fault.Some? then Run(t.edges, [], t.fault)
      else
        var rest := Replay(nodes, t.edges, cycles, frames[1..]);
        assert forall j :: 0 <= j < |rest.reports| ==> rest.reports[j].gain > 1.0;
        Run(rest.edges, (if t.report.Some? then [t.report.value] else []) + rest.reports, rest.fault)
  }

  /** `run` preceded by the reports already printed. */
  function After(printed: seq<GainCycle>, run: Run): Run {
    Run(run.edges, printed + run.reports, run.fault)
  }

  /** The effect HandleMessage promises is the turn of the read loop for that frame. */
  lemma HandledIsTurn(nodes: seq<Currency>, e0: EdgeMap, e1: EdgeMap, cycles: seq<seq<Currency>>, msg: Message, r: Result<Option<GainCycle>, Fault>)
    requires forall c :: c in cycles ==> HopsIn(e0, c)
    requires NonZeroAsks(msg)
    requires match Receive(nodes, e0, msg)
      case Err(f) => r == Err(f) && e1 == e0
      case Ok(eff) => e1 == eff.edges && r == (if eff.evaluate then Evaluate(cycles, eff.edges) else Ok(None))
    ensures TurnOf(nodes, e0, cycles, msg) == Turn(e1, if r.Ok? then r.value else None, if r.Err? then Some(r.error) else None)
  {
  }

  /** Replay of the frames from index i on, unfolded by one turn. */
  lemma ReplayFrom(nodes: seq<Currency>, edges: EdgeMap, cycles: seq<seq<Currency>>, frames: seq<Message>, i: nat)
    requires forall c :: c in cycles ==> HopsIn(edges, c)
    requires forall j :: 0 <= j < |frames| ==> NonZeroAsks(frames[j])
    requires i < |frames|
    ensures var t := TurnOf(nodes, edges, cycles, frames[i]);
      Replay(nodes, edges, cycles, frames[i..]) ==
        if t.fault.Some? then Run(t.edges, [], t.fault)
        else After(if t.report.Some? then [t.report.value] else [], Replay(nodes, t.edges, cycles, frames[i + 1..]))
  {
    assert frames[i..][0] == frames[i] && frames[i..][1..] == frames[i + 1..];
  }

  /** One pass of ReadLoop: handling frame i as HandleMessage promises advances Replay by one turn. */
  lemma ReadStep(nodes: seq<Currency>, start: EdgeMap, e0: EdgeMap, e1: EdgeMap, cycles: seq<seq<Currency>>,
                 frames: seq<Message>, i: nat, reports: seq<GainCycle>, r: Result<Option<GainCycle>, Fault>)
    requires forall c :: c in cycles ==> HopsIn(start, c)
    requires forall c :: c in cycles ==> HopsIn(e0, c)
    requires forall j :: 0 <= j < |frames| ==> NonZeroAsks(frames[j])
    requires i < |frames|
    requires Replay(nodes, start, cycles, frames) == After(reports, Replay(nodes, e0, cycles, frames[i..]))
    requires TurnOf(nodes, e0, cycles, frames[i]) == Turn(e1, if r.Ok? then r.value else None, if r.Err? then Some(r.error) else None)
    ensures forall c :: c in cycles ==> HopsIn(e1, c)
    ensures r.Err? ==> Replay(nodes, start, cycles, frames) == Run(e1, reports, Some(r.error))
    ensures r.Ok? ==>
      Replay(nodes, start, cycles, frames) ==
      After(reports + (if r.value.Some? then [r.value.value] else []), Replay(nodes, e1, cycles, frames[i + 1..]))
    ensures r.Ok? && r.value.Some? ==> r.value.value.cycle in cycles
  {
    ReplayFrom(nodes, e0, cycles, frames, i);
    if r.Ok? {
      var printed: seq<GainCycle> := if r.value.Some? then [r.value.value] else [];
      var rest := Replay(nodes, e1, cycles, frames[i + 1..]);
      assert Replay(nodes, e0, cycles, frames[i..]) == After(printed, rest);
      AfterAfter(reports, printed, rest);
    }
  }

  /** Reports printed in two batches before the rest of a run. */
  lemma AfterAfter(earlier: seq<GainCycle>, later: seq<GainCycle>, run: Run)
    ensures After(earlier, After(later, run)) == After(earlier + later, run)
  {
    assert earlier + (later + run.reports) == earlier + later + run.reports;
  }

  /** The targets at index `from` or above of the edges out of node u, in index order. */
  function Successors(nodes: seq<Currency>, edges: EdgeMap, u: nat, from: nat): (r: seq<nat>)
    requires u < |nodes| && from <= |nodes|
    ensures forall x :: x in r <==> from <= x < |nodes| && (nodes[u], nodes[x]) in edges
    decreases |nodes| - from
  {
    if from == |nodes| then []
    else (if (nodes[u], nodes[from]) in edges then [from] else []) + Successors(nodes, edges, u, from + 1)
  }

  /** The currency graph with nodes as indices, as the cycle search sees it. */
  function Adjacency(nodes: seq<Currency>, edges: EdgeMap): (g: GraphCycles.Graph)
    ensures |g| == |nodes| && GraphCycles.WellFormed(g)
    ensures forall u: nat, v: nat :: u < |nodes| && v < |nodes| ==> (v in g[u] <==> (nodes[u], nodes[v]) in edges)
  {
    var g := seq(|nodes|, u requires 0 <= u < |nodes| => Successors(nodes, edges, u, 0));
    assert forall u, i :: 0 <= u < |g| && 0 <= i < |g[u]| ==> g[u][i] in g[u];
    g
  }

  /** A walk of node indices as currency names. */
  function Names(nodes: seq<Currency>, c: seq<nat>): (r: seq<Currency>)
    requires forall i :: 0 <= i < |c| ==> c[i] < |nodes|
    ensures |r| == |c| && forall i :: 0 <= i < |c| ==> r[i] == nodes[c[i]]
  {
    seq(|c|, i requires 0 <= i < |c| => nodes[c[i]])
  }

  /** Index cycles written as currency names, in order. */
  function NamedCycles(nodes: seq<Currency>, cs: seq<seq<nat>>): (r: seq<seq<Currency>>)
    requires forall i, j :: 0 <= i < |cs| && 0 <= j < |cs[i]| ==> cs[i][j] < |nodes|
    ensures |r| == |cs| && forall i :: 0 <= i < |cs| ==> r[i] == Names(nodes, cs[i])
  {
    seq(|cs|, i requires 0 <= i < |cs| => Names(nodes, cs[i]))
  }

  /** The closed cycles of the index graph name closed walks over edges. */
  lemma NamedCyclesOver(nodes: seq<Currency>, edges: EdgeMap, cs: seq<seq<nat>>)
    requires forall i :: 0 <= i < |cs| ==> GraphCycles.ClosedCycle(Adjacency(nodes, edges), cs[i])
    ensures forall i, j :: 0 <= i < |cs| && 0 <= j < |cs[i]| ==> cs[i][j] < |nodes|
    ensures forall c :: c in NamedCycles(nodes, cs) ==> CycleOver(nodes, edges, c)
  {
    forall c | c in NamedCycles(nodes, cs)
      ensures CycleOver(nodes, edges, c)
    {
      var i :| 0 <= i < |cs| && NamedCycles(nodes, cs)[i] == c;
      NamesOfClosedCycle(nodes, edges, cs[i]);
    }
  }

  /** A closed walk of 3 to 5 hops over edges, ending where it starts; with distinct node names, no currency repeats before the end. */
  predicate CycleOver(nodes: seq<Currency>, edges: EdgeMap, c: seq<Currency>) {
    && 4 <= |c| <= 6
    && c[0] == c[|c| - 1]
    && HopsIn(edges, c)
    && (Distinct(nodes) ==> Distinct(c[..|c| - 1]))
  }

  /** A closed cycle of the index graph names a closed walk over edges; with distinct names, its currencies do not repeat. */
  lemma NamesOfClosedCycle(nodes: seq<Currency>, edges: EdgeMap, c: seq<nat>)
    requires GraphCycles.ClosedCycle(Adjacency(nodes, edges), c)
    ensures CycleOver(nodes, edges, Names(nodes, c))
  {
    var r := Names(nodes, c);
    var g := Adjacency(nodes, edges);
    forall i | 0 <= i < |r| - 1
      ensures (r[i], r[i + 1]) in edges
    {
      assert c[i + 1] in g[c[i]];
    }
    if Distinct(nodes) {
      forall i, j | 0 <= i < j < |c| - 1
        ensures r[i] != r[j]
      {
        assert c[..|c| - 1][i] == c[i] && c[..|c| - 1][j] == c[j];
      }
    }
  }

  /** The rating of every cycle (`gain_cycles`), as a loop over the cycles. */
  method RateCycles(cycles: seq<seq<Currency>>, edges: EdgeMap) returns (rated: seq<GainCycle>)
    requires forall c :: c in cycles ==> HopsIn(edges, c)
    ensures |rated| == |cycles|
    ensures forall i :: 0 <= i < |cycles| ==> rated[i] == Assess(edges, cycles[i])
  {
    rated := [];
    for i := 0 to |cycles|
      invariant |rated| == i
      invariant forall j :: 0 <= j < i ==> rated[j] == Assess(edges, cycles[j])
    {
      var gain, size := CalculateGain(cycles[i], edges);
      rated := rated + [GainCycle(gain, size, cycles[i])];
    }
  }

  /** `main` after the catalogue fetch: keep the online pairs, build the graph, prune it once. */
  method Startup(catalogue: seq<Pair>) returns (pairs: seq<Pair>, g: MarketGraph)
    ensures pairs == OnlinePairs(catalogue)
    ensures fresh(g) && g.Valid()
    ensures forall x :: x in g.nodes <==> Traded(pairs, x) && OutDegree(EdgesOf(pairs), x) != 1
    ensures forall k :: k in g.edges <==> k in EdgesOf(pairs) && k.0 in g.nodes && k.1 in g.nodes
  {
    pairs := OnlinePairs(catalogue);
    g := BuildGraph(pairs);
    NodesOfSpec(pairs);
    g.Prune();
  }

  /** The chain A-B, B-C, C-D. */
  function Chain(): seq<Pair> {
    [Pair("A-B", "A", "B", "online"), Pair("B-C", "B", "C", "online"), Pair("C-D", "C", "D", "online")]
  }

  function ChainEdges(): EdgeMap {
    map[("A", "B") := Edge(0.0, 0.0), ("B", "A") := Edge(0.0, 0.0), ("B", "C") := Edge(0.0, 0.0),
        ("C", "B") := Edge(0.0, 0.0), ("C", "D") := Edge(0.0, 0.0), ("D", "C") := Edge(0.0, 0.0)]
  }

  lemma ChainGraph()
    ensures NodesOf(Chain()) == ["A", "B", "C", "D"]
    ensures EdgesOf(Chain()) == ChainEdges()
  {
    var pairs := Chain();
    var p1, p2 := pairs[..1], pairs[..2];
    assert p1[..0] == [] && p2[..1] == p1 && pairs[..2] == p2;
    assert NodesOf(p1) == ["A", "B"];
    assert NodesOf(p2) == ["A", "B", "C"];
    assert EdgesOf(p1) == map[("A", "B") := Edge(0.0, 0.0), ("B", "A") := Edge(0.0, 0.0)];
  }

  lemma ChainEnds()
    ensures OutDegree(ChainEdges(), "A") == 1 && OutDegree(ChainEdges(), "D") == 1
  {
    var es := ChainEdges();
    assert es.Keys == {("A", "B"), ("B", "A"), ("B", "C"), ("C", "B"), ("C", "D"), ("D", "C")};
    assert (set k | k in es && k.0 == "A") == {("A", "B")};
    assert (set k | k in es && k.0 == "D") == {("D", "C")};
  }

  lemma ChainMiddle()
    ensures OutDegree(ChainEdges(), "B") == 2 && OutDegree(ChainEdges(), "C") == 2
  {
    var es := ChainEdges();
    assert es.Keys == {("A", "B"), ("B", "A"), ("B", "C"), ("C", "B"), ("C", "D"), ("D", "C")};
    assert (set k | k in es && k.0 == "B") == {("B", "A"), ("B", "C")};
    assert (set k | k in es && k.0 == "C") == {("C", "B"), ("C", "D")};
  }

  lemma ChainDegrees()
    ensures Doomed(["A", "B", "C", "D"], ChainEdges()) == {"A", "D"}
  {
    ChainEnds();
    ChainMiddle();
  }

  /** The edges left between B and C. */
  lemma ChainKept()
    ensures Between(ChainEdges(), ["B", "C"]) == map[("B", "C") := Edge(0.0, 0.0), ("C", "B") := Edge(0.0, 0.0)]
  {
  }

  lemma ChainSurvivors()
    ensures KeepOnly(["A", "B", "C", "D"], {"A", "D"}) == ["B", "C"]
  {
    var ns: seq<Currency> := ["A", "B", "C", "D"];
    var gone: set<Currency> := {"A", "D"};
    assert ns[1..] == ["B", "C", "D"] && ns[1..][1..] == ["C", "D"] && ns[1..][1..][1..] == ["D"] && ns[1..][1..][1..][1..] == [];
    assert KeepOnly(["D"], gone) == [];
    assert KeepOnly(["C", "D"], gone) == ["C"];
    assert KeepOnly(["B", "C", "D"], gone) == ["B", "C"];
  }

  lemma ChainPruned()
    ensures OutDegree(Between(ChainEdges(), ["B", "C"]), "B") == 1
    ensures OutDegree(Between(ChainEdges(), ["B", "C"]), "C") == 1
  {
    ChainKept();
    var kept: EdgeMap := map[("B", "C") := Edge(0.0, 0.0), ("C", "B") := Edge(0.0, 0.0)];
    assert (set k | k in kept && k.0 == "B") == {("B", "C")};
    assert (set k | k in kept && k.0 == "C") == {("C", "B")};
  }

  /**
   * The pruning runs once: in the chain A-B, B-C, C-D the ends A and D have
   * one outgoing edge each and go; B and C are then left with one outgoing
   * edge each, and stay.
   */
  lemma PruneRunsOnce()
    ensures var ns := NodesOf(Chain());
      var es := EdgesOf(Chain());
      && Doomed(ns, es) == {"A", "D"}
      && KeepOnly(ns, Doomed(ns, es)) == ["B", "C"]
      && OutDegree(Between(es, KeepOnly(ns, Doomed(ns, es))), "B") == 1
      && OutDegree(Between(es, KeepOnly(ns, Doomed(ns, es))), "C") == 1
  {
    ChainGraph();
    ChainDegrees();
    ChainSurvivors();
    ChainPruned();
  }
}
