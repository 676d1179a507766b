/** The frozen dependency graph: an immutable node set with its outgoing-edge multimap and
    the transposed incoming-edge multimap, copied once from a builder-time graph that has
    been found acyclic. A set multimap is modelled as a map from a key to its non-empty
    value set, so a key is present exactly when it has at least one value. */
module ImmutableGraph {
  import opened Wrappers
  import Strings

  /** What the builder-time graph hands over when it is frozen: the copies of its nodes,
      outgoing edges and incoming edges, and the answer its acyclicity check gives. */
  datatype MutableGraphSnapshot<T> = MutableGraphSnapshot(
    nodes: set<T>,
    outgoing: map<T, set<T>>,
    incoming: map<T, set<T>>,
    isAcyclic: bool)

  datatype Dag<T> = Dag(nodes: set<T>, outgoing: map<T, set<T>>, incoming: map<T, set<T>>)

  /** Why freezing fails: the graph reference is null, or the graph has a cycle. */
  datatype FreezeError = NullGraph | NotAcyclic

  /** A map that represents a set multimap: no key is mapped to the empty set. */
  ghost predicate IsMultimap<T(!new)>(m: map<T, set<T>>) {
    forall k :: k in m ==> m[k] != {}
  }

  /** Every key and every value of `m` is one of `nodes`. */
  ghost predicate WithinNodes<T(!new)>(m: map<T, set<T>>, nodes: set<T>) {
    forall k :: k in m ==> k in nodes && m[k] <= nodes
  }

  /** `inc` holds exactly the reversed edges of `out`. */
  ghost predicate Transposed<T(!new)>(out: map<T, set<T>>, inc: map<T, set<T>>) {
    && (forall a, b {:trigger b in out[a]} :: a in out && b in out[a] ==> b in inc && a in inc[b])
    && (forall a, b {:trigger a in inc[b]} :: b in inc && a in inc[b] ==> a in out && b in out[a])
  }

  /** What the builder-time graph guarantees of the copies it hands over. */
  ghost predicate Consistent<T(!new)>(g: MutableGraphSnapshot<T>) {
    Valid(Dag(g.nodes, g.outgoing, g.incoming))
  }

  /** The frozen graph's invariant: two set multimaps over its nodes, each the transpose
      of the other. */
  ghost predicate Valid<T(!new)>(d: Dag<T>) {
    && IsMultimap(d.outgoing) && IsMultimap(d.incoming)
    && WithinNodes(d.outgoing, d.nodes) && WithinNodes(d.incoming, d.nodes)
    && Transposed(d.outgoing, d.incoming)
  }

  /** The constructor: a null graph or a cyclic graph is refused before anything is
      copied; otherwise the three copies become the frozen graph. */
  function Freeze<T(!new)>(g: Option<MutableGraphSnapshot<T>>): (r: Result<Dag<T>, FreezeError>)
    ensures g.None? <==> r == Failure(NullGraph)
    ensures r == Failure(NotAcyclic) <==> g.Some? && !g.value.isAcyclic
    ensures r.Success? ==> g.Some? && g.value.isAcyclic
    ensures r.Success? ==> r.value.nodes == g.value.nodes
    ensures r.Success? ==> r.value.outgoing == g.value.outgoing
    ensures r.Success? ==> r.value.incoming == g.value.incoming
    ensures r.Success? && Consistent(g.value) ==> Valid(r.value)
  {
    match g
    case None => Failure(NullGraph)
    case Some(graph) =>
      if !graph.isAcyclic then Failure(NotAcyclic)
      else Success(Dag(graph.nodes, graph.outgoing, graph.incoming))
  }

  /** The sinks of the edges leaving `source`; empty, not a failure, for a node without
      outgoing edges or one the graph does not know. */
  function OutgoingNodesFor<T(!new)>(d: Dag<T>, source: T): (r: set<T>)
    ensures forall m :: m in r <==> source in d.outgoing && m in d.outgoing[source]
    ensures source !in d.nodes && Valid(d) ==> r == {}
    ensures Valid(d) ==> r <= d.nodes
  {
    if source in d.outgoing then d.outgoing[source] else {}
  }

  /** The sources of the edges entering `sink`; empty for a node without incoming edges
      or one the graph does not know. */
  function IncomingNodesFor<T(!new)>(d: Dag<T>, sink: T): (r: set<T>)
    ensures forall m :: m in r <==> sink in d.incoming && m in d.incoming[sink]
    ensures sink !in d.nodes && Valid(d) ==> r == {}
    ensures Valid(d) ==> r <= d.nodes
  {
    if sink in d.incoming then d.incoming[sink] else {}
  }

  /** Incoming edges are the outgoing edges read backwards. */
  lemma IncomingIffOutgoing<T(!new)>(d: Dag<T>, n: T, m: T)
    requires Valid(d)
    ensures m in IncomingNodesFor(d, n) <==> n in OutgoingNodesFor(d, m)
  {
  }

  /** The leaves: nodes that are not the key of any outgoing edge. */
  function NodesWithNoOutgoingEdges<T(!new)>(d: Dag<T>): (r: set<T>)
    ensures r <= d.nodes
    ensures Valid(d) ==> forall n :: n in r <==> n in d.nodes && OutgoingNodesFor(d, n) == {}
  {
    d.nodes - d.outgoing.Keys
  }

  /** The roots: nodes that are not the key of any incoming edge. */
  function NodesWithNoIncomingEdges<T(!new)>(d: Dag<T>): (r: set<T>)
    ensures r <= d.nodes
    ensures Valid(d) ==> forall n :: n in r <==> n in d.nodes && IncomingNodesFor(d, n) == {}
  {
    d.nodes - d.incoming.Keys
  }

  /** A root is never the sink of an edge, and a leaf never its source. */
  lemma RootsAndLeavesAreEdgeFree<T(!new)>(d: Dag<T>, n: T, m: T)
    requires Valid(d)
    ensures n in NodesWithNoIncomingEdges(d) ==> n !in OutgoingNodesFor(d, m)
    ensures n in NodesWithNoOutgoingEdges(d) ==> n !in IncomingNodesFor(d, m)
  {
  }

  /** The number of distinct nodes. In a valid graph it splits into the leaves and the
      nodes that have outgoing edges, and likewise into the roots and the nodes that have
      incoming edges. */
  function NodeCount<T(!new)>(d: Dag<T>): (r: nat)
    ensures r == |d.nodes|
    ensures Valid(d) ==> r == |NodesWithNoOutgoingEdges(d)| + |d.outgoing.Keys|
    ensures Valid(d) ==> r == |NodesWithNoIncomingEdges(d)| + |d.incoming.Keys|
  {
    DisjointSplit(d.nodes, d.outgoing.Keys);
    DisjointSplit(d.nodes, d.incoming.Keys);
    |d.nodes|
  }

  /** A set splits into the part outside `other` and the part inside it. */
  lemma DisjointSplit<T>(all: set<T>, other: set<T>)
    ensures |all| == |all - other| + |all * other|
  {
    assert all == (all - other) + (all * other);
    assert (all - other) * (all * other) == {};
  }

  /** All edges, read from the outgoing multimap. */
  ghost function OutEdges<T(!new)>(d: Dag<T>): set<(T, T)> {
    set a, b | a in d.outgoing && b in d.outgoing[a] :: (a, b)
  }

  /** All edges, read backwards from the incoming multimap. */
  ghost function InEdges<T(!new)>(d: Dag<T>): set<(T, T)> {
    set b, a | b in d.incoming && a in d.incoming[b] :: (a, b)
  }

  /** Edges whose source is one of `sources`, read from the outgoing multimap. */
  ghost function EdgesFrom<T(!new)>(d: Dag<T>, sources: set<T>): set<(T, T)> {
    set a, b | a in sources && a in d.outgoing && b in d.outgoing[a] :: (a, b)
  }

  /** Both multimaps describe the same edges. */
  lemma EdgesAgree<T(!new)>(d: Dag<T>)
    requires Valid(d)
    ensures OutEdges(d) == InEdges(d)
  {
    forall e | e in OutEdges(d) ensures e in InEdges(d) {
      assert e.0 in d.outgoing && e.1 in d.outgoing[e.0];
    }
    forall e | e in InEdges(d) ensures e in OutEdges(d) {
      assert e.1 in d.incoming && e.0 in d.incoming[e.1];
    }
  }

  /** In a valid graph every edge starts at a node, so the edges from all nodes are all
      the edges. */
  lemma EdgesFromAllNodes<T(!new)>(d: Dag<T>)
    requires Valid(d)
    ensures EdgesFrom(d, d.nodes) == OutEdges(d)
  {
  }

  /** One line of the debug dump. */
  datatype DebugLine<T> = Header(nodeCount: nat) | EdgeLine(source: T, sink: T)

  /** The debug dump: a header carrying the node count, then one line per edge leaving a
      node, each edge once, visiting the nodes and their sinks in an unspecified order. */
  method DebugLines<T(==,!new)>(d: Dag<T>) returns (lines: seq<DebugLine<T>>)
    ensures |lines| >= 1 && lines[0] == Header(|d.nodes|)
    ensures forall i :: 1 <= i < |lines| ==> lines[i].EdgeLine?
    ensures forall i, j :: 1 <= i < j < |lines| ==> lines[i] != lines[j]
    ensures forall a, b :: EdgeLine(a, b) in lines <==> a in d.nodes && b in OutgoingNodesFor(d, a)
    ensures |lines| == 1 + |EdgesFrom(d, d.nodes)|
  {
    lines := [Header(|d.nodes|)];
    ghost var emitted: set<(T, T)> := {};
    var pending := d.nodes;
    while pending != {}
      invariant pending <= d.nodes
      invariant DumpSoFar(d, lines, emitted)
      invariant emitted == EdgesFrom(d, d.nodes - pending)
      decreases pending
    {
      var n :| n in pending;
      EdgesFromOneMore(d, d.nodes - pending, n);
      lines, emitted := DumpSinks(d, n, lines, emitted);
      assert d.nodes - (pending - {n}) == (d.nodes - pending) + {n};
      pending := pending - {n};
    }
    assert d.nodes - pending == d.nodes;
  }

  /** The dump written so far: the header, then one distinct edge line per edge in
      `emitted`. */
  ghost predicate DumpSoFar<T(!new)>(d: Dag<T>, lines: seq<DebugLine<T>>, emitted: set<(T, T)>) {
    && |lines| >= 1 && lines[0] == Header(|d.nodes|)
    && (forall i :: 1 <= i < |lines| ==> lines[i].EdgeLine?)
    && (forall i, j :: 1 <= i < j < |lines| ==> lines[i] != lines[j])
    && (forall a, b :: EdgeLine(a, b) in lines <==> (a, b) in emitted)
    && |lines| == 1 + |emitted|
  }

  lemma DumpOneMore<T(!new)>(d: Dag<T>, lines: seq<DebugLine<T>>, emitted: set<(T, T)>, a: T, b: T)
    requires DumpSoFar(d, lines, emitted)
    requires (a, b) !in emitted
    ensures DumpSoFar(d, lines + [EdgeLine(a, b)], emitted + {(a, b)})
  {
    var lines' := lines + [EdgeLine(a, b)];
    assert EdgeLine(a, b) !in lines;
    forall x, y | EdgeLine(x, y) in lines'
      ensures (x, y) in emitted + {(a, b)}
    {
      if EdgeLine(x, y) in lines {
      } else {
        assert EdgeLine(x, y) == lines'[|lines|];
      }
    }
  }

  lemma EdgesFromOneMore<T(!new)>(d: Dag<T>, done: set<T>, n: T)
    requires n !in done
    ensures EdgesFrom(d, done + {n}) == EdgesFrom(d, done) + set m | m in OutgoingNodesFor(d, n) :: (n, m)
    ensures forall m :: (n, m) !in EdgesFrom(d, done)
  {
  }

  /** The inner loop of the dump: one line per sink of `n`. */
  method DumpSinks<T(==,!new)>(d: Dag<T>, n: T, lines: seq<DebugLine<T>>, ghost emitted: set<(T, T)>)
    returns (lines': seq<DebugLine<T>>, ghost emitted': set<(T, T)>)
    requires DumpSoFar(d, lines, emitted)
    requires forall m :: (n, m) !in emitted
    ensures DumpSoFar(d, lines', emitted')
    ensures emitted' == emitted + set m | m in OutgoingNodesFor(d, n) :: (n, m)
  {
    lines', emitted' := lines, emitted;
    var sinks := OutgoingNodesFor(d, n);
    while sinks != {}
      invariant sinks <= OutgoingNodesFor(d, n)
      invariant DumpSoFar(d, lines', emitted')
      invariant emitted' == emitted + set m | m in OutgoingNodesFor(d, n) - sinks :: (n, m)
      decreases sinks
    {
      var m :| m in sinks;
      DumpOneMore(d, lines', emitted', n, m);
      lines', emitted' := lines' + [EdgeLine(n, m)], emitted' + {(n, m)};
      sinks := sinks - {m};
    }
  }

  /** The debug dump as text: `Number of nodes: N`, then `source => sink` per edge line,
      each line ending in a newline; `show` is the nodes' `toString`. */
  function DebugString<T>(lines: seq<DebugLine<T>>, show: T -> string): string {
    if |lines| == 0 then "" else LineText(lines[0], show) + "\n" + DebugString(lines[1..], show)
  }

  /** The text of one dump line, without its newline. */
  function LineText<T>(line: DebugLine<T>, show: T -> string): string {
    match line
    case Header(count) => "Number of nodes: " + Strings.NatToString(count)
    case EdgeLine(a, b) => show(a) + " => " + show(b)
  }

  /** When no node renders with a newline, the dump text ends exactly one line per dump
      line. */
  lemma {:induction false} DebugStringLineCount<T>(lines: seq<DebugLine<T>>, show: T -> string)
    requires forall x :: '\n' !in show(x)
    ensures NewlineCount(DebugString(lines, show)) == |lines|
    decreases |lines|
  {
    if |lines| > 0 {
      var text := LineText(lines[0], show);
      assert '\n' !in text by {
        match lines[0]
        case Header(count) =>
          assert forall i :: 0 <= i < |Strings.NatToString(count)| ==> Strings.IsDigit(Strings.NatToString(count)[i]);
        case EdgeLine(a, b) =>
      }
      NoNewlines(text);
      NewlinesOfConcat(text + "\n", DebugString(lines[1..], show));
      NewlinesOfConcat(text, "\n");
      assert NewlineCount("\n") == 1;
      DebugStringLineCount(lines[1..], show);
    }
  }

  /** The number of newline characters in `s`, that is, the number of lines it ends. */
  function NewlineCount(s: string): nat {
    if |s| == 0 then 0 else (if s[0] == '\n' then 1 else 0) + NewlineCount(s[1..])
  }

  lemma {:induction false} NoNewlines(s: string)
    requires '\n' !in s
    ensures NewlineCount(s) == 0
    decreases |s|
  {
    if |s| > 0 {
      assert s[0] != '\n';
      NoNewlines(s[1..]);
    }
  }

  lemma {:induction false} NewlinesOfConcat(a: string, b: string)
    ensures NewlineCount(a + b) == NewlineCount(a) + NewlineCount(b)
    decreases |a|
  {
    if |a| == 0 {
      assert a + b == b;
    } else {
      assert (a + b)[0] == a[0];
      assert (a + b)[1..] == a[1..] + b;
      NewlinesOfConcat(a[1..], b);
    }
  }
}
