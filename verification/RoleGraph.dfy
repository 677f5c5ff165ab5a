/** Directed graphs over role ids: paths, cycles, and the depth-first loop check of
    `pkg/frontend/authenticate.go`. */
module Paths {

  /** The int64 key of a role or a user; only compared, never computed with. */
  datatype Id = Id(value: int)
  type Edges = set<(Id, Id)>

  /** `p` walks along edges of `es` from `a` to `b`; one vertex alone is a path of no edges. */
  ghost predicate IsPath(es: Edges, a: Id, b: Id, p: seq<Id>) {
    && |p| > 0
    && p[0] == a
    && p[|p| - 1] == b
    && forall i :: 0 <= i < |p| - 1 ==> (p[i], p[i + 1]) in es
  }

  ghost predicate Reaches(es: Edges, a: Id, b: Id) {
    exists p :: IsPath(es, a, b, p)
  }

  /** Reachable by at least one edge. */
  ghost predicate ReachesPlus(es: Edges, a: Id, b: Id) {
    exists p :: IsPath(es, a, b, p) && |p| > 1
  }

  ghost predicate Acyclic(es: Edges) {
    forall v :: !ReachesPlus(es, v, v)
  }

  /** Some cycle can be reached from `s`. */
  ghost predicate LoopFrom(es: Edges, s: Id) {
    exists v :: Reaches(es, s, v) && ReachesPlus(es, v, v)
  }

  ghost predicate Closed(es: Edges, s: set<Id>) {
    forall e :: e in es && e.0 in s ==> e.1 in s
  }

  lemma {:induction false} PathConcat(es: Edges, a: Id, b: Id, c: Id, p: seq<Id>, q: seq<Id>)
    requires IsPath(es, a, b, p) && IsPath(es, b, c, q)
    ensures IsPath(es, a, c, p + q[1..])
  {}

  lemma {:induction false} SubPath(es: Edges, a: Id, b: Id, p: seq<Id>, i: nat, j: nat)
    requires IsPath(es, a, b, p)
    requires i <= j < |p|
    ensures IsPath(es, p[i], p[j], p[i..j + 1])
  {}

  lemma {:induction false} ReachesTrans(es: Edges, a: Id, b: Id, c: Id)
    requires Reaches(es, a, b) && Reaches(es, b, c)
    ensures Reaches(es, a, c)
  {
    var p :| IsPath(es, a, b, p);
    var q :| IsPath(es, b, c, q);
    PathConcat(es, a, b, c, p, q);
  }

  lemma {:induction false} ReachesRefl(es: Edges, a: Id)
    ensures Reaches(es, a, a)
  {
    assert IsPath(es, a, a, [a]);
  }

  lemma {:induction false} EdgeReaches(es: Edges, a: Id, b: Id)
    requires (a, b) in es
    ensures Reaches(es, a, b)
  {
    assert IsPath(es, a, b, [a, b]);
  }

  lemma {:induction false} EdgeThenReaches(es: Edges, a: Id, b: Id, c: Id)
    requires (a, b) in es && Reaches(es, b, c)
    ensures ReachesPlus(es, a, c)
  {
    var q :| IsPath(es, b, c, q);
    assert IsPath(es, a, b, [a, b]);
    PathConcat(es, a, b, c, [a, b], q);
  }

  /** A path of one or more edges starts with an edge. */
  lemma {:induction false} FirstEdge(es: Edges, a: Id, c: Id) returns (b: Id)
    requires ReachesPlus(es, a, c)
    ensures (a, b) in es && Reaches(es, b, c)
  {
    var p :| IsPath(es, a, c, p) && |p| > 1;
    b := p[1];
    SubPath(es, a, c, p, 1, |p| - 1);
  }

  lemma {:induction false} PlusIsReaches(es: Edges, a: Id, b: Id)
    requires ReachesPlus(es, a, b)
    ensures Reaches(es, a, b)
  {}

  lemma {:induction false} Monotone(es: Edges, fs: Edges, a: Id, b: Id)
    requires es <= fs
    ensures Reaches(es, a, b) ==> Reaches(fs, a, b)
    ensures ReachesPlus(es, a, b) ==> ReachesPlus(fs, a, b)
  {
    forall p | IsPath(es, a, b, p)
      ensures IsPath(fs, a, b, p)
    {}
  }

  lemma {:induction false} SubgraphAcyclic(es: Edges, fs: Edges)
    requires es <= fs && Acyclic(fs)
    ensures Acyclic(es)
  {
    forall v
      ensures !ReachesPlus(es, v, v)
    {
      Monotone(es, fs, v, v);
    }
  }

  lemma {:induction false} ClosedPathStays(es: Edges, s: set<Id>, a: Id, b: Id, p: seq<Id>)
    requires Closed(es, s) && a in s && IsPath(es, a, b, p)
    ensures b in s
    decreases |p|
  {
    if |p| > 1 {
      var e := (p[0], p[1]);
      assert e in es;
      SubPath(es, a, b, p, 1, |p| - 1);
      ClosedPathStays(es, s, p[1], b, p[1..]);
    }
  }

  lemma {:induction false} ClosedReaches(es: Edges, s: set<Id>, a: Id, b: Id)
    requires Closed(es, s) && a in s && Reaches(es, a, b)
    ensures b in s
  {
    var p :| IsPath(es, a, b, p);
    ClosedPathStays(es, s, a, b, p);
  }

  /** A cycle reachable from a successor is reachable from the vertex itself. */
  lemma {:induction false} LoopFromSuccessor(es: Edges, a: Id, b: Id)
    requires (a, b) in es && LoopFrom(es, b)
    ensures LoopFrom(es, a)
  {
    var v :| Reaches(es, b, v) && ReachesPlus(es, v, v);
    EdgeThenReaches(es, a, b, v);
    PlusIsReaches(es, a, v);
  }

  /** An acyclic graph has no loop from anywhere; a graph with no loop from any vertex is acyclic. */
  lemma {:induction false} AcyclicIffNoLoop(es: Edges)
    ensures Acyclic(es) <==> forall s :: !LoopFrom(es, s)
  {
    if !Acyclic(es) {
      var v :| ReachesPlus(es, v, v);
      ReachesRefl(es, v);
      assert LoopFrom(es, v);
    }
  }

  /** The edges a GRANT of every role in `from` to every role in `to` adds. */
  ghost function Product(from: set<Id>, to: set<Id>): Edges {
    set f, t | f in from && t in to :: (f, t)
  }

  /** Some `to` vertex already reaches some `from` vertex. */
  ghost predicate BackPath(es: Edges, from: set<Id>, to: set<Id>) {
    exists f, t :: f in from && t in to && Reaches(es, t, f)
  }

  /** A walk that starts inside `to` either stays in the old graph or needs a back path
      before it can use its first product edge. */
  lemma {:induction false} ProductUnusable(es: Edges, from: set<Id>, to: set<Id>, t: Id, x: Id, p: seq<Id>)
    requires t in to && IsPath(es + Product(from, to), t, x, p)
    ensures BackPath(es, from, to) || IsPath(es, t, x, p)
    decreases |p|
  {
    if |p| > 1 {
      var q := p[..|p| - 1];
      var y := p[|p| - 2];
      SubPath(es + Product(from, to), t, x, p, 0, |p| - 2);
      assert p[0..|p| - 1] == q;
      ProductUnusable(es, from, to, t, y, q);
      assert (y, x) == (p[|p| - 2], p[|p| - 2 + 1]);
      assert (y, x) !in es ==> y in from;
    }
  }

  /** A cycle of the enlarged graph is a cycle of the old one, or proves a back path: rotated to
      start behind one of its product edges, it walks from that edge's head to its tail. */
  lemma {:induction false} CycleNeedsBackPath(es: Edges, from: set<Id>, to: set<Id>, v: Id, p: seq<Id>)
    requires IsPath(es + Product(from, to), v, v, p) && |p| > 1
    ensures ReachesPlus(es, v, v) || BackPath(es, from, to)
  {
    var big := es + Product(from, to);
    if forall i :: 0 <= i < |p| - 1 ==> (p[i], p[i + 1]) in es {
      assert IsPath(es, v, v, p);
    } else {
      var i :| 0 <= i < |p| - 1 && (p[i], p[i + 1]) !in es;
      var f, t := p[i], p[i + 1];
      assert f in from && t in to;
      SubPath(big, v, v, p, i + 1, |p| - 1);
      SubPath(big, v, v, p, 0, i);
      PathConcat(big, t, v, f, p[i + 1..|p|], p[0..i + 1]);
      ProductUnusable(es, from, to, t, f, p[i + 1..|p|] + p[0..i + 1][1..]);
    }
  }

  /** An acyclic graph stays acyclic under the whole product if and only if no `to` vertex
      reaches a `from` vertex, which is what testing the product's edges one at a time finds. */
  lemma {:induction false} ProductAcyclic(es: Edges, from: set<Id>, to: set<Id>)
    requires Acyclic(es)
    ensures Acyclic(es + Product(from, to)) <==> !BackPath(es, from, to)
  {
    var big := es + Product(from, to);
    if f, t :| f in from && t in to && Reaches(es, t, f) {
      Monotone(es, big, t, f);
      assert (f, t) in big;
      EdgeThenReaches(big, f, t, f);
    }
    forall v | ReachesPlus(big, v, v)
      ensures BackPath(es, from, to)
    {
      var p :| IsPath(big, v, v, p) && |p| > 1;
      CycleNeedsBackPath(es, from, to, v, p);
    }
  }

  /** Adding one edge to an acyclic graph makes a loop reachable from its tail exactly when its
      head already reaches its tail. */
  lemma {:induction false} SingleEdgeLoop(es: Edges, f: Id, t: Id)
    requires Acyclic(es)
    ensures LoopFrom(es + {(f, t)}, f) <==> Reaches(es, t, f)
  {
    assert Product({f}, {t}) == {(f, t)};
    ProductAcyclic(es, {f}, {t});
    var big := es + {(f, t)};
    if Reaches(es, t, f) {
      Monotone(es, big, t, f);
      EdgeThenReaches(big, f, t, f);
      ReachesRefl(big, f);
    }
  }
}

/** The mutable edge-list graph that GRANT uses to look for loops. */
module RoleGraph {
  import opened Paths

  datatype Edge = Edge(from: Id, to: Id, invalid: bool)

  datatype VisitTag = UnVisited | Visited | Visiting

  /** The `visited` table that all activations of one search share. */
  class VisitTable {
    var tags: map<Id, VisitTag>

    constructor ()
      ensures tags == map[]
    {
      tags := map[];
    }

    /** An absent key reads as the zero value, `UnVisited`. */
    function Tag(v: Id): VisitTag
      reads this
    {
      if v in tags then tags[v] else UnVisited
    }

    ghost function Tagged(t: VisitTag): set<Id>
      reads this
      requires t != UnVisited
    {
      set v | v in tags && tags[v] == t
    }
  }

  class Graph {
    var edges: seq<Edge>
    var vertexes: map<Id, int>
    var adjacent: map<Id, seq<nat>>

    /** The adjacency lists hold exactly the ids of the edges that leave each vertex. */
    ghost predicate Valid()
      reads this
    {
      && (forall u, k :: u in adjacent && 0 <= k < |adjacent[u]| ==>
            adjacent[u][k] < |edges| && edges[adjacent[u][k]].from == u)
      && (forall i :: 0 <= i < |edges| ==>
            edges[i].from in adjacent && i in adjacent[edges[i].from])
      && (forall i :: 0 <= i < |edges| ==> edges[i].from in vertexes && edges[i].to in vertexes)
    }

    ghost function Live(): Edges
      reads this
    {
      LiveEdges(edges)
    }

    constructor ()
      ensures Valid() && edges == []
    {
      edges, vertexes, adjacent := [], map[], map[];
    }

    method AddEdge(from: Id, to: Id) returns (edgeId: nat)
      requires Valid()
      modifies this
      ensures Valid()
      ensures edgeId == |old(edges)| && edges == old(edges) + [Edge(from, to, false)]
      ensures Live() == old(Live()) + {(from, to)}
    {
      edgeId := |edges|;
      var ids := if from in adjacent then adjacent[from] else [];
      edges := edges + [Edge(from, to, false)];
      adjacent := adjacent[from := ids + [edgeId]];
      vertexes := vertexes[from := 0][to := 0];
      assert adjacent[from][|ids|] == edgeId;
      forall i | 0 <= i < |edges|
        ensures edges[i].from in adjacent && i in adjacent[edges[i].from]
      {
        if i < edgeId && edges[i].from == from {
          assert i in ids;
        }
      }
      LiveSnoc(old(edges), Edge(from, to, false));
    }

    method RemoveEdge(edgeId: nat)
      requires Valid() && edgeId < |edges|
      modifies this`edges
      ensures Valid()
      ensures edges == old(edges)[edgeId := old(edges)[edgeId].(invalid := true)]
    {
      edges := edges[edgeId := edges[edgeId].(invalid := true)];
    }

    /** Depth-first visit of `u`: false exactly when it runs into a loop, which is then reachable
        from `u`; otherwise `u` and all it reaches end up visited, with no loop among them. The
        vertices still being visited all reach `u`. */
    method {:induction false} Toposort(u: Id, visited: VisitTable, ghost universe: set<Id>) returns (ok: bool)
      requires Valid()
      requires u in universe && Closed(Live(), universe)
      requires visited.Tag(u) == UnVisited
      requires visited.Tagged(Visiting) <= universe
      requires SearchInvariant(Live(), visited.Tagged(Visited), visited.Tagged(Visiting), u)
      modifies visited
      ensures ok ==> visited.Tagged(Visiting) == old(visited.Tagged(Visiting))
      ensures ok ==> visited.Tagged(Visited) >= old(visited.Tagged(Visited)) + {u}
      ensures ok ==> NoLoopInside(Live(), visited.Tagged(Visited))
      ensures !ok ==> LoopFrom(Live(), u)
      decreases universe - visited.Tagged(Visiting)
    {
      ghost var es, grey, black := Live(), visited.Tagged(Visiting), visited.Tagged(Visited);
      visited.tags := visited.tags[u := Visiting];
      assert visited.Tagged(Visiting) == grey + {u};
      assert visited.Tagged(Visited) == black;
      var ids := if u in adjacent then adjacent[u] else [];
      var i := 0;
      while i < |ids|
        invariant 0 <= i <= |ids|
        invariant visited.Tagged(Visiting) == grey + {u}
        invariant visited.Tagged(Visited) >= black
        invariant NoLoopInside(es, visited.Tagged(Visited))
        invariant forall k :: 0 <= k < i && !edges[ids[k]].invalid ==> edges[ids[k]].to in visited.Tagged(Visited)
      {
        var e := edges[ids[i]];
        if !e.invalid {
          assert (u, e.to) in es;
          if visited.Tag(e.to) == Visiting {
            BackEdge(es, grey, u, e.to);
            return false;
          } else if visited.Tag(e.to) == UnVisited {
            ExtendStack(es, visited.Tagged(Visited), grey, u, e.to);
            var deeper := Toposort(e.to, visited, universe);
            if !deeper {
              LoopFromSuccessor(es, u, e.to);
              return false;
            }
          }
        }
        i := i + 1;
      }
      assert forall e :: e in es && e.0 == u ==> e.1 in visited.Tagged(Visited) by {
        forall e | e in es && e.0 == u
          ensures e.1 in visited.Tagged(Visited)
        {
          var j :| 0 <= j < |edges| && !edges[j].invalid && (edges[j].from, edges[j].to) == e;
          assert j in ids;
        }
      }
      Finish(es, visited.Tagged(Visited), u);
      ghost var done := visited.Tagged(Visited);
      visited.tags := visited.tags[u := Visited];
      assert visited.Tagged(Visited) == done + {u};
      return true;
    }

    /** The loop check terminates, and answers whether some cycle of edges that were not removed
        can be reached from `start`. */
    method HasLoop(start: Id) returns (has: bool)
      requires Valid()
      ensures has <==> LoopFrom(Live(), start)
    {
      var visited := new VisitTable();
      ghost var universe := vertexes.Keys + {start};
      visited.tags := map v | v in vertexes :: UnVisited;
      ReachesRefl(Live(), start);
      var ok := Toposort(start, visited, universe);
      has := !ok;
    }
  }

  ghost function LiveEdges(es: seq<Edge>): Edges {
    set i | 0 <= i < |es| && !es[i].invalid :: (es[i].from, es[i].to)
  }

  lemma {:induction false} LiveSnoc(es: seq<Edge>, e: Edge)
    ensures LiveEdges(es + [e]) == LiveEdges(es) + if e.invalid then {} else {(e.from, e.to)}
  {
    var all := es + [e];
    forall x
      ensures x in LiveEdges(all) <==> x in LiveEdges(es) || (!e.invalid && x == (e.from, e.to))
    {
      if x in LiveEdges(es) {
        var i :| 0 <= i < |es| && !es[i].invalid && x == (es[i].from, es[i].to);
        assert all[i] == es[i];
      }
      if !e.invalid && x == (e.from, e.to) {
        assert all[|es|] == e;
      }
    }
  }

  /** Adding an edge and removing it again restores the live edges, also when the same edge was
      there before. */
  lemma {:induction false} TestEdgeRestored(es: seq<Edge>, e: Edge)
    ensures LiveEdges((es + [e])[|es| := e.(invalid := true)]) == LiveEdges(es)
  {
    assert (es + [e])[|es| := e.(invalid := true)] == es + [e.(invalid := true)];
    LiveSnoc(es, e.(invalid := true));
  }

  /** A set of finished vertices: nothing leads out of it and no loop starts in it. */
  ghost predicate NoLoopInside(es: Edges, black: set<Id>) {
    && Closed(es, black)
    && forall v :: v in black ==> !LoopFrom(es, v)
  }

  /** The finished vertices are loop-free and every vertex on the stack reaches the current one. */
  ghost predicate SearchInvariant(es: Edges, black: set<Id>, grey: set<Id>, u: Id) {
    && NoLoopInside(es, black)
    && forall g :: g in grey ==> Reaches(es, g, u)
  }

  lemma {:induction false} BackEdge(es: Edges, grey: set<Id>, u: Id, v: Id)
    requires forall g :: g in grey ==> Reaches(es, g, u)
    requires (u, v) in es && v in grey + {u}
    ensures LoopFrom(es, u)
  {
    ReachesRefl(es, u);
    assert Reaches(es, v, u);
    EdgeThenReaches(es, u, v, u);
  }

  lemma {:induction false} ExtendStack(es: Edges, black: set<Id>, grey: set<Id>, u: Id, v: Id)
    requires SearchInvariant(es, black, grey, u) && (u, v) in es
    ensures SearchInvariant(es, black, grey + {u}, v)
  {
    EdgeReaches(es, u, v);
    ReachesRefl(es, u);
    forall g | g in grey + {u}
      ensures Reaches(es, g, v)
    {
      ReachesTrans(es, g, u, v);
    }
  }

  /** Once all successors of `u` are finished, so is `u`. */
  lemma {:induction false} Finish(es: Edges, black: set<Id>, u: Id)
    requires NoLoopInside(es, black)
    requires forall e :: e in es && e.0 == u ==> e.1 in black
    ensures NoLoopInside(es, black + {u})
  {
    if LoopFrom(es, u) {
      var v :| Reaches(es, u, v) && ReachesPlus(es, v, v);
      LoopMovesOn(es, u, v);
    }
  }

  /** A loop reachable from `u` is reachable from one of its successors. */
  lemma {:induction false} LoopMovesOn(es: Edges, u: Id, v: Id)
    requires Reaches(es, u, v) && ReachesPlus(es, v, v)
    ensures exists w :: (u, w) in es && LoopFrom(es, w)
  {
    var p :| IsPath(es, u, v, p);
    if |p| > 1 {
      assert ReachesPlus(es, u, v);
      var w := FirstEdge(es, u, v);
      assert LoopFrom(es, w);
    } else {
      var w := FirstEdge(es, u, u);
      assert LoopFrom(es, w);
    }
  }
}
