/** The graph of graph.java: a list of vertices, each holding a value and the
    list of its neighbours' indices.  Both lists are represented by their
    contents, a sequence; an edge only ever appends to them. */
module AdjacencyGraph {
  import opened Failures
  import opened ArrayList

  datatype Vertex<T> = Vertex(value: T, neighbors: seq<int>)

  /** Every neighbour index names a vertex of `vs`. */
  ghost predicate Closed<T>(vs: seq<Vertex<T>>)
  {
    forall v, j :: 0 <= v < |vs| && 0 <= j < |vs[v].neighbors| ==> 0 <= vs[v].neighbors[j] < |vs|
  }

  /** The vertices after `x` is appended to the neighbours of vertex `v`. */
  function AppendNeighbor<T>(vs: seq<Vertex<T>>, v: nat, x: int): (r: seq<Vertex<T>>)
    requires v < |vs|
    ensures |r| == |vs|
  {
    vs[v := vs[v].(neighbors := vs[v].neighbors + [x])]
  }

  /** The vertices after addEdge(f, t): `t` joins the neighbours of `f`
      and, in an undirected graph, `f` then joins those of `t`. */
  function WithEdge<T>(vs: seq<Vertex<T>>, directed: bool, f: nat, t: nat): (r: seq<Vertex<T>>)
    requires f < |vs| && t < |vs|
    ensures |r| == |vs|
  {
    var once := AppendNeighbor(vs, f, t);
    if directed then once else AppendNeighbor(once, t, f)
  }

  /** An edge keeps every value and only appends to the lists of its end
      points: `t` to that of `f`, and in an undirected graph `f` to that of
      `t`, so that a self-loop appends `f` twice to the same list. */
  lemma EdgeNeighbors<T>(vs: seq<Vertex<T>>, directed: bool, f: nat, t: nat, v: nat)
    requires f < |vs| && t < |vs| && v < |vs|
    ensures WithEdge(vs, directed, f, t)[v].value == vs[v].value
    ensures WithEdge(vs, directed, f, t)[v].neighbors ==
              vs[v].neighbors + (if v == f then [t] else []) + (if !directed && v == t then [f] else [])
  {
    var once := AppendNeighbor(vs, f, t);
    assert once[v].neighbors == vs[v].neighbors + (if v == f then [t] else []);
    if !directed && v == t {
      if v == f {
        assert (vs[v].neighbors + [t]) + [f] == vs[v].neighbors + [t] + [f];
      } else {
        assert vs[v].neighbors + [] == vs[v].neighbors;
      }
    } else if v != f {
      assert vs[v].neighbors + [] + [] == vs[v].neighbors;
    }
  }

  /** An edge between existing vertices keeps every neighbour index valid. */
  lemma EdgeKeepsClosed<T>(vs: seq<Vertex<T>>, directed: bool, f: nat, t: nat)
    requires Closed(vs) && f < |vs| && t < |vs|
    ensures Closed(WithEdge(vs, directed, f, t))
  {
    var r := WithEdge(vs, directed, f, t);
    forall v, j | 0 <= v < |r| && 0 <= j < |r[v].neighbors|
      ensures 0 <= r[v].neighbors[j] < |r|
    {
      EdgeNeighbors(vs, directed, f, t, v);
      if j >= |vs[v].neighbors| {
        var extra := (if v == f then [t] else []) + (if !directed && v == t then [f] else []);
        assert r[v].neighbors == vs[v].neighbors + extra;
        assert r[v].neighbors[j] == extra[j - |vs[v].neighbors|];
      }
    }
  }

  class Graph<T> {
    const directed: bool
    var vertices: seq<Vertex<T>>

    ghost predicate Valid()
      reads this
    {
      Closed(vertices)
    }

    constructor(directed: bool)
      ensures Valid()
      ensures this.directed == directed && vertices == []
    {
      this.directed := directed;
      vertices := [];
    }

    /** Appends a vertex holding `value` with no neighbours and returns its
        index; throws for a null value. */
    method AddVertex(value: Option<T>) returns (r: Result<nat>)
      requires Valid()
      modifies this
      ensures Valid()
      ensures value.None? ==> r == Err(NullValue) && vertices == old(vertices)
      ensures value.Some? ==> r == Ok(|old(vertices)|) && vertices == old(vertices) + [Vertex(value.value, [])]
    {
      if value.None? {
        return Err(NullValue);
      }
      vertices := vertices + [Vertex(value.value, [])];
      r := Ok(|vertices| - 1);
    }

    /** Passes exactly for the index of an existing vertex. */
    method CheckIndex(index: int) returns (r: Outcome)
      ensures r.Pass? <==> 0 <= index < |vertices|
      ensures r.Fail? ==> r.error == IndexOutOfRange(index)
    {
      if index < 0 || index >= |vertices| {
        return Fail(IndexOutOfRange(index));
      }
      r := Pass;
    }

    /** Adds the edge from `fromIndex` to `toIndex`, checking `fromIndex`
        first; an invalid index throws before anything changes. */
    method AddEdge(fromIndex: int, toIndex: int) returns (r: Outcome)
      requires Valid()
      modifies this
      ensures Valid()
      ensures !(0 <= fromIndex < |old(vertices)|) ==>
                r == Fail(IndexOutOfRange(fromIndex)) && vertices == old(vertices)
      ensures 0 <= fromIndex < |old(vertices)| && !(0 <= toIndex < |old(vertices)|) ==>
                r == Fail(IndexOutOfRange(toIndex)) && vertices == old(vertices)
      ensures 0 <= fromIndex < |old(vertices)| && 0 <= toIndex < |old(vertices)| ==>
                r == Pass && vertices == WithEdge(old(vertices), directed, fromIndex, toIndex)
    {
      var check := CheckIndex(fromIndex);
      if check.Fail? {
        return check;
      }
      check := CheckIndex(toIndex);
      if check.Fail? {
        return check;
      }
      EdgeKeepsClosed(vertices, directed, fromIndex, toIndex);
      vertices := AppendNeighbor(vertices, fromIndex, toIndex);
      if !directed {
        vertices := AppendNeighbor(vertices, toIndex, fromIndex);
      }
      r := Pass;
    }

    /** The value of vertex `index`; throws for an index outside the graph. */
    method GetVertexValue(index: int) returns (r: Result<T>)
      ensures 0 <= index < |vertices| ==> r == Ok(vertices[index].value)
      ensures !(0 <= index < |vertices|) ==> r == Err(IndexOutOfRange(index))
    {
      var check := CheckIndex(index);
      if check.Fail? {
        return Err(check.error);
      }
      r := Ok(vertices[index].value);
    }

    /** The neighbour indices of vertex `index`, in the order the edges were
        added; throws for an index outside the graph. */
    method GetNeighbors(index: int) returns (r: Result<seq<int>>)
      ensures 0 <= index < |vertices| ==> r == Ok(vertices[index].neighbors)
      ensures !(0 <= index < |vertices|) ==> r == Err(IndexOutOfRange(index))
    {
      var check := CheckIndex(index);
      if check.Fail? {
        return Err(check.error);
      }
      r := Ok(vertices[index].neighbors);
    }

    /** A new list holding, for each neighbour index of vertex `index` in
        order, the value of that neighbour; throws for an index outside the
        graph. */
    method GetNeighborValues(index: int) returns (r: Result<MyArrayList<T>>)
      requires Valid()
      ensures !(0 <= index < |vertices|) ==> r == Err(IndexOutOfRange(index))
      ensures 0 <= index < |vertices| ==>
                r.Ok? && fresh(r.value) && fresh(r.value.Repr) && r.value.Valid() &&
                var ns := vertices[index].neighbors;
                |r.value.Contents| == |ns| &&
                forall j :: 0 <= j < |ns| ==> r.value.Contents[j] == vertices[ns[j]].value
    {
      var check := CheckIndex(index);
      if check.Fail? {
        return Err(check.error);
      }
      var v := vertices[index];
      var result := new MyArrayList<T>();
      for i := 0 to |v.neighbors|
        invariant result.Valid() && fresh(result.Repr)
        invariant |result.Contents| == i
        invariant forall j :: 0 <= j < i ==> result.Contents[j] == vertices[v.neighbors[j]].value
      {
        var ni := v.neighbors[i];
        result.Add(vertices[ni].value);
      }
      r := Ok(result);
    }

    method VertexCount() returns (n: nat)
      ensures n == |vertices|
    {
      n := |vertices|;
    }
  }

  /** The demo of graph.java: an undirected graph A, B, C with edges A-B and
      A-C. */
  method GraphScenario()
  {
    var g := new Graph<string>(false);
    var a := g.AddVertex(Some("A"));
    var b := g.AddVertex(Some("B"));
    var c := g.AddVertex(Some("C"));
    assert a == Ok(0) && b == Ok(1) && c == Ok(2);
    var e := g.AddEdge(0, 1);
    assert [1] == [] + [1] && [0] == [] + [0];
    assert g.vertices == [Vertex("A", [1]), Vertex("B", [0]), Vertex("C", [])];
    e := g.AddEdge(0, 2);
    assert e == Pass;
    assert [1, 2] == [1] + [2];
    assert g.vertices == [Vertex("A", [1, 2]), Vertex("B", [0]), Vertex("C", [0])];
    var n := g.VertexCount();
    assert n == 3;
    var ns := g.GetNeighbors(0);
    assert ns == Ok([1, 2]);
    var vs := g.GetNeighborValues(0);
    assert vs.Ok? && vs.value.Contents == ["B", "C"];
    var bad := g.AddEdge(0, 3);
    assert bad == Fail(IndexOutOfRange(3));
  }
}
