/** The check for loops of foreign keys: a depth-first search over the tables. */
module ForeignKeyGraph {
  import opened Schemas
  import Sets

  /** From each table to the tables that refer to it. */
  type Edges = map<Table, set<Table>>

  ghost function EdgesOf(s: Schema): Edges {
    map t | t in s.specs :: set f | f in s.foreignKeys && f.parentTable == t :: f.childTable
  }

  predicate HasEdge(e: Edges, u: Table, v: Table) { u in e && v in e[u] && v in e }

  /** n edges lead from u to v. */
  ghost predicate Path(e: Edges, u: Table, n: nat, v: Table)
    decreases n
  {
    if n == 0 then u == v else exists w :: Path(e, u, n - 1, w) && HasEdge(e, w, v)
  }

  ghost predicate Leads(e: Edges, u: Table, v: Table) {
    exists n: nat :: Path(e, u, n, v)
  }

  /** Some cycle goes through at least two tables. */
  ghost predicate HasCycle(e: Edges) {
    exists u, v :: u != v && Leads(e, u, v) && Leads(e, v, u)
  }

  // ---------- The order in which tables are finished ----------

  ghost predicate Once(l: seq<Table>) {
    forall i, j :: 0 <= i < j < |l| ==> l[i] != l[j]
  }

  /** A table is finished after all tables that refer to it. */
  ghost predicate ChildrenFirst(e: Edges, finished: seq<Table>) {
    && Once(finished)
    && forall p, c :: 0 <= p < |finished| && HasEdge(e, finished[p], c) && c != finished[p] ==> c in finished[..p]
  }

  lemma FinishedPush(e: Edges, finished: seq<Table>, t: Table)
    requires ChildrenFirst(e, finished) && t !in finished
    requires forall c :: HasEdge(e, t, c) && c != t ==> c in finished
    ensures ChildrenFirst(e, finished + [t])
  {
    var next := finished + [t];
    forall p, c | 0 <= p < |next| && HasEdge(e, next[p], c) && c != next[p] ensures c in next[..p] {
      assert next[..p] == finished[..p];
      if p == |finished| { assert finished[..p] == finished; }
    }
  }

  lemma {:induction false} PathGoesBack(e: Edges, finished: seq<Table>, i: nat, n: nat, v: Table) returns (j: nat)
    requires ChildrenFirst(e, finished) && i < |finished| && Path(e, finished[i], n, v)
    ensures j <= i && finished[j] == v
    decreases n
  {
    if n == 0 {
      j := i;
    } else {
      var w :| Path(e, finished[i], n - 1, w) && HasEdge(e, w, v);
      var k := PathGoesBack(e, finished, i, n - 1, w);
      if v == w { j := k; } else { j :| 0 <= j < k && finished[..k][j] == v; }
    }
  }

  lemma {:induction false} StartsInGraph(e: Edges, u: Table, n: nat, v: Table)
    requires n > 0 && Path(e, u, n, v)
    ensures u in e
    decreases n
  {
    var w :| Path(e, u, n - 1, w) && HasEdge(e, w, v);
    if n > 1 { StartsInGraph(e, u, n - 1, w); }
  }

  lemma AllFinishedNoCycle(e: Edges, finished: seq<Table>)
    requires ChildrenFirst(e, finished) && forall t :: t in e ==> t in finished
    ensures !HasCycle(e)
  {
    forall u, v | u != v && Leads(e, u, v) && Leads(e, v, u) ensures false {
      var n: nat :| Path(e, u, n, v);
      var m: nat :| Path(e, v, m, u);
      StartsInGraph(e, u, n, v);
      var i :| 0 <= i < |finished| && finished[i] == u;
      var j := PathGoesBack(e, finished, i, n, v);
      var k := PathGoesBack(e, finished, j, m, u);
      assert false;
    }
  }

  // ---------- The tables on the stack ----------

  ghost predicate IsStack(e: Edges, stack: seq<Table>) {
    && Once(stack)
    && forall k :: 0 <= k < |stack| - 1 ==> HasEdge(e, stack[k], stack[k + 1])
  }

  lemma StackPush(e: Edges, stack: seq<Table>, t: Table)
    requires IsStack(e, stack) && t !in stack && (stack != [] ==> HasEdge(e, stack[|stack| - 1], t))
    ensures IsStack(e, stack + [t])
  {
  }

  lemma {:induction false} StackPath(e: Edges, stack: seq<Table>, k: nat, l: nat)
    requires IsStack(e, stack) && k <= l < |stack|
    ensures Path(e, stack[k], l - k, stack[l])
    decreases l - k
  {
    if k < l {
      StackPath(e, stack, k, l - 1);
      assert HasEdge(e, stack[l - 1], stack[l - 1 + 1]);
    }
  }

  /** An edge from the top of the stack back into the stack closes a cycle. */
  lemma BackEdge(e: Edges, stack: seq<Table>, c: Table)
    requires IsStack(e, stack) && stack != [] && c in stack && c != stack[|stack| - 1] && HasEdge(e, stack[|stack| - 1], c)
    ensures HasCycle(e)
  {
    var top := stack[|stack| - 1];
    var k :| 0 <= k < |stack| && stack[k] == c;
    StackPath(e, stack, k, |stack| - 1);
    assert Leads(e, c, top);
    assert Path(e, top, 0, top);
    assert Path(e, top, 1, c);
  }

  // ---------- The search ----------

  class GraphNode {
    const name: Table
    var visited: bool
    var onStack: bool
    var edges: set<Table>

    constructor (name: Table)
      ensures this.name == name && !visited && !onStack && edges == {}
    {
      this.name, visited, onStack, edges := name, false, false, {};
    }
  }

  type NodeMap = map<Table, GraphNode>

  ghost predicate IsGraph(nodeMap: NodeMap, e: Edges)
    reads nodeMap.Values
  {
    && nodeMap.Keys == e.Keys
    && (forall t :: t in nodeMap ==> nodeMap[t].name == t && nodeMap[t].edges == e[t])
  }

  ghost predicate Marked(nodeMap: NodeMap, finished: seq<Table>, stack: seq<Table>)
    reads nodeMap.Values
  {
    && (forall t :: t in nodeMap ==> (nodeMap[t].onStack <==> t in stack))
    && (forall t :: t in nodeMap ==> (nodeMap[t].visited <==> t in stack || t in finished))
    && (forall t :: t in stack ==> t !in finished)
  }

  ghost function Unvisited(nodeMap: NodeMap): set<Table>
    reads nodeMap.Values
  {
    set t | t in nodeMap && !nodeMap[t].visited
  }

  /** False when a loop is found. */
  method CheckCycleUtil(graphNode: GraphNode, nodeMap: NodeMap, ghost e: Edges, ghost finished: seq<Table>, ghost stack: seq<Table>)
    returns (ok: bool, ghost after: seq<Table>)
    requires graphNode.name in nodeMap && nodeMap[graphNode.name] == graphNode
    requires IsGraph(nodeMap, e) && Marked(nodeMap, finished, stack) && ChildrenFirst(e, finished) && IsStack(e, stack)
    requires stack != [] ==> !graphNode.visited && HasEdge(e, stack[|stack| - 1], graphNode.name)
    modifies nodeMap.Values
    ensures IsGraph(nodeMap, e)
    ensures !ok ==> HasCycle(e)
    ensures ok ==> Marked(nodeMap, after, stack) && ChildrenFirst(e, after)
    ensures forall t :: t in nodeMap && old(nodeMap[t].visited) ==> nodeMap[t].visited
    ensures ok ==> graphNode.name in after && forall t :: t in finished ==> t in after
    decreases Unvisited(nodeMap), 0
  {
    hide ChildrenFirst, IsStack, HasCycle, HasEdge;
    after := finished;
    if !graphNode.visited {
      ghost var t := graphNode.name;
      graphNode.visited := true;
      graphNode.onStack := true;
      StackPush(e, stack, t);
      assert Unvisited(nodeMap) == old(Unvisited(nodeMap)) - {t};
      ok, after := CheckChildren(graphNode, nodeMap, e, finished, stack + [t]);
      if !ok { return; }
      FinishedPush(e, after, t);
      after := after + [t];
    }
    graphNode.onStack := false;
    ok := true;
  }

  method CheckChildren(graphNode: GraphNode, nodeMap: NodeMap, ghost e: Edges, ghost finished: seq<Table>, ghost path: seq<Table>)
    returns (ok: bool, ghost after: seq<Table>)
    requires graphNode.name in nodeMap && nodeMap[graphNode.name] == graphNode
    requires IsGraph(nodeMap, e) && Marked(nodeMap, finished, path) && ChildrenFirst(e, finished) && IsStack(e, path)
    requires path != [] && path[|path| - 1] == graphNode.name
    modifies nodeMap.Values
    ensures IsGraph(nodeMap, e)
    ensures !ok ==> HasCycle(e)
    ensures ok ==> Marked(nodeMap, after, path) && ChildrenFirst(e, after)
    ensures forall t :: t in nodeMap && old(nodeMap[t].visited) ==> nodeMap[t].visited
    ensures ok ==> (forall t :: t in finished ==> t in after) && forall c :: HasEdge(e, graphNode.name, c) && c != graphNode.name ==> c in after
    decreases Unvisited(nodeMap), 1
  {
    hide ChildrenFirst, IsStack, HasCycle, HasEdge;
    after := finished;
    ghost var t := graphNode.name;
    EdgeIsChild(nodeMap, e, t);
    var children := Sets.InSomeOrder(graphNode.edges);
    for i := 0 to |children|
      invariant IsGraph(nodeMap, e) && Marked(nodeMap, after, path) && ChildrenFirst(e, after)
      invariant forall x :: x in finished ==> x in after
      invariant forall x :: x in nodeMap && old(nodeMap[x].visited) ==> nodeMap[x].visited
      invariant forall k :: 0 <= k < i && HasEdge(e, t, children[k]) && children[k] != t ==> children[k] in after
    {
      assert children[i] in children;
      if children[i] in nodeMap {
        var childNode := nodeMap[children[i]];
        if !childNode.visited {
          assert Unvisited(nodeMap) <= old(Unvisited(nodeMap));
          ok, after := CheckCycleUtil(childNode, nodeMap, e, after, path);
          if !ok { return; }
        } else if childNode.onStack {
          if graphNode != childNode {
            BackEdge(e, path, children[i]);
            return false, after;
          }
        }
      }
    }
    ok := true;
  }

  lemma EdgeIsChild(nodeMap: NodeMap, e: Edges, t: Table)
    requires IsGraph(nodeMap, e) && t in nodeMap
    ensures forall c :: HasEdge(e, t, c) <==> c in nodeMap[t].edges && c in nodeMap
  {
  }

  /** The builder's check; if it passes and no table refers to itself, child tables can be ranked below
      their parents. */
  method CheckFkCycle(s: Schema) returns (ok: bool, ghost rank: map<Table, nat>)
    requires SchemaOk(s)
    ensures ok <==> !HasCycle(EdgesOf(s))
    ensures ok && (forall f :: f in s.foreignKeys ==> f.childTable != f.parentTable) ==> Ranked(s, rank)
  {
    hide ChildrenFirst, HasCycle, Ranked;
    var nodeMap := BuildGraph(s);
    NoneFinished(EdgesOf(s));
    ghost var e := EdgesOf(s);
    var tables := Sets.InSomeOrder(nodeMap.Keys);
    ghost var finished := [];
    for i := 0 to |tables|
      invariant IsGraph(nodeMap, e) && Marked(nodeMap, finished, []) && ChildrenFirst(e, finished)
      invariant forall k :: 0 <= k < i ==> tables[k] in finished
      invariant fresh(nodeMap.Values)
    {
      assert tables[i] in tables;
      ok, finished := CheckCycleUtil(nodeMap[tables[i]], nodeMap, e, finished, []);
      if !ok { return false, map[]; }
    }
    forall t | t in e ensures t in finished { assert t in tables; }
    AllFinishedNoCycle(e, finished);
    ok := true;
    rank := Positions(e, finished);
    if forall f :: f in s.foreignKeys ==> f.childTable != f.parentTable { FinishedRanks(s, finished); }
  }

  lemma NoneFinished(e: Edges)
    ensures ChildrenFirst(e, []) && IsStack(e, [])
  {
  }

  method BuildGraph(s: Schema) returns (nodeMap: NodeMap)
    requires SchemaOk(s)
    ensures IsGraph(nodeMap, EdgesOf(s)) && Marked(nodeMap, [], []) && fresh(nodeMap.Values)
  {
    nodeMap := map[];
    var tables := Sets.InSomeOrder(s.specs.Keys);
    for i := 0 to |tables|
      invariant forall t :: t in nodeMap <==> t in tables[..i]
      invariant forall t :: t in nodeMap ==> fresh(nodeMap[t]) && nodeMap[t].name == t && !nodeMap[t].visited && !nodeMap[t].onStack && nodeMap[t].edges == {}
    {
      var node := new GraphNode(tables[i]);
      nodeMap := nodeMap[tables[i] := node];
      assert tables[..i + 1] == tables[..i] + [tables[i]];
    }
    assert tables[..|tables|] == tables;
    for i := 0 to |s.foreignKeys|
      invariant nodeMap.Keys == s.specs.Keys
      invariant forall t :: t in nodeMap ==> fresh(nodeMap[t]) && nodeMap[t].name == t && !nodeMap[t].visited && !nodeMap[t].onStack
      invariant forall t, c :: t in nodeMap ==> (c in nodeMap[t].edges <==> exists k :: 0 <= k < i && s.foreignKeys[k].parentTable == t && s.foreignKeys[k].childTable == c)
    {
      var f := s.foreignKeys[i];
      assert f in s.foreignKeys;
      var parentNode := nodeMap[f.parentTable];
      parentNode.edges := parentNode.edges + {f.childTable};
    }
    forall t | t in nodeMap ensures nodeMap[t].edges == EdgesOf(s)[t] {
      forall c ensures c in nodeMap[t].edges <==> c in EdgesOf(s)[t] {
      }
    }
  }

  ghost function Positions(e: Edges, finished: seq<Table>): map<Table, nat>
    requires ChildrenFirst(e, finished)
  {
    map p | 0 <= p < |finished| :: finished[p] := p
  }

  lemma FinishedRanks(s: Schema, finished: seq<Table>)
    requires SchemaOk(s) && ChildrenFirst(EdgesOf(s), finished) && forall t :: t in s.specs ==> t in finished
    requires forall f :: f in s.foreignKeys ==> f.childTable != f.parentTable
    ensures Ranked(s, Positions(EdgesOf(s), finished))
  {
    var rank := Positions(EdgesOf(s), finished);
    forall f | f in s.foreignKeys
      ensures f.childTable in rank && f.parentTable in rank && rank[f.childTable] < rank[f.parentTable]
    {
      assert HasEdge(EdgesOf(s), f.parentTable, f.childTable);
      var p :| 0 <= p < |finished| && finished[p] == f.parentTable;
      var q :| 0 <= q < p && finished[..p][q] == f.childTable;
      assert finished[q] == f.childTable;
    }
  }

  /** Conversely, tables that can be ranked have no loop. */
  lemma RankedHasNoCycle(s: Schema, rank: map<Table, nat>)
    requires Ranked(s, rank)
    ensures !HasCycle(EdgesOf(s))
  {
    forall u, v | u != v && Leads(EdgesOf(s), u, v) && Leads(EdgesOf(s), v, u) ensures false {
      var n: nat :| Path(EdgesOf(s), u, n, v);
      var m: nat :| Path(EdgesOf(s), v, m, u);
      PathSinks(s, rank, u, n, v);
      PathSinks(s, rank, v, m, u);
    }
  }

  lemma {:induction false} PathSinks(s: Schema, rank: map<Table, nat>, u: Table, n: nat, v: Table)
    requires Ranked(s, rank) && Path(EdgesOf(s), u, n, v)
    ensures n > 0 ==> u in rank && v in rank && rank[v] < rank[u]
    ensures n == 0 ==> u == v
    decreases n
  {
    if n > 0 {
      var w :| Path(EdgesOf(s), u, n - 1, w) && HasEdge(EdgesOf(s), w, v);
      PathSinks(s, rank, u, n - 1, w);
    }
  }
}
