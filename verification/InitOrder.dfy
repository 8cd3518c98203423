/** The order in which the kernel calls its initialisation functions (kernel/util/init.c): each after
    the functions it depends on, found by a depth-first search that marks what it visits. */
module InitOrder {
  import opened Lists

  datatype Func = Func(name: string, deps: seq<string>)

  /** The first function with the name, or the number of functions. */
  function Find(funcs: seq<Func>, name: string): (k: nat)
    ensures k <= |funcs| && (k < |funcs| ==> funcs[k].name == name)
    ensures forall i :: 0 <= i < k ==> funcs[i].name != name
  {
    if funcs == [] then 0 else if funcs[0].name == name then 0 else 1 + Find(funcs[1..], name)
  }

  /** Function `i` depends on function `j`. */
  ghost predicate DependsOn(funcs: seq<Func>, i: nat, j: nat) {
    i < |funcs| && j < |funcs| && exists d :: 0 <= d < |funcs[i].deps| && Find(funcs, funcs[i].deps[d]) == j
  }

  /** All dependencies of function `i` exist and are in `before`. */
  ghost predicate Met(funcs: seq<Func>, i: nat, before: seq<nat>) {
    i < |funcs| && forall d :: 0 <= d < |funcs[i].deps| ==> Find(funcs, funcs[i].deps[d]) in before
  }

  /** The calls so far: each function at most once, and after its dependencies. */
  ghost predicate InOrder(funcs: seq<Func>, order: seq<nat>) {
    && NoDup(order) && (forall i :: i in order ==> i < |funcs|)
    && forall k :: 0 <= k < |order| ==> Met(funcs, order[k], order[..k])
  }

  lemma CallInOrder(funcs: seq<Func>, order: seq<nat>, i: nat)
    requires InOrder(funcs, order) && i !in order && Met(funcs, i, order)
    ensures InOrder(funcs, order + [i])
  {
    assert i < |funcs|;
    hide Met;
    NoDupCons(order, i);
    var order' := order + [i];
    forall k | 0 <= k < |order'|
      ensures Met(funcs, order'[k], order'[..k])
    {
      if k < |order| { assert order'[..k] == order[..k]; } else { assert order'[..k] == order; }
    }
  }

  /** Dependency number `e` of function `x` is function `j`. */
  ghost predicate Edge(funcs: seq<Func>, x: nat, e: nat, j: nat) {
    x < |funcs| && e < |funcs[x].deps| && Find(funcs, funcs[x].deps[e]) == j
  }

  ghost predicate Reached(funcs: seq<Func>, root: nat, j: nat) {
    exists p :: Path(funcs, p) && |p| >= 1 && p[0] == root && p[|p| - 1] == j
  }

  // ----- when the calling loop panics -----

  /** Of the functions that need `j`, themselves included, `r` is the first: `j` is its to call. */
  ghost predicate Leads(funcs: seq<Func>, r: nat, j: nat) {
    r < |funcs| && j < |funcs| && Reached(funcs, r, j) && forall q: nat :: q < r ==> !Reached(funcs, q, j)
  }

  /** A dependency that is no function's name. */
  ghost predicate Missing(funcs: seq<Func>) {
    exists x, e :: Edge(funcs, x, e, |funcs|)
  }

  /** Two dependencies on one function, all three functions with the same leader. */
  ghost predicate TwoWays(funcs: seq<Func>, r: nat, x: nat, e: nat, y: nat, d: nat, j: nat) {
    && Edge(funcs, x, e, j) && Edge(funcs, y, d, j) && (x, e) != (y, d)
    && Leads(funcs, r, x) && Leads(funcs, r, y) && Leads(funcs, r, j)
  }

  /** A dependency on the leader of the function that has it. */
  ghost predicate WayBack(funcs: seq<Func>, r: nat, x: nat, e: nat) {
    Edge(funcs, x, e, r) && Leads(funcs, r, x)
  }

  ghost predicate Clash(funcs: seq<Func>) {
    (exists r, x, e, y, d, j :: TwoWays(funcs, r, x, e, y, d, j)) || exists r, x, e :: WayBack(funcs, r, x, e)
  }

  /** Two dependencies on the same function. */
  ghost predicate Shared(funcs: seq<Func>) {
    exists x, e, y, d, j :: Edge(funcs, x, e, j) && Edge(funcs, y, d, j) && (x, e) != (y, d)
  }

  /** Without a cycle, and with no function needed twice, there is no clash. */
  lemma ClashShares(funcs: seq<Func>)
    requires Clash(funcs)
    ensures Shared(funcs) || !Acyclic(funcs)
  {
    hide Path;
    if r, x, e, y, d, j :| TwoWays(funcs, r, x, e, y, d, j) {
      assert Edge(funcs, x, e, j) && Edge(funcs, y, d, j) && (x, e) != (y, d);
    } else {
      var r, x, e :| WayBack(funcs, r, x, e);
      var p :| Path(funcs, p) && |p| >= 1 && p[0] == r && p[|p| - 1] == x;
      assert DependsOn(funcs, x, r);
      PathOn(funcs, p, r);
      assert Path(funcs, p + [r]) && |p + [r]| >= 2 && (p + [r])[0] == (p + [r])[|p + [r]| - 1];
    }
  }

  lemma PathOn(funcs: seq<Func>, p: seq<nat>, f: nat)
    requires Path(funcs, p) && |p| >= 1 && DependsOn(funcs, p[|p| - 1], f)
    ensures Path(funcs, p + [f])
  {
    var q := p + [f];
    forall k | 0 <= k < |q| - 1
      ensures DependsOn(funcs, q[k], q[k + 1])
    {
      if k < |p| - 1 { assert DependsOn(funcs, p[k], p[k + 1]); }
    }
  }

  lemma ReachedOn(funcs: seq<Func>, r: nat, i: nat, d: nat, f: nat)
    requires Reached(funcs, r, i) && Edge(funcs, i, d, f) && f < |funcs|
    ensures Reached(funcs, r, f)
  {
    hide Path;
    var p :| Path(funcs, p) && |p| >= 1 && p[0] == r && p[|p| - 1] == i;
    assert DependsOn(funcs, i, f);
    PathOn(funcs, p, f);
    assert Path(funcs, p + [f]) && (p + [f])[0] == r && (p + [f])[|p + [f]| - 1] == f;
  }

  lemma ReachedSelf(funcs: seq<Func>, r: nat)
    ensures Reached(funcs, r, r)
  {
    var p := [r];
    assert Path(funcs, p) && p[0] == r && p[|p| - 1] == r;
  }

  /** What a called function needs has been called. */
  lemma CalledReach(funcs: seq<Func>, order: seq<nat>, q: nat, j: nat)
    requires InOrder(funcs, order) && q in order && Reached(funcs, q, j)
    ensures j in order
  {
    hide Path, InOrder;
    var p :| Path(funcs, p) && |p| >= 1 && p[0] == q && p[|p| - 1] == j;
    if |p| >= 2 {
      var k := Position(order, q);
      PathBackwards(funcs, order, p, k);
    }
  }

  /** Nothing called needs what is not called, so with all before `r` called, `r` leads what it reaches. */
  lemma LeadsUncalled(funcs: seq<Func>, order: seq<nat>, r: nat, j: nat)
    requires InOrder(funcs, order) && r < |funcs| && j < |funcs| && j !in order && Reached(funcs, r, j)
    requires forall q: nat :: q < r ==> q in order
    ensures Leads(funcs, r, j)
  {
    hide InOrder, Reached;
    forall q: nat | q < r
      ensures !Reached(funcs, q, j)
    {
      if Reached(funcs, q, j) { CalledReach(funcs, order, q, j); }
    }
  }

  // ----- the marks, the searches that made them and the dependencies examined -----

  /** Each search marks what its root leads. */
  ghost predicate Led(funcs: seq<Func>, search: seq<nat>, roots: map<nat, nat>) {
    && |search| == |funcs| && 0 !in roots
    && (forall m :: m in roots ==> roots[m] < |funcs| && search[roots[m]] == m)
    && (forall j :: 0 <= j < |search| && search[j] != 0 ==> search[j] in roots && Leads(funcs, roots[search[j]], j))
  }

  /** Dependencies are examined from marked functions and lead to marked functions; all those of a
      called function have been examined. */
  ghost predicate Examined(funcs: seq<Func>, search: seq<nat>, called: seq<bool>, edges: set<(nat, nat)>) {
    && |search| == |called| == |funcs|
    && (forall j :: 0 <= j < |called| && called[j] ==> search[j] != 0)
    && (forall x, e :: (x, e) in edges ==> x < |search| && search[x] != 0)
    && (forall x: nat, e: nat, j: nat :: (x, e) in edges && Edge(funcs, x, e, j) ==> j < |search| && search[j] != 0)
    && (forall x, e :: 0 <= x < |called| && called[x] && 0 <= e < |funcs[x].deps| ==> (x, e) in edges)
  }

  /** The dependency lies within one search. */
  ghost predicate Within(funcs: seq<Func>, search: seq<nat>, edges: set<(nat, nat)>, x: nat, e: nat, j: nat) {
    (x, e) in edges && Edge(funcs, x, e, j) && x < |search| && j < |search| && search[x] == search[j]
  }

  /** Within each search the examined dependencies are a tree from its root. */
  ghost predicate Tree(funcs: seq<Func>, search: seq<nat>, edges: set<(nat, nat)>, roots: map<nat, nat>) {
    && (forall j :: 0 <= j < |search| && search[j] in roots && roots[search[j]] != j ==>
         Entered(funcs, search, edges, j))
    && (forall x: nat, e: nat, y: nat, d: nat, j: nat ::
          Within(funcs, search, edges, x, e, j) && Within(funcs, search, edges, y, d, j) ==> (x, e) == (y, d))
    && (forall x: nat, e: nat, j: nat :: Within(funcs, search, edges, x, e, j) && search[j] in roots ==>
         roots[search[j]] != j)
  }

  ghost predicate Entered(funcs: seq<Func>, search: seq<nat>, edges: set<(nat, nat)>, j: nat) {
    exists x, e :: Within(funcs, search, edges, x, e, j)
  }

  ghost predicate Explored(funcs: seq<Func>, search: seq<nat>, called: seq<bool>, edges: set<(nat, nat)>,
                           roots: map<nat, nat>) {
    Led(funcs, search, roots) && Examined(funcs, search, called, edges) && Tree(funcs, search, edges, roots)
  }

  lemma ExploredStart(funcs: seq<Func>, search: seq<nat>, called: seq<bool>)
    requires |search| == |called| == |funcs| && forall j :: 0 <= j < |funcs| ==> search[j] == 0 && !called[j]
    ensures Explored(funcs, search, called, {}, map[])
  {
  }

  /** A new search from `r`. */
  lemma ExploredRoot(funcs: seq<Func>, search: seq<nat>, called: seq<bool>, edges: set<(nat, nat)>,
                     roots: map<nat, nat>, r: nat, mark: nat)
    requires Explored(funcs, search, called, edges, roots) && r < |search| && search[r] == 0
    requires mark != 0 && mark !in roots && Leads(funcs, r, r)
    ensures Explored(funcs, search[r := mark], called, edges, roots[mark := r])
  {
    hide Leads, Edge;
    var search', roots' := search[r := mark], roots[mark := r];
    assert Led(funcs, search', roots');
    assert Examined(funcs, search', called, edges);
    assert forall j :: 0 <= j < |search| && search[j] == mark ==> false;
    TreeMarks(funcs, search, search', edges, roots, roots', r);
  }

  /** A mark on a function that no examined dependency is on leaves the tree as it is. */
  lemma TreeMarks(funcs: seq<Func>, search: seq<nat>, search': seq<nat>, edges: set<(nat, nat)>,
                  roots: map<nat, nat>, roots': map<nat, nat>, r: nat)
    requires Tree(funcs, search, edges, roots) && |search'| == |search| && r < |search|
    requires forall j :: 0 <= j < |search| && j != r ==> search'[j] == search[j]
    requires forall j :: 0 <= j < |search| && j != r ==> (search[j] in roots <==> search[j] in roots')
    requires forall m :: m in roots && m in roots' ==> roots'[m] == roots[m]
    requires forall x, e :: (x, e) in edges ==> x != r && !Edge(funcs, x, e, r)
    requires search'[r] in roots' && roots'[search'[r]] == r
    ensures Tree(funcs, search', edges, roots')
  {
    hide Edge;
    forall x: nat, e: nat, j: nat
      ensures Within(funcs, search', edges, x, e, j) <==> Within(funcs, search, edges, x, e, j)
    {
    }
    forall j | 0 <= j < |search'| && search'[j] in roots' && roots'[search'[j]] != j
      ensures Entered(funcs, search', edges, j)
    {
      var x, e :| Within(funcs, search, edges, x, e, j);
      assert Within(funcs, search', edges, x, e, j);
    }
  }

  /** Function `i` has the first dependency on `f`. */
  lemma ExploredMark(funcs: seq<Func>, search: seq<nat>, called: seq<bool>, edges: set<(nat, nat)>,
                     roots: map<nat, nat>, i: nat, d: nat, f: nat)
    requires Explored(funcs, search, called, edges, roots) && i < |search| && search[i] != 0 && f < |search|
             && search[f] == 0
    requires Edge(funcs, i, d, f) && Leads(funcs, roots[search[i]], f)
    ensures Explored(funcs, search[f := search[i]], called, edges + {(i, d)}, roots)
  {
    hide Leads;
    var search', edges' := search[f := search[i]], edges + {(i, d)};
    assert Led(funcs, search', roots);
    assert Examined(funcs, search', called, edges') by {
      forall x: nat, e: nat, j: nat | (x, e) in edges' && Edge(funcs, x, e, j)
        ensures j < |search'| && search'[j] != 0
      {
      }
    }
    TreeGrows(funcs, search, edges, roots, i, d, f);
  }

  lemma TreeGrows(funcs: seq<Func>, search: seq<nat>, edges: set<(nat, nat)>, roots: map<nat, nat>, i: nat, d: nat,
                  f: nat)
    requires Tree(funcs, search, edges, roots) && i < |search| && f < |search| && search[f] == 0 && search[i] != 0
    requires search[i] in roots && roots[search[i]] != f && Edge(funcs, i, d, f)
    requires forall x, e :: (x, e) in edges ==> x != f && !Edge(funcs, x, e, f)
    ensures Tree(funcs, search[f := search[i]], edges + {(i, d)}, roots)
  {
    var search', edges' := search[f := search[i]], edges + {(i, d)};
    assert Within(funcs, search', edges', i, d, f);
    forall x: nat, e: nat, j: nat
      ensures Within(funcs, search', edges', x, e, j) <==>
                Within(funcs, search, edges, x, e, j) || (x, e, j) == (i, d, f)
    {
    }
    forall j | 0 <= j < |search'| && search'[j] in roots && roots[search'[j]] != j
      ensures Entered(funcs, search', edges', j)
    {
      if j != f {
        var x, e :| Within(funcs, search, edges, x, e, j);
        assert Within(funcs, search', edges', x, e, j);
      }
    }
  }

  /** The dependency is on a function that an earlier search called. */
  lemma ExploredPass(funcs: seq<Func>, search: seq<nat>, called: seq<bool>, edges: set<(nat, nat)>,
                     roots: map<nat, nat>, i: nat, d: nat, f: nat)
    requires Explored(funcs, search, called, edges, roots) && i < |search| && search[i] != 0 && f < |search|
             && called[f]
    requires Edge(funcs, i, d, f) && search[i] != search[f]
    ensures Explored(funcs, search, called, edges + {(i, d)}, roots)
  {
    hide Led, Tree, Find;
    TreePass(funcs, search, edges, roots, i, d, f);
  }

  lemma TreePass(funcs: seq<Func>, search: seq<nat>, edges: set<(nat, nat)>, roots: map<nat, nat>, i: nat, d: nat,
                 f: nat)
    requires Tree(funcs, search, edges, roots) && i < |search| && f < |search| && search[i] != search[f]
             && Edge(funcs, i, d, f)
    ensures Tree(funcs, search, edges + {(i, d)}, roots)
  {
    var edges' := edges + {(i, d)};
    forall x: nat, e: nat, j: nat
      ensures Within(funcs, search, edges', x, e, j) <==> Within(funcs, search, edges, x, e, j)
    {
    }
    forall j | 0 <= j < |search| && search[j] in roots && roots[search[j]] != j
      ensures Entered(funcs, search, edges', j)
    {
      var x, e :| Within(funcs, search, edges, x, e, j);
      assert Within(funcs, search, edges', x, e, j);
    }
  }

  /** Function `i` is called. */
  lemma ExploredCall(funcs: seq<Func>, search: seq<nat>, called: seq<bool>, edges: set<(nat, nat)>,
                     roots: map<nat, nat>, i: nat)
    requires Explored(funcs, search, called, edges, roots) && i < |search| && search[i] != 0
    requires forall e :: 0 <= e < |funcs[i].deps| ==> (i, e) in edges
    ensures Explored(funcs, search, called[i := true], edges, roots)
  {
    hide Tree, Led;
  }

  /** The circular dependency panic: a dependency within the search that was not examined before. */
  lemma MarkedTwice(funcs: seq<Func>, search: seq<nat>, called: seq<bool>, edges: set<(nat, nat)>, roots: map<nat, nat>,
                    i: nat, d: nat, f: nat)
    requires Explored(funcs, search, called, edges, roots) && i < |search| && search[i] != 0 && f < |search|
             && search[f] == search[i]
    requires Edge(funcs, i, d, f) && (i, d) !in edges
    ensures Clash(funcs)
  {
    hide Leads;
    var r := roots[search[i]];
    if f == r {
      assert WayBack(funcs, r, i, d);
    } else {
      assert Entered(funcs, search, edges, f);
      var x, e :| Within(funcs, search, edges, x, e, f);
      assert TwoWays(funcs, r, x, e, i, d, f);
    }
  }

  lemma OneLeader(funcs: seq<Func>, search: seq<nat>, roots: map<nat, nat>, r: nat, j: nat)
    requires Led(funcs, search, roots) && j < |search| && search[j] != 0 && Leads(funcs, r, j)
    ensures search[j] in roots && roots[search[j]] == r && search[j] == search[r]
  {
    hide Reached;
  }

  /** When every function has been called there was nothing to panic for. */
  lemma NoClash(funcs: seq<Func>, search: seq<nat>, called: seq<bool>, edges: set<(nat, nat)>, roots: map<nat, nat>)
    requires Explored(funcs, search, called, edges, roots) && forall j :: 0 <= j < |called| ==> called[j]
    ensures !Clash(funcs) && !Missing(funcs)
  {
    hide Leads, Led, Tree;
    if r, x, e, y, d, j :| TwoWays(funcs, r, x, e, y, d, j) {
      OneLeader(funcs, search, roots, r, x);
      OneLeader(funcs, search, roots, r, y);
      OneLeader(funcs, search, roots, r, j);
      assert Within(funcs, search, edges, x, e, j) && Within(funcs, search, edges, y, d, j);
      NotTwice(funcs, search, edges, roots, x, e, y, d, j);
    }
    if r, x, e :| WayBack(funcs, r, x, e) {
      OneLeader(funcs, search, roots, r, x);
      assert Within(funcs, search, edges, x, e, r);
      NotBack(funcs, search, edges, roots, x, e, r);
    }
    forall x: nat, e: nat, j: nat | Edge(funcs, x, e, j)
      ensures j != |funcs|
    {
      assert (x, e) in edges;
    }
  }

  lemma NotTwice(funcs: seq<Func>, search: seq<nat>, edges: set<(nat, nat)>, roots: map<nat, nat>, x: nat, e: nat,
                 y: nat, d: nat, j: nat)
    requires Tree(funcs, search, edges, roots) && Within(funcs, search, edges, x, e, j)
             && Within(funcs, search, edges, y, d, j)
    ensures (x, e) == (y, d)
  {
  }

  lemma NotBack(funcs: seq<Func>, search: seq<nat>, edges: set<(nat, nat)>, roots: map<nat, nat>, x: nat, e: nat,
                j: nat)
    requires Tree(funcs, search, edges, roots) && Within(funcs, search, edges, x, e, j) && search[j] in roots
    ensures roots[search[j]] != j
  {
  }

  // ----- one search -----

  /** The functions that no search has marked. */
  ghost function Unmarked(search: seq<nat>): set<nat> {
    set j: nat | j < |search| && search[j] == 0
  }

  /** What the call of `i` in the search with this mark leaves as it was: marks, and whether marked
      functions other than `i` are called. */
  ghost predicate Kept(search0: seq<nat>, search: seq<nat>, called0: seq<bool>, called: seq<bool>, mark: nat, i: nat) {
    && |search| == |search0| == |called| == |called0|
    && (forall j :: 0 <= j < |search| ==> search[j] == search0[j] || (search0[j] == 0 && search[j] == mark))
    && (forall j :: 0 <= j < |search| && called0[j] ==> called[j])
    && (forall j :: 0 <= j < |search| && search0[j] != 0 && j != i ==> called[j] == called0[j])
  }

  /** What was marked since has been called. */
  ghost predicate Finished(search0: seq<nat>, search: seq<nat>, called: seq<bool>) {
    |search| == |search0| == |called|
        && forall j :: 0 <= j < |search| && search0[j] == 0 && search[j] != 0 ==> called[j]
  }

  /** The dependencies examined since are those of `i` and of functions marked since. */
  ghost predicate NewEdges(search0: seq<nat>, edges0: set<(nat, nat)>, edges: set<(nat, nat)>, i: nat) {
    forall x, e :: (x, e) in edges ==> (x, e) in edges0 || x == i || (x < |search0| && search0[x] == 0)
  }

  lemma KeptStart(search: seq<nat>, called: seq<bool>, edges: set<(nat, nat)>, mark: nat, i: nat)
    requires |search| == |called|
    ensures Kept(search, search, called, called, mark, i) && Finished(search, search, called)
            && NewEdges(search, edges, edges, i)
  {
  }

  lemma OneEdge(search0: seq<nat>, edges0: set<(nat, nat)>, edges: set<(nat, nat)>, i: nat, d: nat)
    requires NewEdges(search0, edges0, edges, i)
    ensures NewEdges(search0, edges0, edges + {(i, d)}, i)
  {
  }

  lemma KeptCall(search0: seq<nat>, search: seq<nat>, called0: seq<bool>, called: seq<bool>, mark: nat, i: nat)
    requires Kept(search0, search, called0, called, mark, i) && Finished(search0, search, called) && i < |called|
    ensures Kept(search0, search, called0, called[i := true], mark, i) && Finished(search0, search, called[i := true])
  {
  }

  /** The call of `f` inside that of `i`. */
  lemma KeptThen(search0: seq<nat>, search1: seq<nat>, search2: seq<nat>, called0: seq<bool>, called1: seq<bool>,
                 called2: seq<bool>, mark: nat, i: nat, f: nat)
    requires Kept(search0, search1, called0, called1, mark, i) && f < |search1| && search1[f] == 0 && mark != 0
    requires Kept(search1[f := mark], search2, called1, called2, mark, f)
    requires i < |search1| && search1[i] == mark
    ensures Kept(search0, search2, called0, called2, mark, i) && search2[i] == mark && called2[i] == called1[i]
    ensures Finished(search0, search1, called1) && Finished(search1[f := mark], search2, called2) && called2[f] ==>
              Finished(search0, search2, called2)
  {
  }

  lemma EdgesThen(search0: seq<nat>, search1: seq<nat>, edges0: set<(nat, nat)>, edges1: set<(nat, nat)>,
                  edges2: set<(nat, nat)>, i: nat, f: nat)
    requires NewEdges(search0, edges0, edges1, i) && NewEdges(search1, edges1, edges2, f)
    requires |search0| == |search1| && i < |search1| && search1[i] != 0 && f < |search0| && search0[f] == 0 && i != f
    requires forall j :: 0 <= j < |search0| && search0[j] != 0 ==> search1[j] != 0
    ensures NewEdges(search0, edges0, edges2, i) && forall e :: (i, e) in edges2 ==> (i, e) in edges1
  {
  }

  lemma KeptMarks(search0: seq<nat>, search: seq<nat>, called0: seq<bool>, called: seq<bool>, mark: nat, i: nat, f: nat)
    requires Kept(search0, search, called0, called, mark, i) && f < |search| && search[f] == 0 && mark != 0
    ensures search0[f] == 0 && |Unmarked(search[f := mark])| < |Unmarked(search0)|
    ensures forall j :: 0 <= j < |search0| && search0[j] != 0 ==> search[f := mark][j] != 0
  {
    var a, b := Unmarked(search[f := mark]), Unmarked(search0);
    assert f in b && f !in a && a <= b - {f};
    Fewer(a, b - {f});
  }

  lemma Fewer(a: set<nat>, b: set<nat>)
    requires a <= b
    ensures |a| <= |b|
  {
    assert b == a + (b - a);
  }

  /** Functions marked by other searches have been called. */
  ghost predicate Only(search: seq<nat>, called: seq<bool>, mark: nat) {
    |search| == |called| && forall j :: 0 <= j < |search| && search[j] != 0 && search[j] != mark ==> called[j]
  }

  lemma OnlyKept(search0: seq<nat>, search: seq<nat>, called0: seq<bool>, called: seq<bool>, mark: nat, i: nat)
    requires Only(search0, called0, mark) && Kept(search0, search, called0, called, mark, i)
    ensures Only(search, called, mark)
  {
  }

  class InitCalls {
    const funcs: seq<Func>
    var search: seq<nat>
    var called: seq<bool>
    var order: seq<nat>
    ghost var edges: set<(nat, nat)>
    ghost var roots: map<nat, nat>

    ghost predicate Valid()
      reads this
    {
      && |search| == |called| == |funcs| && InOrder(funcs, order)
      && (forall j :: 0 <= j < |funcs| ==> (called[j] <==> j in order))
      && Explored(funcs, search, called, edges, roots)
      && forall m, q: nat :: m in roots && q < roots[m] ==> q in order
    }

    constructor (fs: seq<Func>)
      ensures Valid() && funcs == fs && order == [] && roots == map[]
              && forall j :: 0 <= j < |search| ==> search[j] == 0
    {
      funcs := fs;
      search := seq(|fs|, _ => 0);
      called := seq(|fs|, _ => false);
      order := [];
      edges := {};
      roots := map[];
      new;
      ExploredStart(funcs, search, called);
    }

    /** `_init_call`; false is a panic.  What this search has already marked stays marked and is not
        called, so its last assertion cannot fail. */
    method InitCall(i: nat) returns (ok: bool)
      requires Valid() && i < |funcs| && !called[i] && search[i] != 0 && Only(search, called, search[i])
      requires forall e :: (i, e) !in edges
      modifies this`search, this`called, this`order, this`edges
      decreases |Unmarked(search)|
      ensures Valid() && (ok ==> called[i] && Finished(old(search), search, called))
      ensures !ok ==> Missing(funcs) || Clash(funcs)
      ensures Kept(old(search), search, old(called), called, old(search)[i], i)
      ensures NewEdges(old(search), old(edges), edges, i) && old(edges) <= edges
      ensures old(order) <= order
    {
      hide InOrder, Explored, Missing, Clash, Kept, Finished, NewEdges, Only, Leads, Edge;
      KeptStart(search, called, edges, search[i], i);
      var mark := search[i];
      ghost var search0, called0, order0, edges0 := search, called, order, edges;
      var d := 0;
      while d < |funcs[i].deps|
        invariant 0 <= d <= |funcs[i].deps| && Valid() && search[i] == mark && !called[i]
        invariant forall e: nat :: (i, e) in edges <==> e < d
        invariant forall e :: 0 <= e < d ==> Find(funcs, funcs[i].deps[e]) in order
        invariant Kept(search0, search, called0, called, mark, i) && Finished(search0, search, called)
        invariant NewEdges(search0, edges0, edges, i) && edges0 <= edges && order0 <= order
      {
        var f := Find(funcs, funcs[i].deps[d]);
        IsEdge(funcs, i, d);
        if f == |funcs| {
          NotThere(funcs, i, d);
          return false;
        }
        if search[i] == search[f] {
          MarkedTwice(funcs, search, called, edges, roots, i, d, f);
          return false;
        }
        OnlyKept(search0, search, called0, called, mark, i);
        OneEdge(search0, edges0, edges, i, d);
        if !called[f] {
          FirstVisit(funcs, search, called, order, edges, roots, i, d, f);
          KeptMarks(search0, search, called0, called, mark, i, f);
          ghost var search1, called1 := search, called;
          search := search[f := search[i]];
          edges := edges + {(i, d)};
          ghost var edges1 := edges;
          ok := InitCall(f);
          KeptThen(search0, search1, search, called0, called1, called, mark, i, f);
          EdgesThen(search0, search1[f := mark], edges0, edges1, edges, i, f);
          if !ok {
            return;
          }
        } else {
          ExploredPass(funcs, search, called, edges, roots, i, d, f);
          edges := edges + {(i, d)};
        }
        d := d + 1;
      }
      assert !called[i];
      assert Met(funcs, i, order);
      CallInOrder(funcs, order, i);
      KeptCall(search0, search, called0, called, mark, i);
      ExploredCall(funcs, search, called, edges, roots, i);
      order := order + [i];
      called := called[i := true];
      ok := true;
    }

    /** The calling loop of `init_call_all`: it ends, and it panics exactly when a dependency does not
        exist or two of them clash.  Otherwise every function has been called, once and after its
        dependencies, and there is no cycle. */
    method CallAll() returns (ok: bool)
      requires Valid() && order == [] && roots == map[] && forall j :: 0 <= j < |search| ==> search[j] == 0
      modifies this
      ensures Valid()
      ensures ok <==> !Missing(funcs) && !Clash(funcs)
      ensures ok ==> (forall j :: 0 <= j < |funcs| ==> j in order) && Acyclic(funcs)
    {
      hide InOrder, Path, Explored, Missing, Clash, Kept, Finished, NewEdges, Only, Leads;
      var count := 0;
      var i := 0;
      while i < |funcs|
        invariant 0 <= i <= |funcs| && Valid()
        invariant forall j :: 0 <= j < i ==> called[j]
        invariant forall j :: 0 <= j < |search| && search[j] != 0 ==> called[j]
        invariant forall m :: m in roots ==> m <= count
      {
        if !called[i] {
          count := count + 1;
          NewSearch(funcs, search, called, order, edges, roots, i, count);
          ghost var search0, called0 := search, called;
          search := search[i := count];
          roots := roots[count := i];
          ghost var search1 := search;
          ok := InitCall(i);
          if !ok {
            return;
          }
          AllFinished(search0, search1, search, called0, called, count, i);
        }
        i := i + 1;
      }
      NoClash(funcs, search, called, edges, roots);
      forall p | Path(funcs, p) && |p| >= 2
        ensures p[0] != p[|p| - 1]
      {
        NoCycle(funcs, order, p);
      }
      ok := true;
    }
  }

  lemma IsEdge(funcs: seq<Func>, i: nat, d: nat)
    requires i < |funcs| && d < |funcs[i].deps|
    ensures Edge(funcs, i, d, Find(funcs, funcs[i].deps[d]))
  {
  }

  lemma NotThere(funcs: seq<Func>, i: nat, d: nat)
    requires Edge(funcs, i, d, |funcs|)
    ensures Missing(funcs)
  {
  }

  lemma FirstVisit(funcs: seq<Func>, search: seq<nat>, called: seq<bool>, order: seq<nat>, edges: set<(nat, nat)>,
                   roots: map<nat, nat>, i: nat, d: nat, f: nat)
    requires Explored(funcs, search, called, edges, roots) && InOrder(funcs, order)
    requires i < |search| && search[i] != 0 && Only(search, called, search[i]) && f < |search| && !called[f]
             && search[f] != search[i] && Edge(funcs, i, d, f)
    requires f !in order && forall m, q: nat :: m in roots && q < roots[m] ==> q in order
    ensures search[f] == 0 && f != i && Explored(funcs, search[f := search[i]], called, edges + {(i, d)}, roots)
    ensures Only(search[f := search[i]], called, search[i]) && forall e :: (f, e) !in edges + {(i, d)}
  {
    hide InOrder, Edge, Tree, Reached;
    var r := roots[search[i]];
    assert Leads(funcs, r, i);
    ReachedOn(funcs, r, i, d, f);
    LeadsUncalled(funcs, order, r, f);
    ExploredMark(funcs, search, called, edges, roots, i, d, f);
  }

  lemma NewSearch(funcs: seq<Func>, search: seq<nat>, called: seq<bool>, order: seq<nat>, edges: set<(nat, nat)>,
                  roots: map<nat, nat>, r: nat, mark: nat)
    requires Explored(funcs, search, called, edges, roots) && InOrder(funcs, order) && mark != 0 && mark !in roots
    requires r < |search| && !called[r] && r !in order && forall q: nat :: q < r ==> q in order
    requires forall j :: 0 <= j < |search| && search[j] != 0 ==> called[j]
    ensures search[r] == 0 && Explored(funcs, search[r := mark], called, edges, roots[mark := r])
    ensures Only(search[r := mark], called, mark) && forall e :: (r, e) !in edges
  {
    hide InOrder, Edge, Tree, Leads;
    ReachedSelf(funcs, r);
    LeadsUncalled(funcs, order, r, r);
    ExploredRoot(funcs, search, called, edges, roots, r, mark);
  }

  lemma AllFinished(search0: seq<nat>, search1: seq<nat>, search: seq<nat>, called0: seq<bool>, called: seq<bool>,
                    mark: nat, i: nat)
    requires i < |search0| && search1 == search0[i := mark] && Kept(search1, search, called0, called, mark, i)
    requires Finished(search1, search, called) && called[i]
             && forall j :: 0 <= j < |search0| && search0[j] != 0 ==> called0[j]
    ensures forall j :: 0 <= j < |search| && search[j] != 0 ==> called[j]
    ensures forall j :: 0 <= j < |called0| && called0[j] ==> called[j]
  {
  }

  // ----- a cycle always panics -----

  /** A path along dependencies. */
  ghost predicate Path(funcs: seq<Func>, p: seq<nat>) {
    forall k :: 0 <= k < |p| - 1 ==> DependsOn(funcs, p[k], p[k + 1])
  }

  /** No path comes back to where it started. */
  ghost predicate Acyclic(funcs: seq<Func>) {
    forall p :: Path(funcs, p) && |p| >= 2 ==> p[0] != p[|p| - 1]
  }

  /** Where a function is in the order. */
  lemma Position(order: seq<nat>, i: nat) returns (k: nat)
    requires i in order
    ensures k < |order| && order[k] == i
  {
    k :| 0 <= k < |order| && order[k] == i;
  }

  /** Along a path the calls go backwards. */
  lemma {:induction false} PathBackwards(funcs: seq<Func>, order: seq<nat>, p: seq<nat>, k: nat)
    requires InOrder(funcs, order) && Path(funcs, p) && |p| >= 2 && k < |order| && order[k] == p[0]
    ensures p[|p| - 1] in order[..k]
    decreases |p|
  {
    assert DependsOn(funcs, p[0], p[1]);
    assert Met(funcs, order[k], order[..k]);
    assert p[1] in order[..k];
    if |p| > 2 {
      var j := Position(order[..k], p[1]);
      forall m | 0 <= m < |p[1..]| - 1
        ensures DependsOn(funcs, p[1..][m], p[1..][m + 1])
      {
        assert DependsOn(funcs, p[m + 1], p[m + 2]);
      }
      PathBackwards(funcs, order, p[1..], j);
      assert order[..k][..j] == order[..j];
      assert forall x :: x in order[..j] ==> x in order[..k];
    }
  }

  /** So when every function could be called there is no cycle. */
  lemma NoCycle(funcs: seq<Func>, order: seq<nat>, p: seq<nat>)
    requires InOrder(funcs, order) && (forall j :: 0 <= j < |funcs| ==> j in order) && Path(funcs, p) && |p| >= 2
    ensures p[0] != p[|p| - 1]
  {
    assert DependsOn(funcs, p[0], p[1]);
    var k := Position(order, p[0]);
    PathBackwards(funcs, order, p, k);
    assert order[k] !in order[..k];
  }

  // ----- an order exists, and yet the loop panics -----

  /** `a` needs `b` and `c`, and `b` needs `c`. */
  ghost function Triangle(): seq<Func> {
    [Func("a", ["b", "c"]), Func("b", ["c"]), Func("c", [])]
  }

  lemma TriangleEdges()
    ensures forall x: nat, e: nat, j: nat :: Edge(Triangle(), x, e, j) <==>
              (x, e, j) in {(0, 0, 1), (0, 1, 2), (1, 0, 2)}
  {
    var fs := Triangle();
    assert Find(fs, "b") == 1 && Find(fs, "c") == 2 by {
      var b, c := Find(fs, "b"), Find(fs, "c");
      assert fs[0].name[0] == 'a' && fs[1].name[0] == 'b' && fs[2].name[0] == 'c';
      assert fs[1].name == "b" && fs[2].name == "c";
    }
  }

  /** A panic that no cycle and no missing dependency causes. */
  lemma TrianglePanics()
    ensures !Missing(Triangle()) && Acyclic(Triangle()) && Clash(Triangle())
  {
    hide Find, InOrder, Path;
    var fs := Triangle();
    TriangleEdges();
    assert InOrder(fs, [2, 1, 0]) by { TriangleOrder(); }
    forall p | Path(fs, p) && |p| >= 2
      ensures p[0] != p[|p| - 1]
    {
      NoCycle(fs, [2, 1, 0], p);
    }
    ReachedSelf(fs, 0);
    ReachedOn(fs, 0, 0, 0, 1);
    ReachedOn(fs, 0, 0, 1, 2);
    assert TwoWays(fs, 0, 0, 1, 1, 0, 2);
  }

  lemma TriangleOrder()
    ensures InOrder(Triangle(), [2, 1, 0])
  {
    hide Find;
    var fs, order := Triangle(), [2, 1, 0];
    TriangleEdges();
    forall k | 0 <= k < |order|
      ensures Met(fs, order[k], order[..k])
    {
      forall d | 0 <= d < |fs[order[k]].deps|
        ensures Find(fs, fs[order[k]].deps[d]) in order[..k]
      {
        IsEdge(fs, order[k], d);
        assert order[0] in order[..k] || k == 0;
        assert order[1] in order[..k] || k <= 1;
      }
    }
  }
}
