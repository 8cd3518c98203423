/** Chains of shadow objects, apart from reference counts and page tables: which page an object
    sees, by the lookup rule of kernel/vm/shadow.c (the first object down the chain that has the
    page), and that taking an object with a single parent out of a chain changes it for no one. */
module ShadowChains {
  import opened Lists

  /** One object: its resident pages by page number, and the object it shadows. */
  datatype Node = Node(pages: map<nat, nat>, shadowed: Option<nat>)

  type Chains = map<nat, Node>

  /** No chain runs into a circle: `rank` falls along every link. */
  ghost predicate Ranked(c: Chains, rank: map<nat, nat>) {
    forall o :: o in c ==>
      && o in rank
      && (c[o].shadowed.Some? ==> c[o].shadowed.value in c && c[o].shadowed.value in rank
                                  && rank[c[o].shadowed.value] < rank[o])
  }

  /** The page that object `o` sees at a page number. */
  ghost function Lookup(c: Chains, rank: map<nat, nat>, o: nat, pagenum: nat): Option<nat>
    requires Ranked(c, rank) && o in c
    decreases rank[o]
  {
    if pagenum in c[o].pages then Some(c[o].pages[pagenum])
    else if c[o].shadowed.None? then None
    else Lookup(c, rank, c[o].shadowed.value, pagenum)
  }

  /** Each object shadows the next. */
  ghost predicate Follows(c: Chains, path: seq<nat>) {
    && path != [] && (forall i :: 0 <= i < |path| ==> path[i] in c)
    && forall i :: 0 <= i < |path| - 1 ==> c[path[i]].shadowed == Some(path[i + 1])
  }

  /** The page seen is that of the nearest object down the chain which has one, if any has. */
  lemma {:induction false} LookupNearest(c: Chains, rank: map<nat, nat>, path: seq<nat>, pagenum: nat)
    requires Ranked(c, rank) && Follows(c, path)
    requires forall i :: 0 <= i < |path| - 1 ==> pagenum !in c[path[i]].pages
    ensures var last := c[path[|path| - 1]];
            && (pagenum in last.pages ==> Lookup(c, rank, path[0], pagenum) == Some(last.pages[pagenum]))
            && (pagenum !in last.pages && last.shadowed.None? ==> Lookup(c, rank, path[0], pagenum) == None)
  {
    if |path| > 1 {
      assert c[path[0]].shadowed == Some(path[1]);
      LookupNearest(c, rank, path[1..], pagenum);
    }
  }

  ghost function Parents(c: Chains, o: nat): set<nat> {
    set p | p in c && c[p].shadowed == Some(o)
  }

  /** Object `o` leaves the chain below `last`, which takes over its pages where it has none. */
  ghost function Collapsed(c: Chains, last: nat, o: nat): Chains
    requires last in c && o in c
  {
    (c - {o})[last := Node(c[o].pages + c[last].pages, c[o].shadowed)]
  }

  ghost predicate CanCollapse(c: Chains, last: nat, o: nat) {
    && last in c && o in c && c[last].shadowed == Some(o) && c[o].shadowed.Some?
    && Parents(c, o) == {last}
  }

  lemma CollapsedRanked(c: Chains, rank: map<nat, nat>, last: nat, o: nat)
    requires Ranked(c, rank) && CanCollapse(c, last, o)
    ensures Ranked(Collapsed(c, last, o), rank) && last != o
  {
    var c' := Collapsed(c, last, o);
    forall x | x in c'
      ensures && x in rank
              && (c'[x].shadowed.Some? ==> c'[x].shadowed.value in c' && c'[x].shadowed.value in rank
                                           && rank[c'[x].shadowed.value] < rank[x])
    {
      assert x == last || x !in Parents(c, o);
    }
  }

  /** Nobody notices: every object that is left sees the same page at every page number. */
  lemma {:induction false} CollapseKeepsLookup(c: Chains, rank: map<nat, nat>, last: nat, o: nat, x: nat, pagenum: nat)
    requires Ranked(c, rank) && CanCollapse(c, last, o) && x in Collapsed(c, last, o)
    requires Ranked(Collapsed(c, last, o), rank)
    ensures Lookup(Collapsed(c, last, o), rank, x, pagenum) == Lookup(c, rank, x, pagenum)
    decreases rank[x]
  {
    var c' := Collapsed(c, last, o);
    if x == last {
      var s := c[o].shadowed.value;
      assert Lookup(c, rank, last, pagenum) ==
             if pagenum in c[last].pages then Some(c[last].pages[pagenum])
             else if pagenum in c[o].pages then Some(c[o].pages[pagenum])
             else Lookup(c, rank, s, pagenum);
      CollapseKeepsLookup(c, rank, last, o, s, pagenum);
    } else if pagenum !in c[x].pages && c[x].shadowed.Some? {
      assert x !in Parents(c, o);
      CollapseKeepsLookup(c, rank, last, o, c[x].shadowed.value, pagenum);
    }
  }

  /** After the collapse every object has as many parents as before. */
  lemma CollapseKeepsParents(c: Chains, rank: map<nat, nat>, last: nat, o: nat, x: nat)
    requires Ranked(c, rank) && CanCollapse(c, last, o) && x in Collapsed(c, last, o)
    ensures |Parents(Collapsed(c, last, o), x)| == |Parents(c, x)|
  {
    hide Parents;
    var c', s := Collapsed(c, last, o), c[o].shadowed.value;
    if x == s {
      ParentMoves(c, rank, last, o);
    } else {
      ParentsStay(c, last, o, x);
    }
  }

  lemma ParentMoves(c: Chains, rank: map<nat, nat>, last: nat, o: nat)
    requires Ranked(c, rank) && CanCollapse(c, last, o)
    ensures var s := c[o].shadowed.value;
            |Parents(Collapsed(c, last, o), s)| == |Parents(c, s)|
  {
    var s := c[o].shadowed.value;
    assert o in Parents(c, s) && last !in Parents(c, s);
    assert Parents(Collapsed(c, last, o), s) == (Parents(c, s) - {o}) + {last};
  }

  lemma ParentsStay(c: Chains, last: nat, o: nat, x: nat)
    requires CanCollapse(c, last, o) && x != o && Some(x) != c[o].shadowed
    ensures Parents(Collapsed(c, last, o), x) == Parents(c, x)
  {
  }
}
