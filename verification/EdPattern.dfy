/** Regular expressions of user/bin/ed.c: their parts, the byte code that `compile` emits for
    them, and what it means for a line to match. */
module EdPattern {

  const CBRA: nat := 1
  const CCHR: nat := 2
  const CDOT: nat := 4
  const CCL: nat := 6
  const NCCL: nat := 8
  const CDOL: nat := 10
  const CEOF: nat := 11
  const CKET: nat := 12
  const STAR: nat := 1
  const NBRA: nat := 5

  datatype Atom = Chr(c: char) | Any | Class(negated: bool, members: string)

  datatype Elem = One(atom: Atom) | Many(atom: Atom) | Open(n: nat) | Close(n: nat) | Last

  // ----- byte code -----

  function AtomCode(a: Atom): seq<nat> {
    match a
    case Chr(c) => [CCHR, c as nat]
    case Any => [CDOT]
    case Class(negated, members) =>
      [if negated then NCCL else CCL, |members| + 1] + Codes(members)
  }

  function Codes(s: string): seq<nat> {
    seq(|s|, i requires 0 <= i < |s| => s[i] as nat)
  }

  /** A starred operator has the STAR bit set in its first byte. */
  function ElemCode(e: Elem): seq<nat> {
    match e
    case One(a) => AtomCode(a)
    case Many(a) => AtomCode(a)[0 := AtomCode(a)[0] + STAR]
    case Open(n) => [CBRA, n]
    case Close(n) => [CKET, n]
    case Last => [CDOL]
  }

  function Encode(es: seq<Elem>): seq<nat> {
    if es == [] then [CEOF] else ElemCode(es[0]) + Encode(es[1..])
  }

  // ----- what matches -----

  /** The byte at a position of a line, the terminating NUL behind its end. */
  function At(line: string, i: nat): nat {
    if i < |line| then line[i] as nat else 0
  }

  ghost predicate NulFree(s: string) {
    forall i :: 0 <= i < |s| ==> s[i] != '\0'
  }

  predicate Sat(a: Atom, x: nat) {
    && x != 0
    && match a
       case Chr(c) => x == c as nat
       case Any => true
       case Class(negated, members) => (x in Codes(members)) != negated
  }

  ghost predicate AllSat(a: Atom, line: string, i: nat, j: nat) {
    forall p: nat :: i <= p < j ==> Sat(a, At(line, p))
  }

  /** `es` matches the line from `i` to `j`, its stars taking as many characters each as `ks` says and
      none of them stopping at `locs`, which is -1 for no such place. */
  ghost predicate Reaches(es: seq<Elem>, line: string, locs: int, i: nat, ks: seq<nat>, j: nat)
    decreases |es|
  {
    if es == [] then ks == [] && j == i && i <= |line|
    else match es[0]
      case One(a) => Sat(a, At(line, i)) && Reaches(es[1..], line, locs, i + 1, ks, j)
      case Many(a) =>
        && ks != [] && i + ks[0] != locs
        && AllSat(a, line, i, i + ks[0])
        && Reaches(es[1..], line, locs, i + ks[0], ks[1..], j)
      case Last => i == |line| && Reaches(es[1..], line, locs, i, ks, j)
      case Open(_) => Reaches(es[1..], line, locs, i, ks, j)
      case Close(_) => Reaches(es[1..], line, locs, i, ks, j)
  }

  ghost predicate Matches(es: seq<Elem>, line: string, locs: int, i: nat) {
    exists ks, j :: Reaches(es, line, locs, i, ks, j)
  }

  /** `ks` prefers a longer match at the first star where it differs from `ls`. */
  ghost predicate PrefersTo(ks: seq<nat>, ls: seq<nat>) {
    ks == ls || exists n :: 0 <= n < |ks| && n < |ls| && ks[..n] == ls[..n] && ks[n] > ls[n]
  }

  /** Where bracket `n` is opened (or closed) along the way that `ks` describes: the table `b`
      with every such position entered. */
  function Marked(es: seq<Elem>, i: nat, ks: seq<nat>, open: bool, b: seq<nat>): seq<nat>
    decreases |es|
  {
    if es == [] then b
    else match es[0]
      case One(_) => Marked(es[1..], i + 1, ks, open, b)
      case Many(_) => if ks == [] then b else Marked(es[1..], i + ks[0], ks[1..], open, b)
      case Last => Marked(es[1..], i, ks, open, b)
      case Open(n) => Marked(es[1..], i, ks, open, if open && n < |b| then b[n := i] else b)
      case Close(n) => Marked(es[1..], i, ks, open, if !open && n < |b| then b[n := i] else b)
  }

  // ----- longest-first search -----

  datatype Found = No | Yes(stars: seq<nat>, end: nat)

  /** How many characters in a row satisfy an atom. */
  function Run(a: Atom, line: string, i: nat): nat
    decreases |line| - i
  {
    if i < |line| && Sat(a, At(line, i)) then 1 + Run(a, line, i + 1) else 0
  }

  /** The first match found when every star tries its longest run first and gives back one
      character at a time; `locs`, if given, is a position no star may stop at. */
  function Greedy(es: seq<Elem>, line: string, locs: int, i: nat): Found
    decreases |es|, 0
  {
    if es == [] then Yes([], i)
    else match es[0]
      case One(a) => if Sat(a, At(line, i)) then Greedy(es[1..], line, locs, i + 1) else No
      case Many(a) => GiveBack(es[1..], line, locs, i, Run(a, line, i))
      case Last => if At(line, i) == 0 then Greedy(es[1..], line, locs, i) else No
      case Open(_) => Greedy(es[1..], line, locs, i)
      case Close(_) => Greedy(es[1..], line, locs, i)
  }

  function GiveBack(es: seq<Elem>, line: string, locs: int, i: nat, k: nat): Found
    decreases |es|, k + 1
  {
    if i + k == locs then No
    else match Greedy(es, line, locs, i + k)
      case Yes(ks, end) => Yes([k] + ks, end)
      case No => if k == 0 then No else GiveBack(es, line, locs, i, k - 1)
  }

  lemma {:induction false} RunSatisfies(a: Atom, line: string, i: nat, k: nat)
    requires k <= Run(a, line, i)
    ensures AllSat(a, line, i, i + k)
    decreases k
  {
    if k > 0 { RunSatisfies(a, line, i + 1, k - 1); }
  }

  lemma {:induction false} RunIsMaximal(a: Atom, line: string, i: nat, k: nat)
    requires AllSat(a, line, i, i + k)
    ensures k <= Run(a, line, i)
    decreases k
  {
    if k > 0 {
      assert Sat(a, At(line, i));
      RunIsMaximal(a, line, i + 1, k - 1);
    }
  }

  lemma {:induction false} RunInLine(a: Atom, line: string, i: nat)
    requires i <= |line|
    ensures i + Run(a, line, i) <= |line|
    decreases |line| - i
  {
    if i < |line| && Sat(a, At(line, i)) { RunInLine(a, line, i + 1); }
  }

  /** What the search finds is a match. */
  lemma {:induction false} GreedySound(es: seq<Elem>, line: string, locs: int, i: nat)
    requires NulFree(line) && i <= |line| && Greedy(es, line, locs, i).Yes?
    ensures var f := Greedy(es, line, locs, i); Reaches(es, line, locs, i, f.stars, f.end) && f.end <= |line|
    decreases |es|, 0
  {
    if es != [] {
      match es[0]
      case One(a) => GreedySound(es[1..], line, locs, i + 1);
      case Many(a) =>
        RunInLine(a, line, i);
        GiveBackSound(es[1..], line, locs, i, Run(a, line, i));
        RunSatisfies(a, line, i, Greedy(es, line, locs, i).stars[0]);
      case Last => GreedySound(es[1..], line, locs, i);
      case Open(_) => GreedySound(es[1..], line, locs, i);
      case Close(_) => GreedySound(es[1..], line, locs, i);
    }
  }

  lemma {:induction false} GiveBackSound(es: seq<Elem>, line: string, locs: int, i: nat, k: nat)
    requires NulFree(line) && i + k <= |line| && GiveBack(es, line, locs, i, k).Yes?
    ensures var f := GiveBack(es, line, locs, i, k);
            && f.stars != [] && f.stars[0] <= k && i + f.stars[0] != locs
            && Reaches(es, line, locs, i + f.stars[0], f.stars[1..], f.end) && f.end <= |line|
    decreases |es|, k + 1
  {
    if Greedy(es, line, locs, i + k).Yes? {
      GreedySound(es, line, locs, i + k);
    } else {
      GiveBackSound(es, line, locs, i, k - 1);
    }
  }

  /** Every match is found, and the one found is preferred to it: longest first at each star. */
  lemma {:induction false} GreedyPrefers(es: seq<Elem>, line: string, locs: int, i: nat, ks: seq<nat>, j: nat)
    requires Reaches(es, line, locs, i, ks, j) && locs <= i
    ensures var f := Greedy(es, line, locs, i); f.Yes? && PrefersTo(f.stars, ks)
    decreases |es|, 0
  {
    if es != [] {
      match es[0]
      case One(a) => GreedyPrefers(es[1..], line, locs, i + 1, ks, j);
      case Many(a) =>
        RunIsMaximal(a, line, i, ks[0]);
        GiveBackPrefers(es[1..], line, locs, i, Run(a, line, i), ks, j);
      case Last => GreedyPrefers(es[1..], line, locs, i, ks, j);
      case Open(_) => GreedyPrefers(es[1..], line, locs, i, ks, j);
      case Close(_) => GreedyPrefers(es[1..], line, locs, i, ks, j);
    }
  }

  lemma {:induction false} GiveBackPrefers(es: seq<Elem>, line: string, locs: int, i: nat, k: nat, ks: seq<nat>, j: nat)
    requires ks != [] && ks[0] <= k && Reaches(es, line, locs, i + ks[0], ks[1..], j) && locs <= i && i + ks[0] != locs
    ensures var f := GiveBack(es, line, locs, i, k); f.Yes? && PrefersTo(f.stars, ks)
    decreases |es|, k + 1
  {
    var g := Greedy(es, line, locs, i + k);
    if ks[0] == k {
      GreedyPrefers(es, line, locs, i + k, ks[1..], j);
      PrefersCons(k, g.stars, ks[1..]);
      assert ks == [k] + ks[1..];
    } else if g.Yes? {
      var f := [k] + g.stars;
      assert f[..0] == ks[..0] && f[0] > ks[0];
    } else {
      GiveBackPrefers(es, line, locs, i, k - 1, ks, j);
    }
  }

  lemma PrefersCons(k: nat, ks: seq<nat>, ls: seq<nat>)
    requires PrefersTo(ks, ls)
    ensures PrefersTo([k] + ks, [k] + ls)
  {
    if ks != ls {
      var n :| 0 <= n < |ks| && n < |ls| && ks[..n] == ls[..n] && ks[n] > ls[n];
      var ks', ls' := [k] + ks, [k] + ls;
      assert ks'[..n + 1] == [k] + ks[..n] && ls'[..n + 1] == [k] + ls[..n];
      assert ks'[n + 1] > ls'[n + 1];
    }
  }

  /** Matching and longest-first choice together: the search succeeds exactly when the pattern
      matches here, and its star counts are preferred to those of every match. */
  lemma GreedyCorrect(es: seq<Elem>, line: string, locs: int, i: nat)
    requires NulFree(line) && locs <= i <= |line|
    ensures var f := Greedy(es, line, locs, i);
            && (f.Yes? <==> Matches(es, line, locs, i))
            && (f.Yes? ==> Reaches(es, line, locs, i, f.stars, f.end) && f.end <= |line|)
            && (f.Yes? ==> forall ks, j :: Reaches(es, line, locs, i, ks, j) ==> PrefersTo(f.stars, ks))
  {
    if Greedy(es, line, locs, i).Yes? {
      GreedySound(es, line, locs, i);
    }
    forall ks, j | Reaches(es, line, locs, i, ks, j)
      ensures var f := Greedy(es, line, locs, i); f.Yes? && PrefersTo(f.stars, ks)
    {
      GreedyPrefers(es, line, locs, i, ks, j);
    }
  }
}
