/** What ed's patterns mean, said in characters and positions: which lines each kind of element matches,
    what a text compiles to, and what searching for it finds (user/bin/ed.c). */
module EdLaws {
  import opened EdPattern
  import opened EdMatch
  import opened EdCompile
  import opened EdSpelling
  import opened Lists

  // ----- elements -----

  /** The pattern matches the line from `i` to `j`. */
  ghost predicate Spans(es: seq<Elem>, line: string, i: nat, j: nat) {
    exists ks :: Reaches(es, line, -1, i, ks, j)
  }

  lemma MatchesSpans(es: seq<Elem>, line: string, i: nat)
    ensures Matches(es, line, -1, i) <==> exists j :: Spans(es, line, i, j)
  {
    hide Reaches;
    if Matches(es, line, -1, i) {
      var ks, j :| Reaches(es, line, -1, i, ks, j);
      assert Spans(es, line, i, j);
    }
  }

  lemma ReachesOne(e: Elem, line: string, i: nat, ks: seq<nat>, j: nat)
    ensures Reaches([], line, -1, i, ks, j) <==> ks == [] && i == j <= |line|
    ensures Reaches([e], line, -1, i, ks, j) <==>
            match e
            case One(a) => Sat(a, At(line, i)) && ks == [] && j == i + 1 <= |line|
            case Many(a) => |ks| == 1 && AllSat(a, line, i, i + ks[0]) && j == i + ks[0] <= |line|
            case Last => ks == [] && i == j == |line|
            case _ => ks == [] && i == j <= |line|
  {
    hide Sat, AllSat;
    assert [e][1..] == [];
    if e.Many? && ks != [] { assert |ks| == 1 <==> ks[1..] == []; }
  }

  lemma SpansOne(a: Atom, line: string, i: nat, j: nat)
    ensures Spans([One(a)], line, i, j) <==> Sat(a, At(line, i)) && j == i + 1 <= |line|
  {
    hide Sat, Reaches;
    forall ks { ReachesOne(One(a), line, i, ks, j); }
    assert Reaches([One(a)], line, -1, i, [], j) <==> Sat(a, At(line, i)) && j == i + 1 <= |line|;
  }

  lemma SpansMany(a: Atom, line: string, i: nat, j: nat)
    ensures Spans([Many(a)], line, i, j) <==> i <= j <= |line| && AllSat(a, line, i, j)
  {
    hide AllSat, Reaches;
    forall ks { ReachesOne(Many(a), line, i, ks, j); }
    if i <= j { assert Reaches([Many(a)], line, -1, i, [j - i], j) <==> AllSat(a, line, i, j) && j <= |line|; }
  }

  lemma InCodes(x: char, s: string)
    ensures x as nat in Codes(s) <==> x in s
  {
    if x in s {
      var i :| 0 <= i < |s| && s[i] == x;
      assert Codes(s)[i] == x as nat;
    }
    if x as nat in Codes(s) {
      var i :| 0 <= i < |Codes(s)| && Codes(s)[i] == x as nat;
      assert s[i] == x;
    }
  }

  /** One element: the next character is that one, is any, is a member, is not a member; at the end of
      the line there is none. */
  lemma OneMeans(c: char, m: string, line: string, i: nat, j: nat)
    requires NulFree(line)
    ensures Spans([One(Chr(c))], line, i, j) <==> i < |line| && j == i + 1 && line[i] == c
    ensures Spans([One(Any)], line, i, j) <==> i < |line| && j == i + 1
    ensures Spans([One(Class(false, m))], line, i, j) <==> i < |line| && j == i + 1 && line[i] in m
    ensures Spans([One(Class(true, m))], line, i, j) <==> i < |line| && j == i + 1 && line[i] !in m
  {
    hide Spans, Codes;
    SpansOne(Chr(c), line, i, j);
    SpansOne(Any, line, i, j);
    SpansOne(Class(false, m), line, i, j);
    SpansOne(Class(true, m), line, i, j);
    if i < |line| { InCodes(line[i], m); }
  }

  /** A starred element: any number of such characters. */
  lemma ManyMeans(c: char, m: string, line: string, i: nat, j: nat)
    requires NulFree(line) && i <= j
    ensures Spans([Many(Chr(c))], line, i, j) <==> j <= |line| && forall p :: i <= p < j ==> line[p] == c
    ensures Spans([Many(Any)], line, i, j) <==> j <= |line|
    ensures Spans([Many(Class(false, m))], line, i, j) <==> j <= |line| && forall p :: i <= p < j ==> line[p] in m
    ensures Spans([Many(Class(true, m))], line, i, j) <==> j <= |line| && forall p :: i <= p < j ==> line[p] !in m
  {
    hide Spans, Codes;
    SpansMany(Chr(c), line, i, j);
    SpansMany(Any, line, i, j);
    SpansMany(Class(false, m), line, i, j);
    SpansMany(Class(true, m), line, i, j);
    if j <= |line| {
      forall p: nat | i <= p < j
        ensures At(line, p) == line[p] as nat && At(line, p) != 0 && (At(line, p) in Codes(m) <==> line[p] in m)
      {
        InCodes(line[p], m);
      }
    }
  }

  /** The end of the line, and brackets, which match nothing. */
  lemma MarksMean(n: nat, line: string, i: nat, j: nat)
    ensures Spans([Last], line, i, j) <==> i == j == |line|
    ensures Spans([Open(n)], line, i, j) <==> i == j <= |line|
    ensures Spans([Close(n)], line, i, j) <==> i == j <= |line|
  {
    hide Reaches;
    forall ks { ReachesOne(Last, line, i, ks, j); }
    forall ks { ReachesOne(Open(n), line, i, ks, j); }
    forall ks { ReachesOne(Close(n), line, i, ks, j); }
    assert Reaches([Last], line, -1, i, [], j) <==> i == j == |line|;
    assert Reaches([Open(n)], line, -1, i, [], j) <==> i == j <= |line|;
    assert Reaches([Close(n)], line, -1, i, [], j) <==> i == j <= |line|;
  }

  lemma NothingMeans(line: string, i: nat, j: nat)
    ensures Spans([], line, i, j) <==> i == j <= |line|
  {
    assert Reaches([], line, -1, i, [], j) <==> i == j <= |line|;
  }

  // ----- one after the other -----

  lemma {:induction false} ReachesSplit(es: seq<Elem>, fs: seq<Elem>, line: string, i: nat, ks: seq<nat>, k: nat)
    requires Reaches(es + fs, line, -1, i, ks, k)
    ensures exists j :: Spans(es, line, i, j) && Spans(fs, line, j, k)
    decreases |es|
  {
    if es == [] {
      assert es + fs == fs;
      ReachesInLine(fs, line, i, ks, k);
      NothingMeans(line, i, i);
      assert Spans(fs, line, i, k);
    } else {
      assert (es + fs)[1..] == es[1..] + fs && (es + fs)[0] == es[0];
      var (step, rest) := Head(es[0], ks);
      ReachesSplit(es[1..], fs, line, i + step, rest, k);
      var j :| Spans(es[1..], line, i + step, j) && Spans(fs, line, j, k);
      var ls :| Reaches(es[1..], line, -1, i + step, ls, j);
      if es[0].Many? {
        assert ([step] + ls)[1..] == ls;
        assert Reaches(es, line, -1, i, [step] + ls, j);
      } else {
        assert Reaches(es, line, -1, i, ls, j);
      }
    }
  }

  /** How far the first element goes, and the counts for the others. */
  ghost function Head(e: Elem, ks: seq<nat>): (nat, seq<nat>)
  {
    match e
    case One(_) => (1, ks)
    case Many(_) => if ks == [] then (0, ks) else (ks[0], ks[1..])
    case _ => (0, ks)
  }

  lemma {:induction false} ReachesInLine(es: seq<Elem>, line: string, i: nat, ks: seq<nat>, j: nat)
    requires Reaches(es, line, -1, i, ks, j)
    ensures i <= j <= |line|
    decreases |es|
  {
    if es != [] {
      var (step, rest) := Head(es[0], ks);
      ReachesInLine(es[1..], line, i + step, rest, j);
    }
  }

  lemma {:induction false} ReachesJoin(es: seq<Elem>, fs: seq<Elem>, line: string, i: nat, ks: seq<nat>, j: nat,
                                       ls: seq<nat>, k: nat)
    requires Reaches(es, line, -1, i, ks, j) && Reaches(fs, line, -1, j, ls, k)
    ensures Reaches(es + fs, line, -1, i, ks + ls, k)
    decreases |es|
  {
    if es == [] {
      assert es + fs == fs && ks + ls == ls;
    } else {
      assert (es + fs)[1..] == es[1..] + fs && (es + fs)[0] == es[0];
      var (step, rest) := Head(es[0], ks);
      ReachesJoin(es[1..], fs, line, i + step, rest, j, ls, k);
      if es[0].Many? { assert (ks + ls)[1..] == ks[1..] + ls; }
    }
  }

  /** Two patterns, one after the other. */
  lemma ThenMeans(es: seq<Elem>, fs: seq<Elem>, line: string, i: nat, k: nat)
    ensures Spans(es + fs, line, i, k) <==> exists j :: Spans(es, line, i, j) && Spans(fs, line, j, k)
  {
    hide Reaches;
    if Spans(es + fs, line, i, k) {
      var ks :| Reaches(es + fs, line, -1, i, ks, k);
      ReachesSplit(es, fs, line, i, ks, k);
    }
    if j :| Spans(es, line, i, j) && Spans(fs, line, j, k) {
      var ks :| Reaches(es, line, -1, i, ks, j);
      var ls :| Reaches(fs, line, -1, j, ls, k);
      ReachesJoin(es, fs, line, i, ks, j, ls, k);
    }
  }

  // ----- stars take as much as there is -----

  lemma {:induction false} RunEnds(a: Atom, line: string, i: nat)
    requires i <= |line|
    ensures var e := i + Run(a, line, i);
            i <= e <= |line| && AllSat(a, line, i, e) && (e < |line| ==> !Sat(a, At(line, e)))
    decreases |line| - i
  {
    hide Sat;
    if i < |line| && Sat(a, At(line, i)) { RunEnds(a, line, i + 1); }
  }

  lemma StarFound(a: Atom, line: string, i: nat)
    ensures Greedy([Many(a)], line, -1, i) == Yes([Run(a, line, i)], i + Run(a, line, i))
  {
    assert [Many(a)][1..] == [];
    assert Greedy([], line, -1, i + Run(a, line, i)) == Yes([], i + Run(a, line, i));
  }

  /** The match that the search settles on ends where such characters end. */
  lemma StarEnds(c: char, m: string, line: string, i: nat)
    requires NulFree(line) && i <= |line|
    ensures var f := Greedy([Many(Chr(c))], line, -1, i);
            && f.Yes? && i <= f.end <= |line| && (forall p :: i <= p < f.end ==> line[p] == c)
            && (f.end < |line| ==> line[f.end] != c)
    ensures Greedy([Many(Any)], line, -1, i) == Yes([|line| - i], |line|)
    ensures var f := Greedy([Many(Class(false, m))], line, -1, i);
            && f.Yes? && i <= f.end <= |line| && (forall p :: i <= p < f.end ==> line[p] in m)
            && (f.end < |line| ==> line[f.end] !in m)
    ensures var f := Greedy([Many(Class(true, m))], line, -1, i);
            && f.Yes? && i <= f.end <= |line| && (forall p :: i <= p < f.end ==> line[p] !in m)
            && (f.end < |line| ==> line[f.end] in m)
  {
    hide Greedy, Run, Codes;
    StarClass(Chr(c), line, i);
    StarClass(Any, line, i);
    StarClass(Class(false, m), line, i);
    StarClass(Class(true, m), line, i);
    forall p: nat | i <= p < |line|
      ensures At(line, p) == line[p] as nat && At(line, p) != 0 && (At(line, p) in Codes(m) <==> line[p] in m)
    {
      InCodes(line[p], m);
    }
  }

  lemma StarClass(a: Atom, line: string, i: nat)
    requires i <= |line|
    ensures var f := Greedy([Many(a)], line, -1, i);
            && f.Yes? && f.stars == [f.end - i] && i <= f.end <= |line| && AllSat(a, line, i, f.end)
            && (f.end < |line| ==> !Sat(a, At(line, f.end)))
  {
    StarFound(a, line, i);
    RunEnds(a, line, i);
  }

  /** Behind a match, a star alone matches again only if there is a character for it. */
  lemma StarAgain(c: char, line: string, i: nat)
    requires NulFree(line) && i <= |line|
    ensures Matches([Many(Chr(c))], line, i, i) <==> i < |line| && line[i] == c
    ensures Matches([Many(Any)], line, i, i) <==> i < |line|
  {
    hide Greedy, Matches;
    GreedyCorrect([Many(Chr(c))], line, i, i);
    GreedyCorrect([Many(Any)], line, i, i);
    AgainFound(Chr(c), line, i);
    AgainFound(Any, line, i);
  }

  lemma AgainFound(a: Atom, line: string, i: nat)
    requires i <= |line|
    ensures Greedy([Many(a)], line, i, i).Yes? <==> i < |line| && Sat(a, At(line, i))
  {
    assert [Many(a)][1..] == [];
    var k := Run(a, line, i);
    assert Greedy([], line, i, i + k) == Yes([], i + k);
    assert k == 0 <==> !(i < |line| && Sat(a, At(line, i)));
  }

  // ----- brackets -----

  /** Bracket `n` is opened, or closed, nowhere in the pattern. */
  ghost predicate NoMark(es: seq<Elem>, n: nat, open: bool) {
    forall k :: 0 <= k < |es| ==> es[k] != if open then Open(n) else Close(n)
  }

  lemma {:induction false} MarkKept(es: seq<Elem>, i: nat, ks: seq<nat>, open: bool, b: seq<nat>, n: nat)
    requires NoMark(es, n, open) && n < |b|
    ensures |Marked(es, i, ks, open, b)| == |b| && Marked(es, i, ks, open, b)[n] == b[n]
    decreases |es|
  {
    if es != [] {
      var (step, rest) := Head(es[0], ks);
      assert es[0] != if open then Open(n) else Close(n);
      var b' := if open && es[0].Open? && es[0].n < |b| then b[es[0].n := i]
                else if !open && es[0].Close? && es[0].n < |b| then b[es[0].n := i] else b;
      if !(es[0].Many? && ks == []) {
        assert NoMark(es[1..], n, open) by {
          assert forall k :: 0 <= k < |es[1..]| ==> es[1..][k] == es[k + 1];
        }
        MarkKept(es[1..], i + step, rest, open, b', n);
      }
    }
  }

  /** A bracket is marked at the place that the pattern in front of it reaches, if it is not opened (or
      closed) again behind that. */
  lemma {:induction false} MarkMeans(es: seq<Elem>, fs: seq<Elem>, line: string, i: nat, ks: seq<nat>, j: nat,
                                     ls: seq<nat>, open: bool, b: seq<nat>, n: nat)
    requires Reaches(es, line, -1, i, ks, j) && n < |b| && NoMark(fs, n, open)
    ensures |Marked(es + [if open then Open(n) else Close(n)] + fs, i, ks + ls, open, b)| == |b|
    ensures Marked(es + [if open then Open(n) else Close(n)] + fs, i, ks + ls, open, b)[n] == j
    decreases |es|
  {
    var e := if open then Open(n) else Close(n);
    var all := es + [e] + fs;
    if es == [] {
      assert all[0] == e && all[1..] == fs && ks + ls == ls;
      MarkKept(fs, i, ls, open, b[n := i], n);
    } else {
      var (step, rest) := Head(es[0], ks);
      assert all[0] == es[0] && all[1..] == es[1..] + [e] + fs;
      if es[0].Many? { assert (ks + ls)[1..] == ks[1..] + ls && (ks + ls)[0] == ks[0]; }
      var b' := if open && es[0].Open? && es[0].n < |b| then b[es[0].n := i]
                else if !open && es[0].Close? && es[0].n < |b| then b[es[0].n := i] else b;
      MarkMeans(es[1..], fs, line, i + step, rest, j, ls, open, b', n);
    }
  }

  // ----- texts -----

  /** One character after the other. */
  ghost function Literal(w: string): (es: seq<Elem>)
    ensures |es| == |w|
  {
    seq(|w|, k requires 0 <= k < |w| => One(Chr(w[k])))
  }

  /** Text that stands for itself, wherever it is not first with `^` or last with `$`. */
  ghost predicate Plain(w: string, eof: char) {
    forall k :: 0 <= k < |w| ==>
      w[k] != eof && w[k] != '\\' && w[k] != '.' && w[k] != '*' && w[k] != '[' && w[k] != '\n'
  }

  /** The line has `w` at `i`. */
  ghost predicate Occurs(w: string, line: string, i: nat) {
    i + |w| <= |line| && line[i..i + |w|] == w
  }

  lemma {:induction false} LiteralMeans(w: string, line: string, i: nat, j: nat)
    requires NulFree(line)
    ensures Spans(Literal(w), line, i, j) <==> Occurs(w, line, i) && j == i + |w|
    decreases |w|
  {
    hide Spans;
    if w == "" {
      assert Literal(w) == [];
      NothingMeans(line, i, j);
      assert i <= |line| ==> line[i..i] == "";
    } else {
      var c, rest := w[0], w[1..];
      assert Literal(w) == [One(Chr(c))] + Literal(rest);
      ThenMeans([One(Chr(c))], Literal(rest), line, i, j);
      forall k { OneMeans(c, "", line, i, k); }
      LiteralMeans(rest, line, i + 1, j);
      if i < |line| && i + |w| <= |line| {
        assert line[i..i + |w|] == [line[i]] + line[i + 1..i + 1 + |rest|];
        assert w == [c] + rest;
      }
      if Spans([One(Chr(c))], line, i, i + 1) && Spans(Literal(rest), line, i + 1, j) {
        assert Spans(Literal(w), line, i, j);
      }
    }
  }

  lemma {:induction false} BodyLiteral(es: seq<Elem>, w: string)
    ensures |Body(es + Literal(w))| == |Body(es)| + 2 * |w|
    decreases |w|
  {
    hide Body;
    if w == "" {
      assert es + Literal(w) == es;
    } else {
      var front := w[..|w| - 1];
      BodyLiteral(es, front);
      assert es + Literal(w) == (es + Literal(front)) + [One(Chr(w[|w| - 1]))];
      BodyAppend(es + Literal(front), One(Chr(w[|w| - 1])));
    }
  }

  /** Plain text adds its characters to the pattern. */
  lemma {:induction false} PlainRun(text: string, pos: nat, eof: char, es: seq<Elem>, nbra: nat, stack: seq<nat>,
                                    w: string)
    requires Plain(w, eof) && pos + |w| < |text| && text[pos..pos + |w|] == w && |Body(es)| + 2 * |w| < ESIZE
    requires w != "" && w[|w| - 1] == '$' ==> text[pos + |w|] != eof
    ensures Parse(text, pos, eof, es, nbra, stack) == Parse(text, pos + |w|, eof, es + Literal(w), nbra, stack)
    decreases |w|
  {
    hide Body, ParseClass, Escaped;
    if w == "" {
      assert es + Literal(w) == es;
    } else {
      var c, rest := w[0], w[1..];
      assert text[pos] == text[pos..pos + |w|][0] == c;
      assert |w| > 1 ==> text[pos + 1] == text[pos..pos + |w|][1] == w[1];
      assert Parse(text, pos, eof, es, nbra, stack) == Parse(text, pos + 1, eof, es + [One(Chr(c))], nbra, stack);
      BodyAppend(es, One(Chr(c)));
      assert text[pos + 1..pos + 1 + |rest|] == text[pos..pos + |w|][1..];
      PlainRun(text, pos + 1, eof, es + [One(Chr(c))], nbra, stack, rest);
      assert es + Literal(w) == (es + [One(Chr(c))]) + Literal(rest);
    }
  }

  /** `u`, then something, then `v`, the delimiter, and whatever follows. */
  ghost function Framed(u: string, x: string, v: string, eof: char, after: string): string {
    u + x + v + [eof] + after
  }

  lemma FramedFacts(u: string, x: string, v: string, eof: char, after: string)
    ensures var text := Framed(u, x, v, eof, after);
            && |u| + |x| + |v| < |text| && text[0..|u|] == u && text[|u|..|u| + |x|] == x
            && text[|u| + |x|..|u| + |x| + |v|] == v && text[|u| + |x| + |v|] == eof
            && (u + x != "" ==> text[0] == (u + x)[0]) && (x != "" ==> text[|u|] == x[0])
  {
  }

  /** If what is in the middle adds element `e`, the whole text is the pattern `u`, `e`, `v`. */
  lemma ParseAround(u: string, x: string, e: Elem, v: string, eof: char, after: string)
    requires Plain(u, eof) && Plain(v, eof) && (v != "" ==> v[|v| - 1] != '$')
    requires x != "" && x[0] != eof
    requires |ElemCode(e)| + 2 * |u| + 2 * |v| < ESIZE
    requires var text := Framed(u, x, v, eof, after);
             Parse(text, |u|, eof, Literal(u), 0, []) == Parse(text, |u| + |x|, eof, Literal(u) + [e], 0, [])
    ensures Parse(Framed(u, x, v, eof, after), 0, eof, [], 0, []) ==
            Good(Literal(u) + [e] + Literal(v), |u| + |x| + |v| + 1)
  {
    hide Parse, Body, ElemCode, Framed, Plain, Literal;
    var text := Framed(u, x, v, eof, after);
    FramedFacts(u, x, v, eof, after);
    NoBody();
    assert [] + Literal(u) == Literal(u);
    BodyLiteral([], u);
    BodyAppend(Literal(u), e);
    PlainRun(text, 0, eof, [], 0, [], u);
    PlainRun(text, |u| + |x|, eof, Literal(u) + [e], 0, [], v);
    BodyLiteral(Literal(u) + [e], v);
    AtDelimiter(text, |u| + |x| + |v|, eof, Literal(u) + [e] + Literal(v));
  }

  lemma NoBody()
    ensures Body([]) == []
  {
  }

  lemma AtDelimiter(text: string, pos: nat, eof: char, es: seq<Elem>)
    requires pos < |text| && text[pos] == eof && |Body(es)| < ESIZE
    ensures Parse(text, pos, eof, es, 0, []) == Good(es, pos + 1)
  {
  }

  /** The first character neither ends, anchors nor stars. */
  ghost predicate Begins(text: string, eof: char) {
    text != "" && text[0] != eof && text[0] != '^' && text[0] != '*'
  }

  lemma BeginsPlain(u: string, x: string, eof: char)
    requires Plain(u, eof) && (u != "" ==> u[0] != '^') && (u == "" ==> Begins(x, eof))
    ensures Begins(u + x, eof)
  {
    if u == "" { assert u + x == x; } else { assert (u + x)[0] == u[0]; }
  }

  lemma CompileAround(u: string, x: string, e: Elem, v: string, eof: char, after: string, hasLast: bool)
    requires Plain(u, eof) && Plain(v, eof) && (v != "" ==> v[|v| - 1] != '$') && Begins(u + x, eof)
    requires x != "" && x[0] != eof && |ElemCode(e)| + 2 * |u| + 2 * |v| < ESIZE
    requires var text := Framed(u, x, v, eof, after);
             Parse(text, |u|, eof, Literal(u), 0, []) == Parse(text, |u| + |x|, eof, Literal(u) + [e], 0, [])
    ensures CompileOf(Framed(u, x, v, eof, after), eof, hasLast) ==
            Program(false, Encode(Literal(u) + [e] + Literal(v)), |u| + |x| + |v| + 1)
  {
    hide Parse, Encode, ElemCode, Framed, Plain, Literal;
    FramedFacts(u, x, v, eof, after);
    ParseAround(u, x, e, v, eof, after);
  }

  /** Text without syntax compiles to itself: `$` but at the end, and `^` but at the start, included. */
  lemma PlainCompiles(w: string, eof: char, after: string, hasLast: bool)
    requires Plain(w, eof) && w != "" && w[0] != '^' && w[|w| - 1] != '$' && 2 * |w| < ESIZE
    ensures CompileOf(w + [eof] + after, eof, hasLast) == Program(false, Encode(Literal(w)), |w| + 1)
  {
    hide Parse, Encode, Body;
    var text := w + [eof] + after;
    NoBody();
    BodyLiteral([], w);
    assert [] + Literal(w) == Literal(w);
    assert text[0..|w|] == w && text[|w|] == eof && text[0] == w[0];
    PlainRun(text, 0, eof, [], 0, [], w);
    AtDelimiter(text, |w|, eof, Literal(w));
  }

  /** A backslash makes any character but brackets and the line end stand for itself. */
  lemma EscapeCompiles(u: string, c: char, v: string, eof: char, after: string, hasLast: bool)
    requires Plain(u, eof) && Plain(v, eof) && (v != "" ==> v[|v| - 1] != '$') && (u != "" ==> u[0] != '^')
    requires eof != '\\' && c != '(' && c != ')' && c != '\n' && 2 * (|u| + 1 + |v|) < ESIZE
    ensures CompileOf(u + ['\\', c] + v + [eof] + after, eof, hasLast) ==
            Program(false, Encode(Literal(u + [c] + v)), |u| + 2 + |v| + 1)
  {
    hide Encode, Body;
    var text := u + ['\\', c] + v + [eof] + after;
    assert text[|u|] == '\\' && text[|u| + 1] == c && (u + ['\\', c])[0] == if u == "" then '\\' else u[0];
    NoBody();
    BodyLiteral([], u);
    assert [] + Literal(u) == Literal(u);
    CompileAround(u, ['\\', c], One(Chr(c)), v, eof, after, hasLast);
    assert Literal(u + [c] + v) == Literal(u) + [One(Chr(c))] + Literal(v);
  }

  /** A dot stands for any character. */
  lemma DotCompiles(u: string, v: string, eof: char, after: string, hasLast: bool)
    requires Plain(u, eof) && Plain(v, eof) && (v != "" ==> v[|v| - 1] != '$') && (u != "" ==> u[0] != '^')
    requires eof != '.' && 2 * (|u| + 1 + |v|) < ESIZE
    ensures CompileOf(u + "." + v + [eof] + after, eof, hasLast) ==
            Program(false, Encode(Literal(u) + [One(Any)] + Literal(v)), |u| + 1 + |v| + 1)
  {
    hide Encode, Body;
    var text := u + "." + v + [eof] + after;
    assert text[|u|] == '.' && (u + ".")[0] == if u == "" then '.' else u[0];
    NoBody();
    BodyLiteral([], u);
    assert [] + Literal(u) == Literal(u);
    CompileAround(u, ".", One(Any), v, eof, after, hasLast);
  }

  /** What can stand between brackets: a member, no line end, and a closing bracket only in front. */
  ghost predicate Members(m: string) {
    && m != "" && (forall k :: 0 <= k < |m| ==> m[k] != '\n') && (forall k :: 0 < k < |m| ==> m[k] != ']')
  }

  lemma ClassStep(text: string, pos: nat, eof: char, es: seq<Elem>, negated: bool, m: string)
    requires eof != '[' && Members(m) && (negated || m[0] != '^') && |Body(es)| + 2 + |m| < ESIZE
    requires var x := (if negated then "[^" else "[") + m + "]";
             pos + |x| <= |text| && text[pos..pos + |x|] == x
    ensures var x := (if negated then "[^" else "[") + m + "]";
            Parse(text, pos, eof, es, 0, []) == Parse(text, pos + |x|, eof, es + [One(Class(negated, m))], 0, [])
  {
    hide Body, ParseClass, Escaped, StartsWith;
    var head := if negated then "[^" else "[";
    ClassText(text, pos, negated, m);
    ClassReadBack(text, pos + |head|, "", m, |Body(es)|);
    assert "" + m == m;
  }

  lemma ClassText(text: string, pos: nat, negated: bool, m: string)
    requires m != ""
    requires var x := (if negated then "[^" else "[") + m + "]";
             pos + |x| <= |text| && text[pos..pos + |x|] == x
    ensures var head := if negated then "[^" else "[";
            && text[pos] == '[' && text[pos + 1] == (if negated then '^' else m[0])
            && StartsWith(text, pos + |head|, m + "]")
  {
    var head := if negated then "[^" else "[";
    var x := head + (m + "]");
    assert (if negated then "[^" else "[") + m + "]" == x;
    StartsWithAt(text, pos, x, 0);
    StartsWithAt(text, pos, x, 1);
    StartsWithSplit(text, pos, head, m + "]");
  }

  /** A class stands for one of its members, a negated one for any other character. */
  lemma ClassCompiles(u: string, m: string, v: string, eof: char, after: string, hasLast: bool)
    requires Plain(u, eof) && Plain(v, eof) && (v != "" ==> v[|v| - 1] != '$') && (u != "" ==> u[0] != '^')
    requires eof != '[' && Members(m) && 2 * |u| + 2 + |m| + 2 * |v| < ESIZE
    ensures m[0] != '^' ==>
              CompileOf(u + ("[" + m + "]") + v + [eof] + after, eof, hasLast) ==
              Program(false, Encode(Literal(u) + [One(Class(false, m))] + Literal(v)), |u| + 2 + |m| + |v| + 1)
    ensures CompileOf(u + ("[^" + m + "]") + v + [eof] + after, eof, hasLast) ==
            Program(false, Encode(Literal(u) + [One(Class(true, m))] + Literal(v)), |u| + 3 + |m| + |v| + 1)
  {
    hide Encode, Body, Parse;
    NoBody();
    BodyLiteral([], u);
    assert [] + Literal(u) == Literal(u);
    if m[0] != '^' { ClassFramed(u, false, m, v, eof, after, hasLast); }
    ClassFramed(u, true, m, v, eof, after, hasLast);
  }

  lemma ClassFramed(u: string, negated: bool, m: string, v: string, eof: char, after: string, hasLast: bool)
    requires Plain(u, eof) && Plain(v, eof) && (v != "" ==> v[|v| - 1] != '$') && (u != "" ==> u[0] != '^')
    requires eof != '[' && Members(m) && (negated || m[0] != '^') && 2 * |u| + 2 + |m| + 2 * |v| < ESIZE
    requires |Body(Literal(u))| == 2 * |u|
    ensures var x := (if negated then "[^" else "[") + m + "]";
            CompileOf(Framed(u, x, v, eof, after), eof, hasLast) ==
            Program(false, Encode(Literal(u) + [One(Class(negated, m))] + Literal(v)), |u| + |x| + |v| + 1)
  {
    hide Encode, Body, Parse, CompileOf, Framed, Plain, Literal;
    var x := (if negated then "[^" else "[") + m + "]";
    var text := Framed(u, x, v, eof, after);
    FramedFacts(u, x, v, eof, after);
    ClassStep(text, |u|, eof, Literal(u), negated, m);
    assert x[0] == '[';
    BeginsPlain(u, x, eof);
    CompileAround(u, x, One(Class(negated, m)), v, eof, after, hasLast);
  }

  // ----- stars -----

  ghost function Stars(k: nat): string {
    seq(k, _ => '*')
  }

  /** One star or many behind an element are the same. */
  lemma {:induction false} StarRun(text: string, pos: nat, eof: char, es: seq<Elem>, a: Atom, k: nat)
    requires eof != '*' && pos + k <= |text| && text[pos..pos + k] == Stars(k) && |Body(es + [One(a)])| < ESIZE
    ensures Parse(text, pos, eof, es + [Many(a)], 0, []) == Parse(text, pos + k, eof, es + [Many(a)], 0, [])
    ensures k > 0 ==> Parse(text, pos, eof, es + [One(a)], 0, []) == Parse(text, pos + k, eof, es + [Many(a)], 0, [])
    decreases k
  {
    hide Body, ParseClass, Escaped;
    BodyAppend(es, One(a));
    BodyAppend(es, Many(a));
    if k > 0 {
      assert text[pos] == text[pos..pos + k][0] == '*';
      assert text[pos + 1..pos + 1 + (k - 1)] == text[pos..pos + k][1..] == Stars(k - 1);
      StarRun(text, pos + 1, eof, es, a, k - 1);
      assert (es + [One(a)])[..|es|] == es && (es + [Many(a)])[..|es|] == es;
    }
  }

  /** Stars behind a character, a dot or a class. */
  lemma StarCompiles(u: string, c: char, m: string, k: nat, v: string, eof: char, after: string, hasLast: bool)
    requires Plain(u, eof) && Plain(v, eof) && (v != "" ==> v[|v| - 1] != '$') && (u != "" ==> u[0] != '^')
    requires Plain([c], eof) && (u == "" ==> c != '^') && eof != '.' && eof != '[' && eof != '*' && k > 0
    requires Members(m) && 2 * |u| + 2 + |m| + 2 * |v| < ESIZE
    ensures CompileOf(u + ([c] + Stars(k)) + v + [eof] + after, eof, hasLast) ==
            Program(false, Encode(Literal(u) + [Many(Chr(c))] + Literal(v)), |u| + 1 + k + |v| + 1)
    ensures CompileOf(u + ("." + Stars(k)) + v + [eof] + after, eof, hasLast) ==
            Program(false, Encode(Literal(u) + [Many(Any)] + Literal(v)), |u| + 1 + k + |v| + 1)
    ensures m[0] != '^' ==>
              CompileOf(u + ("[" + m + "]" + Stars(k)) + v + [eof] + after, eof, hasLast) ==
              Program(false, Encode(Literal(u) + [Many(Class(false, m))] + Literal(v)), |u| + 2 + |m| + k + |v| + 1)
    ensures CompileOf(u + ("[^" + m + "]" + Stars(k)) + v + [eof] + after, eof, hasLast) ==
            Program(false, Encode(Literal(u) + [Many(Class(true, m))] + Literal(v)), |u| + 3 + |m| + k + |v| + 1)
  {
    hide Encode, Body, Parse, CompileOf;
    NoBody();
    BodyLiteral([], u);
    assert [] + Literal(u) == Literal(u);
    CharStep(u, c, k, v, eof, after);
    StarFramed(u, [c], Chr(c), k, v, eof, after, hasLast);
    DotStep(u, k, v, eof, after);
    StarFramed(u, ".", Any, k, v, eof, after, hasLast);
    if m[0] != '^' {
      ClassStarStep(u, false, m, k, v, eof, after);
      StarFramed(u, "[" + m + "]", Class(false, m), k, v, eof, after, hasLast);
    }
    ClassStarStep(u, true, m, k, v, eof, after);
    StarFramed(u, "[^" + m + "]", Class(true, m), k, v, eof, after, hasLast);
  }

  lemma StarFramed(u: string, x: string, a: Atom, k: nat, v: string, eof: char, after: string, hasLast: bool)
    requires Plain(u, eof) && Plain(v, eof) && (v != "" ==> v[|v| - 1] != '$') && eof != '*' && k > 0
    requires x != "" && x[0] != eof && Begins(u + x, eof) && 2 * |u| + |AtomCode(a)| + 2 * |v| < ESIZE
    requires |Body(Literal(u))| == 2 * |u|
    requires var text := Framed(u, x + Stars(k), v, eof, after);
             Parse(text, |u|, eof, Literal(u), 0, []) == Parse(text, |u| + |x|, eof, Literal(u) + [One(a)], 0, [])
    ensures CompileOf(Framed(u, x + Stars(k), v, eof, after), eof, hasLast) ==
            Program(false, Encode(Literal(u) + [Many(a)] + Literal(v)), |u| + |x| + k + |v| + 1)
  {
    hide Encode, Body, Parse, CompileOf, AtomCode, Stars, Literal, Plain, ElemCode, Framed;
    StarsLength(k);
    var y := x + Stars(k);
    var text := Framed(u, y, v, eof, after);
    StarCode(a);
    BodyAppend(Literal(u), One(a));
    StarsThere(u, x, k, v, eof, after);
    StarRun(text, |u| + |x|, eof, Literal(u), a, k);
    assert |u| + |y| == |u| + |x| + k;
    CompileAround(u, y, Many(a), v, eof, after, hasLast);
  }

  lemma StarCode(a: Atom)
    ensures |ElemCode(Many(a))| == |AtomCode(a)| == |ElemCode(One(a))|
  {
  }

  lemma StarsThere(u: string, x: string, k: nat, v: string, eof: char, after: string)
    requires x != ""
    ensures var text := Framed(u, x + Stars(k), v, eof, after);
            && |u| + |x| + k <= |text| && text[|u| + |x|..|u| + |x| + k] == Stars(k)
            && (Begins(u + x, eof) ==> Begins(u + (x + Stars(k)), eof)) && (x + Stars(k))[0] == x[0]
  {
    hide Stars, Framed;
    StarsLength(k);
    var y := x + Stars(k);
    var text := Framed(u, y, v, eof, after);
    FramedFacts(u, y, v, eof, after);
    assert text[|u| + |x|..|u| + |y|] == text[|u|..|u| + |y|][|x|..];
    assert (u + y)[0] == (u + x)[0];
  }

  lemma StarsLength(k: nat)
    ensures |Stars(k)| == k
  {
  }

  lemma CharStep(u: string, c: char, k: nat, v: string, eof: char, after: string)
    requires Plain([c], eof) && k > 0 && eof != '*' && |Body(Literal(u))| + 2 < ESIZE
    ensures var text := Framed(u, [c] + Stars(k), v, eof, after);
            Parse(text, |u|, eof, Literal(u), 0, []) == Parse(text, |u| + 1, eof, Literal(u) + [One(Chr(c))], 0, [])
  {
    hide Body, Parse, Framed;
    var text := Framed(u, [c] + Stars(k), v, eof, after);
    FramedFacts(u, [c] + Stars(k), v, eof, after);
    assert text[|u|..|u| + 1] == text[|u|..|u| + 1 + k][..1] == [c];
    assert text[|u| + 1] == text[|u|..|u| + 1 + k][1] == '*';
    PlainRun(text, |u|, eof, Literal(u), 0, [], [c]);
    assert Literal([c]) == [One(Chr(c))];
  }

  lemma DotStep(u: string, k: nat, v: string, eof: char, after: string)
    requires eof != '.' && |Body(Literal(u))| < ESIZE
    ensures var text := Framed(u, "." + Stars(k), v, eof, after);
            Parse(text, |u|, eof, Literal(u), 0, []) == Parse(text, |u| + 1, eof, Literal(u) + [One(Any)], 0, [])
  {
    hide Body;
    FramedFacts(u, "." + Stars(k), v, eof, after);
  }

  lemma ClassStarStep(u: string, negated: bool, m: string, k: nat, v: string, eof: char, after: string)
    requires eof != '[' && Members(m) && (negated || m[0] != '^') && |Body(Literal(u))| + 2 + |m| < ESIZE
    ensures var x := (if negated then "[^" else "[") + m + "]";
            var text := Framed(u, x + Stars(k), v, eof, after);
            Parse(text, |u|, eof, Literal(u), 0, []) ==
            Parse(text, |u| + |x|, eof, Literal(u) + [One(Class(negated, m))], 0, [])
  {
    hide Body, Parse, Framed;
    var x := (if negated then "[^" else "[") + m + "]";
    var text := Framed(u, x + Stars(k), v, eof, after);
    FramedFacts(u, x + Stars(k), v, eof, after);
    StarsLength(k);
    FrontOf(text, |u|, x, Stars(k));
    ClassStep(text, |u|, eof, Literal(u), negated, m);
  }

  lemma FrontOf(text: string, p: nat, x: string, z: string)
    requires p + |x| + |z| <= |text| && text[p..p + |x| + |z|] == x + z
    ensures text[p..p + |x|] == x
  {
    assert text[p..p + |x|] == text[p..p + |x| + |z|][..|x|];
  }

  // ----- anchors, brackets and errors -----

  /** A dollar in front of the delimiter stands for the end of the line. */
  lemma DollarCompiles(u: string, eof: char, after: string, hasLast: bool)
    requires Plain(u, eof) && (u != "" ==> u[0] != '^') && eof != '$' && 2 * |u| + 1 < ESIZE
    ensures CompileOf(u + "$" + [eof] + after, eof, hasLast) == Program(false, Encode(Literal(u) + [Last]), |u| + 2)
  {
    hide Encode, Body;
    var text := Framed(u, "$", "", eof, after);
    FramedFacts(u, "$", "", eof, after);
    assert text == u + "$" + [eof] + after && text[|u| + 1] == eof;
    NoBody();
    BodyLiteral([], u);
    assert [] + Literal(u) == Literal(u);
    BeginsPlain(u, "$", eof);
    CompileAround(u, "$", Last, "", eof, after, hasLast);
    assert Literal(u) + [Last] + Literal("") == Literal(u) + [Last];
  }

  /** Moved along by `d`. */
  ghost function Later(p: Parsed, d: nat): Parsed {
    match p
    case Bad => Bad
    case Good(es, next) => Good(es, next + d)
  }

  /** `x` ends with `t`, from position `d` on. */
  ghost predicate Behind(x: string, t: string, d: nat) {
    |x| == d + |t| && forall i :: 0 <= i < |t| ==> x[d + i] == t[i]
  }

  lemma {:induction false} ClassLater(x: string, t: string, d: nat, pos: nat, members: string, base: nat)
    requires Behind(x, t, d)
    ensures ParseClass(x, d + pos, members, base) ==
            match ParseClass(t, pos, members, base)
            case BadClass => BadClass
            case GoodClass(m, next) => GoodClass(m, d + next)
    decreases |t| - pos
  {
    if pos + 1 < |t| {
      assert x[d + pos] == t[pos] && x[d + (pos + 1)] == t[pos + 1];
      ClassLater(x, t, d, pos + 1, members + [t[pos]], base);
    }
  }

  /** Parsing does not look back. */
  lemma {:induction false} ParseLater(x: string, t: string, d: nat, pos: nat, eof: char, es: seq<Elem>,
                                      nbra: nat, stack: seq<nat>)
    requires Behind(x, t, d)
    ensures Parse(x, d + pos, eof, es, nbra, stack) == Later(Parse(t, pos, eof, es, nbra, stack), d)
    decreases |t| - pos
  {
    hide Body, ParseClass, Escaped;
    if pos < |t| && |Body(es)| < ESIZE && t[pos] != eof {
      assert x[d + pos] == t[pos];
      assert pos + 1 < |t| ==> x[d + (pos + 1)] == t[pos + 1];
      var c := t[pos];
      if c == '\\' {
        if pos + 1 < |t| && Escaped(t[pos + 1], nbra, stack).Some? {
          var (e, nbra', stack') := Escaped(t[pos + 1], nbra, stack).value;
          ParseLater(x, t, d, pos + 2, eof, es + [e], nbra', stack');
        }
      } else if c == '*' {
        if es != [] && es[|es| - 1].One? {
          ParseLater(x, t, d, pos + 1, eof, es[..|es| - 1] + [Many(es[|es| - 1].atom)], nbra, stack);
        } else if es != [] && es[|es| - 1].Many? {
          ParseLater(x, t, d, pos + 1, eof, es, nbra, stack);
        }
      } else if c == '[' {
        if pos + 1 < |t| {
          var negated := t[pos + 1] == '^';
          var start := if negated then pos + 2 else pos + 1;
          ClassLater(x, t, d, start, "", |Body(es)|);
          if ParseClass(t, start, "", |Body(es)|).GoodClass? {
            var m, next := ParseClass(t, start, "", |Body(es)|).members, ParseClass(t, start, "", |Body(es)|).next;
            ParseClassAdvances(t, start, "", |Body(es)|);
            ParseLater(x, t, d, next, eof, es + [One(Class(negated, m))], nbra, stack);
          }
        }
      } else if c == '$' {
        if pos + 1 < |t| {
          ParseLater(x, t, d, pos + 1, eof, es + [if t[pos + 1] == eof then Last else One(Chr('$'))], nbra, stack);
        }
      } else if c == '.' {
        ParseLater(x, t, d, pos + 1, eof, es + [One(Any)], nbra, stack);
      } else if c != '\n' {
        ParseLater(x, t, d, pos + 1, eof, es + [One(Chr(c))], nbra, stack);
      }
    }
  }

  /** A leading `^` anchors the same program. */
  lemma AnchorCompiles(t: string, eof: char, hasLast: bool)
    requires Begins(t, eof) && eof != '^'
    ensures CompileOf("^" + t, eof, hasLast) ==
            match CompileOf(t, eof, hasLast)
            case Program(_, code, next) => Program(true, code, next + 1)
            case _ => Error
  {
    hide Parse, Encode;
    ParseLater("^" + t, t, 1, 0, eof, [], 0, []);
    assert ("^" + t)[0] == '^' && ("^" + t)[1] == t[0];
  }

  ghost function Bracketed(u: string, v: string, w: string, eof: char, after: string): string {
    u + "\\(" + v + "\\)" + w + [eof] + after
  }

  lemma BracketedFacts(u: string, v: string, w: string, eof: char, after: string)
    ensures var text, p, q := Bracketed(u, v, w, eof, after), |u| + 2, |u| + 2 + |v|;
            && q + 2 + |w| < |text| && text[0] == (u + "\\")[0]
            && text[0..|u|] == u && text[|u|] == '\\' && text[|u| + 1] == '('
            && text[p..p + |v|] == v && text[q] == '\\' && text[q + 1] == ')'
            && text[q + 2..q + 2 + |w|] == w && text[q + 2 + |w|] == eof
  {
  }

  /** Brackets around a part. */
  lemma BracketsCompile(u: string, v: string, w: string, eof: char, after: string, hasLast: bool)
    requires Plain(u, eof) && Plain(v, eof) && Plain(w, eof) && (w != "" ==> w[|w| - 1] != '$')
    requires (u != "" ==> u[0] != '^') && eof != '\\' && 2 * (|u| + 1 + |v| + 1 + |w|) < ESIZE
    ensures CompileOf(u + "\\(" + v + "\\)" + w + [eof] + after, eof, hasLast) ==
            Program(false, Encode(Literal(u) + [Open(0)] + Literal(v) + [Close(0)] + Literal(w)), |u| + |v| + |w| + 5)
  {
    hide Encode, Body, Parse, Plain, Literal;
    BracketsParse(u, v, w, eof, after);
    BracketedFacts(u, v, w, eof, after);
    BeginsPlain(u, "\\", eof);
    assert Bracketed(u, v, w, eof, after) == u + "\\(" + v + "\\)" + w + [eof] + after;
  }

  lemma BracketsParse(u: string, v: string, w: string, eof: char, after: string)
    requires Plain(u, eof) && Plain(v, eof) && Plain(w, eof) && (w != "" ==> w[|w| - 1] != '$')
    requires eof != '\\' && 2 * (|u| + 1 + |v| + 1 + |w|) < ESIZE
    ensures Parse(Bracketed(u, v, w, eof, after), 0, eof, [], 0, []) ==
            Good(Literal(u) + [Open(0)] + Literal(v) + [Close(0)] + Literal(w), |u| + |v| + |w| + 5)
  {
    hide Encode, Body, Parse, Plain, Literal, Bracketed, ElemCode;
    var text, p, q := Bracketed(u, v, w, eof, after), |u| + 2, |u| + 2 + |v|;
    BracketedFacts(u, v, w, eof, after);
    NoBody();
    MarkCode(0);
    var e1 := Literal(u);
    assert [] + e1 == e1;
    BodyLiteral([], u);
    PlainRun(text, 0, eof, [], 0, [], u);
    OpenStep(text, |u|, eof, e1, 0, []);
    BodyAppend(e1, Open(0));
    var e2 := e1 + [Open(0)] + Literal(v);
    BodyLiteral(e1 + [Open(0)], v);
    PlainRun(text, p, eof, e1 + [Open(0)], 1, [] + [0], v);
    CloseStep(text, q, eof, e2, 1, [] + [0]);
    BodyAppend(e2, Close(0));
    BodyLiteral(e2 + [Close(0)], w);
    assert ([] + [0])[..0] == [];
    PlainRun(text, q + 2, eof, e2 + [Close(0)], 1, [], w);
    EndStep(text, q + 2 + |w|, eof, e2 + [Close(0)] + Literal(w), 1, []);
  }

  lemma MarkCode(n: nat)
    ensures |ElemCode(Open(n))| == |ElemCode(Close(n))| == 2
  {
  }

  lemma OpenStep(text: string, pos: nat, eof: char, es: seq<Elem>, nbra: nat, stack: seq<nat>)
    requires pos + 1 < |text| && text[pos] == '\\' && text[pos + 1] == '(' && eof != '\\'
             && |Body(es)| < ESIZE && nbra < 5
    ensures Parse(text, pos, eof, es, nbra, stack) ==
            Parse(text, pos + 2, eof, es + [Open(nbra)], nbra + 1, stack + [nbra])
  {
    hide Body;
  }

  lemma CloseStep(text: string, pos: nat, eof: char, es: seq<Elem>, nbra: nat, stack: seq<nat>)
    requires pos + 1 < |text| && text[pos] == '\\' && text[pos + 1] == ')' && eof != '\\' && |Body(es)| < ESIZE
    requires stack != []
    ensures Parse(text, pos, eof, es, nbra, stack) ==
            Parse(text, pos + 2, eof, es + [Close(stack[|stack| - 1])], nbra, stack[..|stack| - 1])
  {
    hide Body;
  }

  lemma EndStep(text: string, pos: nat, eof: char, es: seq<Elem>, nbra: nat, stack: seq<nat>)
    requires pos < |text| && text[pos] == eof && |Body(es)| < ESIZE
    ensures Parse(text, pos, eof, es, nbra, stack) == Good(es, pos + 1)
  {
  }

  lemma RefusedAt(u: string, y: string, eof: char, hasLast: bool)
    requires Plain(u, eof) && (u != "" ==> u[0] != '^') && 2 * |u| < ESIZE && y != "" && y[0] != eof
    requires u == "" ==> y[0] != '^'
    requires Parse(u + y, |u|, eof, Literal(u), 0, []).Bad?
    ensures CompileOf(u + y, eof, hasLast) == Error
  {
    hide Parse, Plain, Literal, Body, Encode;
    var text := u + y;
    NoBody();
    assert [] + Literal(u) == Literal(u) && text[0..|u|] == u && text[|u|] == y[0];
    PlainRun(text, 0, eof, [], 0, [], u);
    if u != "" { PlainFirst(u, eof); assert text[0] == u[0]; }
  }

  lemma PlainFirst(u: string, eof: char)
    requires Plain(u, eof) && u != ""
    ensures u[0] != eof && u[0] != '*'
  {
  }

  /** What is refused: a star with nothing in front of it, behind the anchor too; a bracket that closes
      none; a line end. */
  lemma Refused(u: string, eof: char, after: string, hasLast: bool)
    requires Plain(u, eof) && (u != "" ==> u[0] != '^') && 2 * |u| < ESIZE
    ensures eof != '*' ==> CompileOf("*" + after, eof, hasLast) == Error
    ensures eof != '*' && eof != '^' ==> CompileOf("^*" + after, eof, hasLast) == Error
    ensures eof != '\\' ==> CompileOf(u + ("\\)" + after), eof, hasLast) == Error
    ensures eof != '\n' ==> CompileOf(u + ("\n" + after), eof, hasLast) == Error
  {
    hide Encode, Body;
    assert ("*" + after)[0] == '*' && ("^*" + after)[0] == '^' && ("^*" + after)[1] == '*';
    if eof != '\\' {
      var y := "\\)" + after;
      assert (u + y)[|u|] == '\\' && (u + y)[|u| + 1] == ')';
      RefusedAt(u, y, eof, hasLast);
    }
    if eof != '\n' {
      var y := "\n" + after;
      assert (u + y)[|u|] == '\n';
      RefusedAt(u, y, eof, hasLast);
    }
  }

  /** And a pattern that is too long. */
  lemma TooLong(u: string, eof: char, after: string, hasLast: bool)
    requires Plain(u, eof) && u != "" && u[0] != '^' && 2 * |u| >= ESIZE && after != ""
    requires |u| == 64 && u[63] == '$' ==> after[0] != eof
    ensures CompileOf(u + after, eof, hasLast) == Error
  {
    hide Encode, Body, Literal, ParseClass, Escaped;
    var text, w, c := u + after, u[..63], u[63];
    NoBody();
    assert [] + Literal(w) == Literal(w) && text[0..63] == w && text[63] == c && text[0] == u[0];
    PlainRun(text, 0, eof, [], 0, [], w);
    BodyLiteral([], w);
    BodyAppend(Literal(w), One(Chr(c)));
    assert text[64] == if |u| == 64 then after[0] else u[64];
    assert Parse(text, 63, eof, Literal(w), 0, []) == Parse(text, 64, eof, Literal(w) + [One(Chr(c))], 0, []);
  }

  // ----- the search for a text -----

  /** Compiling a plain text and searching a line with it finds the first place where it occurs. */
  method FindPlain(w: string, eof: char, line: string) returns (r: Option<nat>)
    requires NulFree(w) && NulFree(line) && eof != '\0'
    requires Plain(w, eof) && w != "" && w[0] != '^' && w[|w| - 1] != '$' && 2 * |w| < ESIZE
    ensures r.None? <==> forall i: nat :: !Occurs(w, line, i)
    ensures r.Some? ==> Occurs(w, line, r.value) && forall i: nat :: i < r.value ==> !Occurs(w, line, i)
  {
    hide CompileOf, Encode, Literal, Matches, FoundAt, CodeAt, WellFormed, Plain, Occurs;
    var text := w + [eof];
    assert text == w + [eof] + "";
    PlainCompiles(w, eof, "", false);
    var p := Compile(text, eof, false);
    var m := new Matcher(p.code, p.anchored, line);
    LiteralCode(w);
    ghost var bs, be := m.braslist, m.braelist;
    var ok := m.Execute(false, Literal(w));
    forall i: nat
      ensures Matches(Literal(w), line, -1, i) <==> Occurs(w, line, i)
    {
      LiteralMatches(w, line, i);
    }
    forall i: nat | Occurs(w, line, i)
      ensures i <= |line|
    {
      OccursInLine(w, line, i);
    }
    if !ok {
      return None;
    }
    FoundMatches(Literal(w), line, m.loc1, m.loc2, bs, m.braslist, be, m.braelist);
    return Some(m.loc1);
  }

  lemma FoundMatches(es: seq<Elem>, line: string, loc1: nat, loc2: nat,
                     bs0: seq<nat>, bs: seq<nat>, be0: seq<nat>, be: seq<nat>)
    requires FoundAt(es, line, -1, loc1, loc2, bs0, bs, be0, be)
    ensures Matches(es, line, -1, loc1)
  {
    hide Greedy, Reaches, Marked;
  }

  lemma OccursInLine(w: string, line: string, i: nat)
    requires Occurs(w, line, i)
    ensures i <= |line|
  {
  }

  lemma LiteralCode(w: string)
    requires NulFree(w)
    ensures WellFormed(Literal(w)) && CodeAt(Encode(Literal(w)), 0, Literal(w))
  {
    hide Encode;
    assert Encode(Literal(w))[0..] == Encode(Literal(w));
  }

  lemma LiteralMatches(w: string, line: string, i: nat)
    requires NulFree(line)
    ensures Matches(Literal(w), line, -1, i) <==> Occurs(w, line, i)
  {
    hide Spans, Literal, Matches;
    MatchesSpans(Literal(w), line, i);
    forall j: nat { LiteralMeans(w, line, i, j); }
    if Occurs(w, line, i) { assert Spans(Literal(w), line, i, i + |w|); }
  }
}
