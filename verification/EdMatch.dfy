/** The backtracking matcher and the search of user/bin/ed.c (`advance`, `cclass`, `execute`) over
    compiled byte code. */
module EdMatch {
  import opened EdPattern

  /** Patterns that byte code can express: no NUL to match, brackets within the table. */
  ghost predicate WellFormed(es: seq<Elem>) {
    forall n :: 0 <= n < |es| ==> WellFormedElem(es[n])
  }

  ghost predicate WellFormedElem(e: Elem) {
    match e
    case One(Chr(c)) => c != '\0'
    case Many(Chr(c)) => c != '\0'
    case Open(n) => n < NBRA
    case Close(n) => n < NBRA
    case _ => true
  }

  /** The code from `ep` on is that of `es`. */
  ghost predicate CodeAt(code: seq<nat>, ep: nat, es: seq<Elem>) {
    ep <= |code| && code[ep..] == Encode(es)
  }

  lemma {:induction false} EncodeNonempty(es: seq<Elem>)
    ensures 0 < |Encode(es)|
  {
  }

  /** The first operator of an encoded pattern, its operands and what follows. */
  lemma HeadCode(code: seq<nat>, ep: nat, es: seq<Elem>)
    requires CodeAt(code, ep, es)
    ensures ep < |code|
    ensures es == [] ==> code[ep] == CEOF
    ensures es != [] ==>
              var w := ElemCode(es[0]);
              ep + |w| < |code| && code[ep..ep + |w|] == w && CodeAt(code, ep + |w|, es[1..])
  {
    EncodeNonempty(es);
    assert code[ep..][0] == code[ep];
    if es != [] {
      var w := ElemCode(es[0]);
      EncodeNonempty(es[1..]);
      assert code[ep..][..|w|] == code[ep..ep + |w|];
      assert code[ep..][|w|..] == code[ep + |w|..];
    }
  }

  /** The operand bytes of an operator on an atom. */
  ghost predicate OperandAt(code: seq<nat>, ep: nat, a: Atom) {
    && ep + |AtomCode(a)| - 1 <= |code|
    && code[ep..ep + |AtomCode(a)| - 1] == AtomCode(a)[1..]
    && (a.Chr? ==> a.c != '\0')
  }

  lemma OperandIs(code: seq<nat>, ep: nat, a: Atom)
    requires OperandAt(code, ep, a)
    ensures a.Chr? ==> ep < |code| && code[ep] == a.c as nat && a.c != '\0' && |AtomCode(a)| == 2
    ensures a.Class? ==> ep < |code| && code[ep] == |a.members| + 1 == |AtomCode(a)| - 1 && ep + code[ep] <= |code|
    ensures a.Class? ==> code[ep + 1..ep + code[ep]] == Codes(a.members)
  {
    var w := AtomCode(a);
    var body := code[ep..ep + |w| - 1];
    if a.Chr? {
      assert body[0] == code[ep];
    } else if a.Class? {
      assert body == [|a.members| + 1] + Codes(a.members);
      assert body[0] == code[ep];
      assert body[1..] == code[ep + 1..ep + |w| - 1];
    }
  }

  lemma AtomOp(a: Atom)
    ensures AtomCode(a) != []
    ensures AtomCode(a)[0] == match a case Chr(_) => CCHR case Any => CDOT case Class(n, _) => if n then NCCL else CCL
  {
  }

  predicate IsAtomOp(op: nat) {
    op == CCHR || op == CDOT || op == CCL || op == NCCL
  }

  /** The operators tell the elements apart and their operands follow them. */
  lemma Decode(code: seq<nat>, ep: nat, es: seq<Elem>)
    requires CodeAt(code, ep, es) && WellFormed(es)
    ensures ep < |code| && (code[ep] == CEOF <==> es == [])
    ensures code[ep] == CBRA <==> es != [] && es[0].Open?
    ensures code[ep] == CKET <==> es != [] && es[0].Close?
    ensures code[ep] == CBRA || code[ep] == CKET ==>
              ep + 1 < |code| && code[ep + 1] == es[0].n < NBRA && CodeAt(code, ep + 2, es[1..])
    ensures code[ep] == CDOL <==> es != [] && es[0].Last?
    ensures code[ep] == CDOL ==> CodeAt(code, ep + 1, es[1..])
    ensures IsAtomOp(code[ep]) <==> es != [] && es[0].One?
    ensures IsAtomOp(code[ep]) ==>
              && code[ep] == AtomCode(es[0].atom)[0] && OperandAt(code, ep + 1, es[0].atom)
              && CodeAt(code, ep + |AtomCode(es[0].atom)|, es[1..])
    ensures es != [] && es[0].Many? ==>
              && code[ep] == AtomCode(es[0].atom)[0] + STAR >= STAR && OperandAt(code, ep + 1, es[0].atom)
              && CodeAt(code, ep + |AtomCode(es[0].atom)|, es[1..])
  {
    HeadCode(code, ep, es);
    if es != [] {
      var w := ElemCode(es[0]);
      assert code[ep..ep + |w|][0] == code[ep];
      assert WellFormedElem(es[0]);
      if es[0].One? || es[0].Many? {
        assert w[1..] == AtomCode(es[0].atom)[1..];
        assert code[ep + 1..ep + |w|] == code[ep..ep + |w|][1..];
      } else if !es[0].Last? {
        assert code[ep + 1] == code[ep..ep + |w|][1];
      }
    }
  }

  // ----- bracket tables -----

  function Stars(es: seq<Elem>): nat {
    if es == [] then 0 else (if es[0].Many? then 1 else 0) + Stars(es[1..])
  }

  lemma {:induction false} FoundStars(es: seq<Elem>, line: string, locs: int, i: nat)
    ensures Greedy(es, line, locs, i).Yes? ==> |Greedy(es, line, locs, i).stars| == Stars(es)
    decreases |es|, 0
  {
    if es != [] {
      match es[0]
      case One(a) => FoundStars(es[1..], line, locs, i + 1);
      case Many(a) => GivenBackStars(es[1..], line, locs, i, Run(a, line, i));
      case Last => FoundStars(es[1..], line, locs, i);
      case Open(_) => FoundStars(es[1..], line, locs, i);
      case Close(_) => FoundStars(es[1..], line, locs, i);
    }
  }

  lemma {:induction false} GivenBackStars(es: seq<Elem>, line: string, locs: int, i: nat, k: nat)
    ensures GiveBack(es, line, locs, i, k).Yes? ==> |GiveBack(es, line, locs, i, k).stars| == 1 + Stars(es)
    decreases |es|, k + 1
  {
    FoundStars(es, line, locs, i + k);
    if k > 0 { GivenBackStars(es, line, locs, i, k - 1); }
  }

  ghost predicate Sets(es: seq<Elem>, open: bool, n: nat) {
    exists m :: 0 <= m < |es| && es[m] == if open then Open(n) else Close(n)
  }

  /** The tables differ at most at brackets that `es` opens (closes). */
  ghost predicate AgreeOutside(es: seq<Elem>, open: bool, b: seq<nat>, c: seq<nat>) {
    |b| == |c| && forall n :: 0 <= n < |b| && !Sets(es, open, n) ==> b[n] == c[n]
  }

  lemma SetsTail(es: seq<Elem>, open: bool, n: nat)
    requires es != []
    ensures Sets(es, open, n) <==> es[0] == (if open then Open(n) else Close(n)) || Sets(es[1..], open, n)
  {
    if Sets(es[1..], open, n) {
      var m :| 0 <= m < |es[1..]| && es[1..][m] == if open then Open(n) else Close(n);
      assert es[m + 1] == es[1..][m];
    }
    if Sets(es, open, n) && es[0] != (if open then Open(n) else Close(n)) {
      var m :| 0 <= m < |es| && es[m] == if open then Open(n) else Close(n);
      assert es[1..][m - 1] == es[m];
    }
  }

  lemma AgreeTail(es: seq<Elem>, open: bool, b: seq<nat>, c: seq<nat>)
    requires es != [] && AgreeOutside(es[1..], open, b, c)
    ensures AgreeOutside(es, open, b, c)
  {
    forall n | 0 <= n < |b| && !Sets(es, open, n)
      ensures b[n] == c[n]
    {
      SetsTail(es, open, n);
    }
  }

  /** What an abandoned attempt wrote is overwritten on the way that succeeds. */
  lemma {:induction false} MarkedAgree(es: seq<Elem>, i: nat, ks: seq<nat>, open: bool, b: seq<nat>, c: seq<nat>)
    requires |ks| == Stars(es) && AgreeOutside(es, open, b, c)
    ensures Marked(es, i, ks, open, b) == Marked(es, i, ks, open, c)
    decreases |es|
  {
    if es == [] {
      assert b == c;
    } else {
      var b', c' := b, c;
      match es[0] {
        case Open(n) => b', c' := if open && n < |b| then b[n := i] else b, if open && n < |c| then c[n := i] else c;
        case Close(n) => b', c' := if !open && n < |b| then b[n := i] else b, if !open && n < |c| then c[n := i] else c;
        case _ =>
      }
      forall n | 0 <= n < |b| && !Sets(es[1..], open, n)
        ensures b'[n] == c'[n]
      {
        SetsTail(es, open, n);
      }
      var step := match es[0] case One(_) => 1 case Many(_) => ks[0] case _ => 0;
      MarkedAgree(es[1..], i + step, if es[0].Many? then ks[1..] else ks, open, b', c');
    }
  }

  /** What `advance` leaves behind: on success the end of the longest-first match and the bracket
      positions along it; on failure nothing but scribbles in the tables at the pattern's own
      brackets. */
  ghost predicate Outcome(es: seq<Elem>, line: string, locs: int, i: nat, ok: bool, end0: nat, end: nat,
                          bs0: seq<nat>, bs: seq<nat>, be0: seq<nat>, be: seq<nat>) {
    var f := Greedy(es, line, locs, i);
    && (ok <==> f.Yes?)
    && (ok ==> end == f.end && bs == Marked(es, i, f.stars, true, bs0) && be == Marked(es, i, f.stars, false, be0))
    && (!ok ==> end == end0 && AgreeOutside(es, true, bs, bs0) && AgreeOutside(es, false, be, be0))
  }

  /** The matcher has moved from (es, i0) to (rest, i) without a choice. */
  ghost predicate Progress(es: seq<Elem>, i0: nat, bs0: seq<nat>, be0: seq<nat>,
                           rest: seq<Elem>, i: nat, bs: seq<nat>, be: seq<nat>, line: string, locs: int) {
    var f := Greedy(rest, line, locs, i);
    && Greedy(es, line, locs, i0) == f
    && (f.Yes? ==> Marked(es, i0, f.stars, true, bs0) == Marked(rest, i, f.stars, true, bs))
    && (f.Yes? ==> Marked(es, i0, f.stars, false, be0) == Marked(rest, i, f.stars, false, be))
    && AgreeOutside(es, true, bs, bs0) && AgreeOutside(es, false, be, be0)
    && (forall n: nat, open: bool :: Sets(rest, open, n) ==> Sets(es, open, n))
  }

  lemma ProgressStart(es: seq<Elem>, i: nat, bs: seq<nat>, be: seq<nat>, line: string, locs: int)
    ensures Progress(es, i, bs, be, es, i, bs, be, line, locs)
  {
  }

  /** One element that is not starred and does not fail. */
  lemma ProgressStep(es: seq<Elem>, i0: nat, bs0: seq<nat>, be0: seq<nat>,
                     rest: seq<Elem>, i: nat, bs: seq<nat>, be: seq<nat>, line: string, locs: int)
    requires Progress(es, i0, bs0, be0, rest, i, bs, be, line, locs) && rest != [] && !rest[0].Many?
    requires rest[0].One? ==> Sat(rest[0].atom, At(line, i))
    requires rest[0].Last? ==> At(line, i) == 0
    ensures var bs' := if rest[0].Open? && rest[0].n < |bs| then bs[rest[0].n := i] else bs;
            var be' := if rest[0].Close? && rest[0].n < |be| then be[rest[0].n := i] else be;
            Progress(es, i0, bs0, be0, rest[1..], if rest[0].One? then i + 1 else i, bs', be', line, locs)
  {
    hide AgreeOutside, Sets;
    forall n: nat, open: bool | Sets(rest[1..], open, n)
      ensures Sets(es, open, n)
    {
      SetsTail(rest, open, n);
    }
    if rest[0].Open? {
      SetsTail(rest, true, rest[0].n);
      AgreeUpdate(es, true, bs, bs0, rest[0].n, i);
    } else if rest[0].Close? {
      SetsTail(rest, false, rest[0].n);
      AgreeUpdate(es, false, be, be0, rest[0].n, i);
    }
  }

  lemma AgreeUpdate(es: seq<Elem>, open: bool, b: seq<nat>, c: seq<nat>, n: nat, i: nat)
    requires AgreeOutside(es, open, b, c) && Sets(es, open, n)
    ensures n < |b| ==> AgreeOutside(es, open, b[n := i], c)
  {
  }

  lemma AgreeWider(es: seq<Elem>, rest: seq<Elem>, open: bool, b: seq<nat>, c: seq<nat>, d: seq<nat>)
    requires AgreeOutside(rest, open, b, c) && AgreeOutside(es, open, c, d)
    requires forall n: nat, open: bool :: Sets(rest, open, n) ==> Sets(es, open, n)
    ensures AgreeOutside(es, open, b, d)
  {
  }

  /** The outcome from where the matcher has got to is the outcome from where it started. */
  lemma ProgressOutcome(es: seq<Elem>, i0: nat, bs0: seq<nat>, be0: seq<nat>,
                        rest: seq<Elem>, i: nat, bs: seq<nat>, be: seq<nat>, line: string, locs: int,
                        ok: bool, end0: nat, end: nat, bs': seq<nat>, be': seq<nat>)
    requires Progress(es, i0, bs0, be0, rest, i, bs, be, line, locs)
    requires Outcome(rest, line, locs, i, ok, end0, end, bs, bs', be, be')
    ensures Outcome(es, line, locs, i0, ok, end0, end, bs0, bs', be0, be')
  {
    hide AgreeOutside, Sets, Greedy, Marked;
    if !ok {
      AgreeWider(es, rest, true, bs', bs, bs0);
      AgreeWider(es, rest, false, be', be, be0);
    }
  }

  // ----- the matcher -----

  /** The pattern matches at a place between `from` and `to`. */
  ghost predicate Somewhere(es: seq<Elem>, line: string, locs: int, from: nat, to: int) {
    exists i: nat :: from <= i <= to && Matches(es, line, locs, i)
  }

  /** The match at `loc1` that ends at `loc2` is preferred to every other there, and the tables have its
      brackets over what they had. */
  ghost predicate FoundAt(es: seq<Elem>, line: string, locs: int, loc1: nat, loc2: nat,
                          bs0: seq<nat>, bs: seq<nat>, be0: seq<nat>, be: seq<nat>)
  {
    var f := Greedy(es, line, locs, loc1);
    && f.Yes? && loc1 <= f.end == loc2 <= |line| && Reaches(es, line, locs, loc1, f.stars, loc2)
    && (forall ks, j :: Reaches(es, line, locs, loc1, ks, j) ==> PrefersTo(f.stars, ks))
    && bs == Marked(es, loc1, f.stars, true, bs0) && be == Marked(es, loc1, f.stars, false, be0)
  }

  class Matcher {
    var expbuf: seq<nat>
    var circfl: bool
    var linebuf: string
    var locs: int
    var loc1: nat
    var loc2: nat
    var braslist: seq<nat>
    var braelist: seq<nat>

    ghost predicate Ready()
      reads this
    {
      |braslist| == |braelist| == NBRA && NulFree(linebuf)
    }

    /** With a compiled pattern and a line in the line buffer. */
    constructor (code: seq<nat>, anchored: bool, line: string)
      requires NulFree(line)
      ensures Ready() && expbuf == code && circfl == anchored && linebuf == line
    {
      expbuf, circfl, linebuf := code, anchored, line;
      locs, loc1, loc2 := -1, 0, 0;
      braslist, braelist := seq(NBRA, _ => 0), seq(NBRA, _ => 0);
    }

    /** `cclass`: whether a byte is in the class whose member count is at `ep` (`af`), or outside
        it (not `af`); never for the terminating NUL. */
    method CClass(ep: nat, c: nat, af: bool) returns (r: bool)
      requires ep < |expbuf| && 0 < expbuf[ep] && ep + expbuf[ep] <= |expbuf|
      ensures r <==> c != 0 && ((c in expbuf[ep + 1..ep + expbuf[ep]]) == af)
    {
      if c == 0 {
        return false;
      }
      var n, at := expbuf[ep], ep + 1;
      n := n - 1;
      while n != 0
        invariant 0 <= n && at + n == ep + expbuf[ep] && ep < at
        invariant c !in expbuf[ep + 1..at]
      {
        if expbuf[at] == c {
          assert expbuf[ep + 1..ep + expbuf[ep]][at - ep - 1] == c;
          return af;
        }
        assert expbuf[ep + 1..at + 1] == expbuf[ep + 1..at] + [expbuf[at]];
        at := at + 1;
        n := n - 1;
      }
      return !af;
    }
  
    /** Whether the operand of an operator accepts a byte, the way the cases of `advance` test it. */
    method Accepts(op: nat, ep: nat, x: nat, ghost a: Atom) returns (r: bool)
      requires op == AtomCode(a)[0] && OperandAt(expbuf, ep, a)
      ensures r <==> Sat(a, x)
    {
      hide AtomCode, Codes, OperandAt;
      OperandIs(expbuf, ep, a);
      AtomOp(a);
      if op == CCHR {
        r := expbuf[ep] == x;
      } else if op == CDOT {
        r := x != 0;
      } else {
        r := CClass(ep, x, op == CCL);
      }
    }

    /** The bytes to skip behind an operator. */
    method OperandLength(op: nat, ep: nat, ghost a: Atom) returns (n: nat)
      requires op == AtomCode(a)[0] && OperandAt(expbuf, ep, a)
      ensures n == |AtomCode(a)| - 1
    {
      OperandIs(expbuf, ep, a);
      AtomOp(a);
      n := if op == CCHR then 1 else if op == CDOT then 0 else expbuf[ep];
    }
  
    /** `advance`: matches the code from `ep0` on against the line from `lp0` on. */
    method Advance(lp0: nat, ep0: nat, ghost es: seq<Elem>) returns (ok: bool)
      requires Ready() && WellFormed(es) && CodeAt(expbuf, ep0, es) && lp0 <= |linebuf|
      modifies this`loc2, this`braslist, this`braelist
      ensures Ready()
      ensures Outcome(es, linebuf, locs, lp0, ok, old(loc2), loc2, old(braslist), braslist, old(braelist), braelist)
      decreases |es|, 1
    {
      hide Outcome, Greedy, Marked, AgreeOutside, Sets, Progress, Encode, AtomCode, CodeAt;
      var lp: nat, ep: nat := lp0, ep0;
      ghost var rest := es;
      ProgressStart(es, lp0, braslist, braelist, linebuf, locs);
      while true
        invariant Ready() && WellFormed(rest) && CodeAt(expbuf, ep, rest) && lp <= |linebuf| && |rest| <= |es|
        invariant loc2 == old(loc2)
        invariant Progress(es, lp0, old(braslist), old(braelist), rest, lp, braslist, braelist, linebuf, locs)
        decreases |rest|
      {
        Decode(expbuf, ep, rest);
        ghost var bs, be, lp' := braslist, braelist, lp;
        var op := expbuf[ep];
        ep := ep + 1;
        if op == CEOF {
          loc2 := lp;
          EmptyOutcome(linebuf, locs, lp, old(loc2), braslist, braelist);
          ProgressOutcome(es, lp0, old(braslist), old(braelist), rest, lp, bs, be, linebuf, locs,
                          true, old(loc2), loc2, braslist, braelist);
          return true;
        } else if op == CBRA {
          braslist := braslist[expbuf[ep] := lp];
          ep := ep + 1;
        } else if op == CKET {
          braelist := braelist[expbuf[ep] := lp];
          ep := ep + 1;
        } else if op == CDOL {
          if At(linebuf, lp) != 0 {
            HeadFails(rest, linebuf, locs, lp, old(loc2), bs, be);
            ProgressOutcome(es, lp0, old(braslist), old(braelist), rest, lp, bs, be, linebuf, locs,
                            false, old(loc2), loc2, braslist, braelist);
            return false;
          }
        } else if IsAtomOp(op) {
          var r := Accepts(op, ep, At(linebuf, lp), rest[0].atom);
          if !r {
            HeadFails(rest, linebuf, locs, lp, old(loc2), bs, be);
            ProgressOutcome(es, lp0, old(braslist), old(braelist), rest, lp, bs, be, linebuf, locs,
                            false, old(loc2), loc2, braslist, braelist);
            return false;
          }
          lp := lp + 1;
          var n := OperandLength(op, ep, rest[0].atom);
          ep := ep + n;
        } else {
          ok := Star(op - STAR, lp, ep, rest);
          ProgressOutcome(es, lp0, old(braslist), old(braelist), rest, lp, bs, be, linebuf, locs,
                          ok, old(loc2), loc2, braslist, braelist);
          return ok;
        }
        ProgressStep(es, lp0, old(braslist), old(braelist), rest, lp', bs, be, linebuf, locs);
        rest := rest[1..];
      }
    }

    /** `advance` at one place of the search, after earlier attempts scribbled over tables that
        held `bs0` and `be0`. */
    method Try(p1: nat, ghost es: seq<Elem>, ghost bs0: seq<nat>, ghost be0: seq<nat>) returns (ok: bool)
      requires Ready() && WellFormed(es) && CodeAt(expbuf, 0, es) && locs <= p1 <= |linebuf|
      requires AgreeOutside(es, true, braslist, bs0) && AgreeOutside(es, false, braelist, be0)
      modifies this`loc2, this`braslist, this`braelist
      ensures Ready() && (ok <==> Matches(es, linebuf, locs, p1))
      ensures ok ==> FoundAt(es, linebuf, locs, p1, loc2, bs0, braslist, be0, braelist)
      ensures !ok ==> AgreeOutside(es, true, braslist, bs0) && AgreeOutside(es, false, braelist, be0)
    {
      hide Greedy, Marked, AgreeOutside, Sets, Reaches, Matches, PrefersTo;
      ghost var bs, be := braslist, braelist;
      ok := Advance(p1, 0, es);
      GreedyCorrect(es, linebuf, locs, p1);
      if ok {
        ghost var f := Greedy(es, linebuf, locs, p1);
        ReachesForward(es, linebuf, locs, p1, f.stars, f.end);
        FoundStars(es, linebuf, locs, p1);
        MarkedAgree(es, p1, f.stars, true, bs, bs0);
        MarkedAgree(es, p1, f.stars, false, be, be0);
      } else {
        AgreeWider(es, es, true, braslist, bs, bs0);
        AgreeWider(es, es, false, braelist, be, be0);
      }
    }

    /** The two search loops of `execute`: the leftmost place from `from` on where the pattern matches.
        The fast path for a literal first character finds the same. */
    method Search(from: nat, ghost es: seq<Elem>) returns (ok: bool)
      requires Ready() && WellFormed(es) && CodeAt(expbuf, 0, es) && locs <= from <= |linebuf|
      modifies this`loc1, this`loc2, this`braslist, this`braelist
      ensures Ready() && (ok <==> Somewhere(es, linebuf, locs, from, |linebuf|))
      ensures ok ==> from <= loc1 && !Somewhere(es, linebuf, locs, from, loc1 - 1)
      ensures ok ==> FoundAt(es, linebuf, locs, loc1, loc2, old(braslist), braslist, old(braelist), braelist)
    {
      hide Greedy, Marked, AgreeOutside, Sets, AtomCode, Reaches, Matches, PrefersTo;
      AgreeSame(es, braslist, braelist);
      var p1 := from;
      Decode(expbuf, 0, es);
      if expbuf[0] == CCHR {
        // fast check for first character
        OperandIs(expbuf, 1, es[0].atom);
        AtomOp(es[0].atom);
        var c := expbuf[1];
        while p1 <= |linebuf|
          invariant from <= p1 <= |linebuf| + 1 && Ready() && !Somewhere(es, linebuf, locs, from, p1 - 1)
          invariant AgreeOutside(es, true, braslist, old(braslist)) && AgreeOutside(es, false, braelist, old(braelist))
        {
          if At(linebuf, p1) == c {
            ok := Try(p1, es, old(braslist), old(braelist));
            if ok {
              loc1 := p1;
              return true;
            }
          } else {
            FirstCharacter(es, linebuf, locs, p1);
          }
          p1 := p1 + 1;
        }
        return false;
      }
      // regular algorithm
      while p1 <= |linebuf|
        invariant from <= p1 <= |linebuf| + 1 && Ready() && !Somewhere(es, linebuf, locs, from, p1 - 1)
        invariant AgreeOutside(es, true, braslist, old(braslist)) && AgreeOutside(es, false, braelist, old(braelist))
      {
        ok := Try(p1, es, old(braslist), old(braelist));
        if ok {
          loc1 := p1;
          return true;
        }
        p1 := p1 + 1;
      }
      return false;
    }

    /** `execute`, on a line of the buffer, or (`gf`) again behind the last match of a global substitution,
        whose result is in the line buffer; then no star may stop where that match ended.

        The line matches iff the pattern matches somewhere from the starting place on (just there, if it is
        anchored, and not again); `loc1` is then the leftmost place and `loc2` the longest-first end. */
    method Execute(gf: bool, ghost es: seq<Elem>) returns (ok: bool)
      requires Ready() && WellFormed(es) && CodeAt(expbuf, 0, es) && (gf ==> loc2 <= |linebuf|)
      modifies this`locs, this`loc1, this`loc2, this`braslist, this`braelist
      ensures Ready() && (gf && circfl ==> !ok)
      ensures !(gf && circfl) ==> locs == if gf then old(loc2) else -1
      ensures !(gf && circfl) ==>
                (ok <==> Somewhere(es, linebuf, locs, if gf then old(loc2) else 0, if circfl then 0 else |linebuf|))
      ensures ok ==> !Somewhere(es, linebuf, locs, if gf then old(loc2) else 0, loc1 - 1)
      ensures ok ==> FoundAt(es, linebuf, locs, loc1, loc2, old(braslist), braslist, old(braelist), braelist)
    {
      hide FoundAt, Matches;
      var p1: nat := 0;
      if gf {
        if circfl {
          return false;
        }
        locs := loc2;
        p1 := loc2;
      } else {
        locs := -1;
      }
      if circfl {
        AgreeSame(es, braslist, braelist);
        loc1 := p1;
        ok := Try(p1, es, braslist, braelist);
        return;
      }
      ok := Search(p1, es);
    }

    /** The starred cases of `advance`: the longest run first, then one character less at a time,
        each time trying the rest of the code. */
    method Star(op: nat, curlp: nat, ep0: nat, ghost es: seq<Elem>) returns (ok: bool)
      requires Ready() && WellFormed(es) && curlp <= |linebuf| && es != [] && es[0].Many?
      requires op == AtomCode(es[0].atom)[0] && OperandAt(expbuf, ep0, es[0].atom)
      requires CodeAt(expbuf, ep0 + |AtomCode(es[0].atom)| - 1, es[1..])
      modifies this`loc2, this`braslist, this`braelist
      ensures Ready()
      ensures Outcome(es, linebuf, locs, curlp, ok, old(loc2), loc2, old(braslist), braslist, old(braelist), braelist)
      decreases |es|, 0
    {
      hide Outcome, Greedy, GiveBack, Run, Marked, AgreeOutside, Sets, AtomCode, CodeAt, OperandAt, Sat;
      ghost var a, rest := es[0].atom, es[1..];
      var lp: nat, more := curlp, true;
      while more
        modifies {}
        invariant curlp <= lp && (more ==> lp <= |linebuf|)
        invariant lp + (if more then Run(a, linebuf, lp) else 0) ==
                    curlp + Run(a, linebuf, curlp) + (if more then 0 else 1)
        decreases more, |linebuf| - lp
      {
        RunStep(a, linebuf, lp);
        more := Accepts(op, ep0, At(linebuf, lp), a);
        lp := lp + 1;
      }
      var n := OperandLength(op, ep0, a);
      StarStart(es, linebuf, locs, curlp, braslist, braelist);
      while true
        invariant Ready() && curlp < lp <= |linebuf| + 1 && loc2 == old(loc2)
        invariant Greedy(es, linebuf, locs, curlp) == GiveBack(rest, linebuf, locs, curlp, lp - 1 - curlp)
        invariant AgreeOutside(rest, true, braslist, old(braslist))
                  && AgreeOutside(rest, false, braelist, old(braelist))
        decreases lp
      {
        lp := lp - 1;
        ghost var bs, be := braslist, braelist;
        if lp == locs {
          StarFails(es, linebuf, locs, curlp, old(loc2), old(braslist), braslist, old(braelist), braelist, lp - curlp);
          return false;
        }
        ok := Advance(lp, ep0 + n, rest);
        if ok {
          StarSucceeds(es, linebuf, locs, curlp, lp - curlp, old(loc2), loc2,
                       old(braslist), bs, braslist, old(braelist), be, braelist);
          return true;
        }
        StarRetreats(rest, linebuf, locs, curlp, lp - curlp, old(loc2), loc2,
                     old(braslist), bs, braslist, old(braelist), be, braelist);
        if !(lp > curlp) {
          StarFails(es, linebuf, locs, curlp, old(loc2), old(braslist), braslist, old(braelist), braelist, 0);
          return false;
        }
      }
    }
  }

  lemma RunStep(a: Atom, line: string, i: nat)
    requires i <= |line|
    ensures Run(a, line, i) == if Sat(a, At(line, i)) then 1 + Run(a, line, i + 1) else 0
    ensures Sat(a, At(line, i)) ==> i < |line|
  {
  }

  lemma StarStart(es: seq<Elem>, line: string, locs: int, i: nat, bs: seq<nat>, be: seq<nat>)
    requires es != [] && es[0].Many? && i <= |line|
    ensures Greedy(es, line, locs, i) == GiveBack(es[1..], line, locs, i, Run(es[0].atom, line, i))
    ensures i + Run(es[0].atom, line, i) <= |line|
    ensures AgreeOutside(es[1..], true, bs, bs) && AgreeOutside(es[1..], false, be, be)
  {
    RunInLine(es[0].atom, line, i);
  }

  /** A star that stops at `locs`, or has nothing left to give back, fails. */
  lemma StarFails(es: seq<Elem>, line: string, locs: int, i: nat, end: nat,
                  bs0: seq<nat>, bs: seq<nat>, be0: seq<nat>, be: seq<nat>, k: nat)
    requires es != [] && Greedy(es, line, locs, i) == GiveBack(es[1..], line, locs, i, k)
    requires i + k == locs || (k == 0 && Greedy(es[1..], line, locs, i).No?)
    requires AgreeOutside(es[1..], true, bs, bs0) && AgreeOutside(es[1..], false, be, be0)
    ensures Outcome(es, line, locs, i, false, end, end, bs0, bs, be0, be)
  {
    AgreeTail(es, true, bs, bs0);
    AgreeTail(es, false, be, be0);
  }

  /** The rest matches behind `k` characters: so does the starred pattern, and what abandoned
      attempts wrote into the tables is gone. */
  lemma StarSucceeds(es: seq<Elem>, line: string, locs: int, i: nat, k: nat, end0: nat, end: nat,
                     bs0: seq<nat>, bs: seq<nat>, bs': seq<nat>, be0: seq<nat>, be: seq<nat>, be': seq<nat>)
    requires es != [] && es[0].Many? && i + k != locs
    requires Greedy(es, line, locs, i) == GiveBack(es[1..], line, locs, i, k)
    requires AgreeOutside(es[1..], true, bs, bs0) && AgreeOutside(es[1..], false, be, be0)
    requires Outcome(es[1..], line, locs, i + k, true, end0, end, bs, bs', be, be')
    ensures Outcome(es, line, locs, i, true, end0, end, bs0, bs', be0, be')
  {
    hide AgreeOutside, Sets, Run;
    var f := Greedy(es[1..], line, locs, i + k);
    FoundStars(es[1..], line, locs, i + k);
    MarkedAgree(es[1..], i + k, f.stars, true, bs, bs0);
    MarkedAgree(es[1..], i + k, f.stars, false, be, be0);
    assert ([k] + f.stars)[1..] == f.stars;
  }

  lemma StarRetreats(es: seq<Elem>, line: string, locs: int, i: nat, k: nat, end0: nat, end: nat,
                     bs0: seq<nat>, bs: seq<nat>, bs': seq<nat>, be0: seq<nat>, be: seq<nat>, be': seq<nat>)
    requires i + k != locs && Outcome(es, line, locs, i + k, false, end0, end, bs, bs', be, be')
    requires AgreeOutside(es, true, bs, bs0) && AgreeOutside(es, false, be, be0)
    ensures end == end0 && Greedy(es, line, locs, i + k).No?
    ensures k > 0 ==> GiveBack(es, line, locs, i, k) == GiveBack(es, line, locs, i, k - 1)
    ensures AgreeOutside(es, true, bs', bs0) && AgreeOutside(es, false, be', be0)
  {
    AgreeWider(es, es, true, bs', bs, bs0);
    AgreeWider(es, es, false, be', be, be0);
  }

  lemma AgreeSame(es: seq<Elem>, bs: seq<nat>, be: seq<nat>)
    ensures AgreeOutside(es, true, bs, bs) && AgreeOutside(es, false, be, be)
  {
  }

  lemma {:induction false} ReachesForward(es: seq<Elem>, line: string, locs: int, i: nat, ks: seq<nat>, j: nat)
    requires Reaches(es, line, locs, i, ks, j)
    ensures i <= j
    decreases |es|
  {
    if es != [] {
      var step := match es[0] case One(_) => 1 case Many(_) => ks[0] case _ => 0;
      ReachesForward(es[1..], line, locs, i + step, if es[0].Many? then ks[1..] else ks, j);
    }
  }

  lemma FirstCharacter(es: seq<Elem>, line: string, locs: int, i: nat)
    requires es != [] && es[0].One? && !Sat(es[0].atom, At(line, i))
    ensures !Matches(es, line, locs, i)
  {
  }

  lemma EmptyOutcome(line: string, locs: int, i: nat, end0: nat, bs: seq<nat>, be: seq<nat>)
    ensures Outcome([], line, locs, i, true, end0, i, bs, bs, be, be)
  {
  }

  lemma HeadFails(es: seq<Elem>, line: string, locs: int, i: nat, end: nat, bs: seq<nat>, be: seq<nat>)
    requires es != []
    requires (es[0].One? && !Sat(es[0].atom, At(line, i))) || (es[0].Last? && At(line, i) != 0)
    ensures Outcome(es, line, locs, i, false, end, end, bs, bs, be, be)
  {
  }
}
