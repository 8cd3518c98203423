/** `compile` of user/bin/ed.c: a pattern, up to its delimiter, to byte code.

    Reading past the end of the text, and every place where the source signals an error, is
    `Bad`: in this port `error` returns to its caller, and nothing is claimed after it. */
module EdCompile {
  import opened EdPattern
  import opened EdMatch
  import opened Lists

  const ESIZE: nat := 128

  datatype Parsed = Bad | Good(es: seq<Elem>, next: nat)

  datatype ClassParsed = BadClass | GoodClass(members: string, next: nat)

  /** Byte code of a pattern without the final CEOF. */
  function Body(es: seq<Elem>): seq<nat> {
    if es == [] then [] else ElemCode(es[0]) + Body(es[1..])
  }

  /** The members of a class: at least one character, up to a bracket that is not the first. */
  function ParseClass(text: string, pos: nat, members: string, base: nat): ClassParsed
    decreases |text| - pos
  {
    if pos + 1 >= |text| || text[pos] == '\n' || base + 3 + |members| >= ESIZE then BadClass
    else if text[pos + 1] == ']' then GoodClass(members + [text[pos]], pos + 2)
    else ParseClass(text, pos + 1, members + [text[pos]], base)
  }

  /** The pattern that the text from `pos` up to the delimiter `eof` adds to the elements `es`;
      `nbra` brackets have been opened and those on `stack` are still open. */
  function Parse(text: string, pos: nat, eof: char, es: seq<Elem>, nbra: nat, stack: seq<nat>): Parsed
    decreases |text| - pos
  {
    if pos >= |text| || |Body(es)| >= ESIZE then Bad
    else if text[pos] == eof then Good(es, pos + 1)
    else match text[pos]
      case '\\' =>
        if pos + 1 >= |text| then Bad
        else (match Escaped(text[pos + 1], nbra, stack)
              case None => Bad
              case Some((e, nbra', stack')) => Parse(text, pos + 2, eof, es + [e], nbra', stack'))
      case '.' => Parse(text, pos + 1, eof, es + [One(Any)], nbra, stack)
      case '\n' => Bad
      case '*' =>
        if es == [] then Bad
        else (match es[|es| - 1]
              case One(a) => Parse(text, pos + 1, eof, es[..|es| - 1] + [Many(a)], nbra, stack)
              case Many(_) => Parse(text, pos + 1, eof, es, nbra, stack)
              case _ => Bad)
      case '$' =>
        if pos + 1 >= |text| then Bad
        else Parse(text, pos + 1, eof, es + [if text[pos + 1] == eof then Last else One(Chr('$'))], nbra, stack)
      case '[' =>
        if pos + 1 >= |text| then Bad
        else
          var negated := text[pos + 1] == '^';
          var start := if negated then pos + 2 else pos + 1;
          (match ParseClass(text, start, "", |Body(es)|)
           case BadClass => Bad
           case GoodClass(members, next) =>
             ParseClassAdvances(text, start, "", |Body(es)|);
             Parse(text, next, eof, es + [One(Class(negated, members))], nbra, stack))
      case c => Parse(text, pos + 1, eof, es + [One(Chr(c))], nbra, stack)
  }

  lemma ParseClassAdvances(text: string, pos: nat, members: string, base: nat)
    requires ParseClass(text, pos, members, base).GoodClass?
    ensures pos < ParseClass(text, pos, members, base).next <= |text|
    decreases |text| - pos
  {
    if text[pos + 1] != ']' { ParseClassAdvances(text, pos + 1, members + [text[pos]], base); }
  }

  datatype Compiled =
    | Reuse                                          // empty pattern: the last one stays in force
    | Program(anchored: bool, code: seq<nat>, next: nat)
    | Error

  lemma {:induction false} BodyAppend(es: seq<Elem>, e: Elem)
    ensures Body(es + [e]) == Body(es) + ElemCode(e)
  {
    hide ElemCode;
    if es == [] {
      assert [] + [e] == [e] && [e][1..] == [] && Body([]) == [];
    } else {
      BodyAppend(es[1..], e);
      assert (es + [e])[1..] == es[1..] + [e];
    }
  }

  /** The code built element by element is the code of the pattern. */
  lemma {:induction false} BodyIsEncode(es: seq<Elem>)
    ensures Body(es) + [CEOF] == Encode(es)
  {
    hide ElemCode;
    if es != [] { BodyIsEncode(es[1..]); }
  }

  /** The code of the last element and its place. */
  lemma BodyLast(es: seq<Elem>)
    requires es != []
    ensures Body(es) == Body(es[..|es| - 1]) + ElemCode(es[|es| - 1])
  {
    hide Body, ElemCode;
    BodyAppend(es[..|es| - 1], es[|es| - 1]);
    assert es == es[..|es| - 1] + [es[|es| - 1]];
  }

  /** Setting the STAR bit of the operator at `lastep` stars the last element. */
  lemma StarLast(es: seq<Elem>, a: Atom)
    requires es != [] && (es[|es| - 1] == One(a) || es[|es| - 1] == Many(a))
    ensures var i := |Body(es[..|es| - 1])|;
            && i < |Body(es)|
            && Body(es[..|es| - 1] + [Many(a)]) == Body(es)[i := OrStar(Body(es)[i])]
  {
    AtomOp(a);
    hide AtomCode, Body;
    var x, w := Body(es[..|es| - 1]), ElemCode(es[|es| - 1]);
    BodyAppend(es[..|es| - 1], Many(a));
    BodyLast(es);
    assert w != [] && OrStar(w[0]) == ElemCode(Many(a))[0];
    assert w[0 := OrStar(w[0])] == ElemCode(Many(a));
    assert (x + w)[|x| := OrStar(w[0])] == x + w[0 := OrStar(w[0])];
  }

  function OrStar(x: nat): nat {
    if x % 2 == 0 then x + STAR else x
  }

  /** The operator at `lastep` tells whether a star may follow. */
  lemma LastOperator(es: seq<Elem>)
    requires es != []
    ensures var i := |Body(es[..|es| - 1])|;
            && i < |Body(es)|
            && (Body(es)[i] == CBRA || Body(es)[i] == CKET <==> es[|es| - 1].Open? || es[|es| - 1].Close?)
            && (Body(es)[i] == CDOL <==> es[|es| - 1].Last?)
  {
    var e := es[|es| - 1];
    if e.One? || e.Many? { AtomOp(e.atom); }
    hide AtomCode, Body;
    BodyLast(es);
    assert ElemCode(e) != [] && Body(es)[|Body(es[..|es| - 1])|] == ElemCode(e)[0];
  }

  lemma WellFormedAppend(es: seq<Elem>, e: Elem)
    requires WellFormed(es) && WellFormedElem(e)
    ensures WellFormed(es + [e])
  {
  }

  /** The class loop of `compile`: members are copied behind the operator and the count byte. */
  method CompileClass(text: string, pos0: nat, code0: seq<nat>, ghost base: nat)
    returns (ok: bool, code: seq<nat>, count: nat, pos: nat)
    requires |code0| == base + 2
    ensures var r := ParseClass(text, pos0, "", base);
            && (ok <==> r.GoodClass?)
            && (ok ==> code == code0 + Codes(r.members) && count == |r.members| + 1 && pos == r.next <= |text|)
  {
    code, count, pos := code0, 1, pos0;
    ghost var members := "";
    assert Codes("") == [];
    while true
      invariant pos0 <= pos && count == |members| + 1 && code == code0 + Codes(members)
      invariant ParseClass(text, pos0, "", base) == ParseClass(text, pos, members, base)
      decreases |text| - pos
    {
      if pos >= |text| || text[pos] == '\n' {
        return false, code, count, pos;
      }
      code := code + [text[pos] as nat];
      count := count + 1;
      assert Codes(members + [text[pos]]) == Codes(members) + [text[pos] as nat];
      if |code| >= ESIZE || pos + 1 >= |text| {
        return false, code, count, pos;
      }
      members := members + [text[pos]];
      if text[pos + 1] == ']' {
        return true, code, count, pos + 2;
      }
      pos := pos + 1;
    }
  }

  /** What the code loop of `compile` has built so far stands for the elements `es`. */
  ghost predicate Built(code: seq<nat>, lastep: nat, es: seq<Elem>, nbra: nat, stack: seq<nat>) {
    && code == Body(es) && WellFormed(es) && nbra <= NBRA
    && (es != [] ==> lastep == |Body(es[..|es| - 1])|)
    && (forall i :: 0 <= i < |stack| ==> stack[i] < NBRA)
  }

  /** Emitting one more element. */
  lemma Emit(code: seq<nat>, lastep: nat, es: seq<Elem>, nbra: nat, stack: seq<nat>, e: Elem)
    requires Built(code, lastep, es, nbra, stack) && WellFormedElem(e)
    ensures Built(code + ElemCode(e), |code|, es + [e], nbra, stack)
  {
    hide ElemCode, Body;
    BodyAppend(es, e);
    assert (es + [e])[..|es + [e]| - 1] == es;
  }

  lemma ClassCode(code: seq<nat>, negated: bool, members: string)
    ensures (code + [if negated then NCCL else CCL, 0] + Codes(members))[|code| + 1 := |members| + 1]
         == code + ElemCode(One(Class(negated, members)))
  {
  }

  /** Starring the last element. */
  lemma EmitStar(code: seq<nat>, lastep: nat, es: seq<Elem>, nbra: nat, stack: seq<nat>)
    requires Built(code, lastep, es, nbra, stack) && es != []
    ensures lastep < |code|
    ensures code[lastep] == CBRA || code[lastep] == CKET <==> es[|es| - 1].Open? || es[|es| - 1].Close?
    ensures es[|es| - 1].One? || es[|es| - 1].Many? ==>
              Built(code[lastep := OrStar(code[lastep])], lastep, es[..|es| - 1] + [Many(es[|es| - 1].atom)], nbra,
                    stack)
    ensures es[|es| - 1].Many? ==> es[..|es| - 1] + [Many(es[|es| - 1].atom)] == es
  {
    hide Body, ElemCode;
    LastOperator(es);
    if es[|es| - 1].One? || es[|es| - 1].Many? {
      var a := es[|es| - 1].atom;
      StarLast(es, a);
      assert WellFormedElem(es[|es| - 1]);
      WellFormedAppend(es[..|es| - 1], Many(a));
      assert (es[..|es| - 1] + [Many(a)])[..|es| - 1] == es[..|es| - 1];
    }
  }

  /** The element that an escaped character adds, with the bracket count and stack after it. */
  function Escaped(c: char, nbra: nat, stack: seq<nat>): Option<(Elem, nat, seq<nat>)> {
    if c == '(' then if nbra >= NBRA then None else Some((Open(nbra), nbra + 1, stack + [nbra]))
    else if c == ')' then
      if stack == [] then None else Some((Close(stack[|stack| - 1]), nbra, stack[..|stack| - 1]))
    else if c == '\n' then None
    else Some((One(Chr(c)), nbra, stack))
  }

  /** The escape case of `compile`. */
  method CompileEscape(c: char, code0: seq<nat>, ghost lastep: nat, nbra0: nat, bracket0: seq<nat>, ghost es: seq<Elem>)
    returns (ok: bool, code: seq<nat>, nbra: nat, bracket: seq<nat>, ghost e: Elem)
    requires c != '\0' && Built(code0, lastep, es, nbra0, bracket0)
    ensures ok <==> Escaped(c, nbra0, bracket0).Some?
    ensures ok ==> Escaped(c, nbra0, bracket0) == Some((e, nbra, bracket)) && !e.Last?
    ensures ok ==> Built(code, |code0|, es + [e], nbra, bracket)
  {
    hide Built;
    ok, code, nbra, bracket, e := true, code0, nbra0, bracket0, One(Chr(c));
    if c == '(' {
      if nbra >= NBRA {
        return false, code, nbra, bracket, e;
      }
      EmitOpen(code, lastep, es, nbra, bracket);
      e := Open(nbra);
      bracket := bracket + [nbra];
      code := code + [CBRA, nbra];
      nbra := nbra + 1;
    } else if c == ')' {
      if bracket == [] {
        return false, code, nbra, bracket, e;
      }
      EmitClose(code, lastep, es, nbra, bracket);
      e := Close(bracket[|bracket| - 1]);
      code := code + [CKET, bracket[|bracket| - 1]];
      bracket := bracket[..|bracket| - 1];
    } else {
      if c == '\n' {
        return false, code, nbra, bracket, e;
      }
      EmitChr(code, lastep, es, nbra, bracket, c);
      code := code + [CCHR, c as nat];
    }
  }

  /** The code loop of `compile`, from the character at `pos0` on. */
  method CompileFrom(text: string, pos0: nat, eof: char) returns (ok: bool, code: seq<nat>, pos: nat)
    requires NulFree(text) && (pos0 < |text| ==> text[pos0] != '*')
    ensures var r := Parse(text, pos0, eof, [], 0, []);
            && (ok <==> r.Good?)
            && (ok ==> WellFormed(r.es) && code == Encode(r.es) && pos == r.next)
  {
    hide Body, ElemCode, ParseClass, Codes, AtomCode, Built, WellFormed, Escaped, Encode;
    code, pos, ok := [], pos0, false;
    var lastep: nat, bracket: seq<nat>, nbra: nat := 0, [], 0;
    ghost var es: seq<Elem> := [];
    BuiltStart();
    while true
      invariant Built(code, lastep, es, nbra, bracket)
      invariant Parse(text, pos0, eof, [], 0, []) == Parse(text, pos, eof, es, nbra, bracket)
      invariant es == [] ==> pos == pos0
      invariant es != [] && es[|es| - 1].Last? ==> pos < |text| && text[pos] == eof
      decreases |text| - pos
    {
      BuiltFacts(code, lastep, es, nbra, bracket);
      if |code| >= ESIZE || pos >= |text| {
        return false, code, pos;
      }
      var c := text[pos];
      pos := pos + 1;
      if c == eof {
        return true, code + [CEOF], pos;
      }
      ghost var lastep0 := lastep;
      if c != '*' {
        lastep := |code|;
      }
      if c == '\\' {
        if pos >= |text| {
          return false, code, pos;
        }
        var fine;
        ghost var e;
        fine, code, nbra, bracket, e := CompileEscape(text[pos], code, lastep0, nbra, bracket, es);
        if !fine {
          return false, code, pos;
        }
        pos := pos + 1;
        es := es + [e];
      } else if c == '.' {
        EmitAny(code, lastep0, es, nbra, bracket);
        code := code + [CDOT];
        es := es + [One(Any)];
      } else if c == '\n' {
        return false, code, pos;
      } else if c == '*' {
        EmitStar(code, lastep0, es, nbra, bracket);
        if code[lastep] == CBRA || code[lastep] == CKET {
          return false, code, pos;
        }
        code := code[lastep := OrStar(code[lastep])];
        es := es[..|es| - 1] + [Many(es[|es| - 1].atom)];
      } else if c == '$' {
        if pos >= |text| {
          return false, code, pos;
        }
        if text[pos] != eof {
          EmitChr(code, lastep0, es, nbra, bracket, c);
          code := code + [CCHR, c as nat];
          es := es + [One(Chr(c))];
        } else {
          EmitLast(code, lastep0, es, nbra, bracket);
          code := code + [CDOL];
          es := es + [Last];
        }
      } else if c == '[' {
        if pos >= |text| {
          return false, code, pos;
        }
        var negated := text[pos] == '^';
        if negated {
          pos := pos + 1;
        }
        ghost var r := ParseClass(text, pos, "", |code|);
        var fine, code', count, pos' := CompileClass(text, pos, code + [if negated then NCCL else CCL, 0], |code|);
        if !fine {
          return false, code, pos;
        }
        ParseClassAdvances(text, pos, "", |code|);
        EmitClass(code, lastep0, es, nbra, bracket, negated, r.members);
        code := code'[lastep + 1 := count];
        pos := pos';
        es := es + [One(Class(negated, r.members))];
      } else {
        EmitChr(code, lastep0, es, nbra, bracket, c);
        code := code + [CCHR, c as nat];
        es := es + [One(Chr(c))];
      }
    }
  }

  lemma BuiltFacts(code: seq<nat>, lastep: nat, es: seq<Elem>, nbra: nat, stack: seq<nat>)
    requires Built(code, lastep, es, nbra, stack)
    ensures code == Body(es) && code + [CEOF] == Encode(es) && WellFormed(es)
  {
    BodyIsEncode(es);
  }

  lemma EmitOpen(code: seq<nat>, lastep: nat, es: seq<Elem>, nbra: nat, stack: seq<nat>)
    requires Built(code, lastep, es, nbra, stack) && nbra < NBRA
    ensures Built(code + [CBRA, nbra], |code|, es + [Open(nbra)], nbra + 1, stack + [nbra])
  {
    Emit(code, lastep, es, nbra, stack, Open(nbra));
  }

  lemma EmitClose(code: seq<nat>, lastep: nat, es: seq<Elem>, nbra: nat, stack: seq<nat>)
    requires Built(code, lastep, es, nbra, stack) && stack != []
    ensures var n := stack[|stack| - 1];
            Built(code + [CKET, n], |code|, es + [Close(n)], nbra, stack[..|stack| - 1])
  {
    Emit(code, lastep, es, nbra, stack, Close(stack[|stack| - 1]));
  }

  lemma EmitChr(code: seq<nat>, lastep: nat, es: seq<Elem>, nbra: nat, stack: seq<nat>, c: char)
    requires Built(code, lastep, es, nbra, stack) && c != '\0'
    ensures Built(code + [CCHR, c as nat], |code|, es + [One(Chr(c))], nbra, stack)
  {
    Emit(code, lastep, es, nbra, stack, One(Chr(c)));
  }

  lemma EmitAny(code: seq<nat>, lastep: nat, es: seq<Elem>, nbra: nat, stack: seq<nat>)
    requires Built(code, lastep, es, nbra, stack)
    ensures Built(code + [CDOT], |code|, es + [One(Any)], nbra, stack)
  {
    Emit(code, lastep, es, nbra, stack, One(Any));
  }

  lemma EmitLast(code: seq<nat>, lastep: nat, es: seq<Elem>, nbra: nat, stack: seq<nat>)
    requires Built(code, lastep, es, nbra, stack)
    ensures Built(code + [CDOL], |code|, es + [Last], nbra, stack)
  {
    Emit(code, lastep, es, nbra, stack, Last);
  }

  lemma EmitClass(code: seq<nat>, lastep: nat, es: seq<Elem>, nbra: nat, stack: seq<nat>, negated: bool,
                  members: string)
    requires Built(code, lastep, es, nbra, stack)
    ensures var code' := (code + [if negated then NCCL else CCL, 0] + Codes(members))[|code| + 1 := |members| + 1];
            Built(code', |code|, es + [One(Class(negated, members))], nbra, stack)
  {
    Emit(code, lastep, es, nbra, stack, One(Class(negated, members)));
    ClassCode(code, negated, members);
  }

  lemma BuiltStart()
    ensures Built([], 0, [], 0, [])
  {
  }

  /** What the text compiles to.  An empty pattern stands for the last one, if there is one.  Otherwise
      a leading `^` anchors, and what follows either is rejected or compiles to the code of the pattern
      it spells. */
  function CompileOf(text: string, eof: char, hasLast: bool): Compiled {
    if text == [] then Error
    else if text[0] == eof then if hasLast then Reuse else Error
    else
      var anchored := text[0] == '^';
      var start := if anchored then 1 else 0;
      var p := Parse(text, start, eof, [], 0, []);
      if p.Good? && !(start < |text| && text[start] == '*') then Program(anchored, Encode(p.es), p.next) else Error
  }

  /** `compile`; a program is that of a well-formed pattern. */
  method Compile(text: string, eof: char, hasLast: bool) returns (r: Compiled)
    requires NulFree(text)
    ensures r == CompileOf(text, eof, hasLast)
    ensures r.Program? ==> exists es :: WellFormed(es) && r.code == Encode(es)
  {
    hide Encode, WellFormed;
    if text == [] {
      return Error;
    }
    if text[0] == eof {
      return if hasLast then Reuse else Error;
    }
    var anchored := text[0] == '^';
    var start := if anchored then 1 else 0;
    if start < |text| && text[start] == '*' {
      return Error;
    }
    var ok, code, pos := CompileFrom(text, start, eof);
    r := if ok then Program(anchored, code, pos) else Error;
  }
}
