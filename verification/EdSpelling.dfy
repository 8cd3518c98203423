/** Every pattern can be written down: a spelling of patterns as text, and the proof that the
    parser behind `compile` reads it back, whatever follows the delimiter. */
module EdSpelling {
  import opened EdPattern
  import opened EdMatch
  import opened EdCompile
  import opened Lists

  predicate Special(c: char) {
    c == '\\' || c == '.' || c == '*' || c == '[' || c == '$' || c == '^'
  }

  /** Delimiters that are not themselves part of the pattern syntax. */
  predicate PlainDelimiter(eof: char) {
    !Special(eof) && eof != '(' && eof != ')' && eof != '\n' && eof != '\0'
  }

  function SpellAtom(a: Atom, eof: char): string {
    match a
    case Chr(c) => if Special(c) || c == eof then ['\\', c] else [c]
    case Any => "."
    case Class(negated, members) => (if negated then "[^" else "[") + members + "]"
  }

  function SpellElem(e: Elem, eof: char): string {
    match e
    case One(a) => SpellAtom(a, eof)
    case Many(a) => SpellAtom(a, eof) + "*"
    case Open(_) => "\\("
    case Close(_) => "\\)"
    case Last => "$"
  }

  function Spell(es: seq<Elem>, eof: char): string {
    if es == [] then [] else SpellElem(es[0], eof) + Spell(es[1..], eof)
  }

  /** Classes need a member, no line end, and a closing bracket only in front. */
  ghost predicate AtomSpells(a: Atom) {
    match a
    case Chr(c) => c != '\n' && c != '\0'
    case Any => true
    case Class(negated, members) =>
      && members != [] && (negated || members[0] != '^')
      && (forall i :: 0 <= i < |members| ==> members[i] != '\n')
      && (forall i :: 0 < i < |members| ==> members[i] != ']')
  }

  /** Brackets are numbered in the order they open, and each closes the innermost open one; the
      end-of-line mark comes last. */
  ghost predicate Spells(es: seq<Elem>, nbra: nat, stack: seq<nat>)
    decreases |es|
  {
    es != [] ==>
      match es[0]
      case One(a) => AtomSpells(a) && Spells(es[1..], nbra, stack)
      case Many(a) => AtomSpells(a) && Spells(es[1..], nbra, stack)
      case Open(n) => n == nbra < NBRA && Spells(es[1..], nbra + 1, stack + [nbra])
      case Close(n) => stack != [] && n == stack[|stack| - 1] && Spells(es[1..], nbra, stack[..|stack| - 1])
      case Last => |es| == 1
  }

  /** The text from `pos` on starts with `word`. */
  ghost predicate StartsWith(text: string, pos: nat, word: string) {
    pos + |word| <= |text| && text[pos..pos + |word|] == word
  }

  lemma StartsWithSplit(text: string, pos: nat, v: string, w: string)
    requires StartsWith(text, pos, v + w)
    ensures StartsWith(text, pos, v) && StartsWith(text, pos + |v|, w)
  {
    assert text[pos..pos + |v|] == text[pos..pos + |v + w|][..|v|];
    assert text[pos + |v|..pos + |v| + |w|] == text[pos..pos + |v + w|][|v|..];
  }

  lemma StartsWithAt(text: string, pos: nat, word: string, i: nat)
    requires StartsWith(text, pos, word) && i < |word|
    ensures text[pos + i] == word[i]
  {
    assert text[pos..pos + |word|][i] == text[pos + i];
  }

  /** The class loop reads the members that are left and stops behind the closing bracket. */
  lemma {:induction false} ClassReadBack(text: string, pos: nat, done: string, todo: string, base: nat)
    requires todo != [] && StartsWith(text, pos, todo + "]") && base + 2 + |done| + |todo| < ESIZE
    requires forall i :: 0 <= i < |todo| ==> todo[i] != '\n'
    requires forall i :: 0 < i < |todo| ==> todo[i] != ']'
    ensures ParseClass(text, pos, done, base) == GoodClass(done + todo, pos + |todo| + 1)
    decreases |todo|
  {
    StartsWithAt(text, pos, todo + "]", 0);
    StartsWithAt(text, pos, todo + "]", 1);
    if |todo| == 1 {
      assert done + [text[pos]] == done + todo;
    } else {
      assert todo + "]" == [todo[0]] + (todo[1..] + "]");
      StartsWithSplit(text, pos, [todo[0]], todo[1..] + "]");
      ClassReadBack(text, pos + 1, done + [todo[0]], todo[1..], base);
      assert done + [todo[0]] + todo[1..] == done + todo;
    }
  }

  lemma ChrReadBack(text: string, pos: nat, eof: char, es: seq<Elem>, nbra: nat, stack: seq<nat>, c: char)
    requires PlainDelimiter(eof) && c != '\n' && StartsWith(text, pos, SpellAtom(Chr(c), eof))
    requires |Body(es)| < ESIZE
    ensures Parse(text, pos, eof, es, nbra, stack)
         == Parse(text, pos + |SpellAtom(Chr(c), eof)|, eof, es + [One(Chr(c))], nbra, stack)
  {
    hide Body, ParseClass;
    var w := SpellAtom(Chr(c), eof);
    StartsWithAt(text, pos, w, 0);
    if |w| == 2 {
      StartsWithAt(text, pos, w, 1);
      assert Escaped(c, nbra, stack) == Some((One(Chr(c)), nbra, stack));
    }
  }

  lemma ClassElemReadBack(text: string, pos: nat, eof: char, es: seq<Elem>, nbra: nat, stack: seq<nat>, a: Atom)
    requires PlainDelimiter(eof) && a.Class? && AtomSpells(a) && StartsWith(text, pos, SpellAtom(a, eof))
    requires |Body(es)| + 2 + |a.members| < ESIZE
    ensures Parse(text, pos, eof, es, nbra, stack)
         == Parse(text, pos + |SpellAtom(a, eof)|, eof, es + [One(a)], nbra, stack)
  {
    hide Body, ParseClass, Escaped;
    var w, head := SpellAtom(a, eof), if a.negated then "[^" else "[";
    StartsWithAt(text, pos, w, 0);
    StartsWithAt(text, pos, w, 1);
    assert w == head + (a.members + "]");
    StartsWithSplit(text, pos, head, a.members + "]");
    ClassReadBack(text, pos + |head|, "", a.members, |Body(es)|);
    assert "" + a.members == a.members;
  }

  /** Reading back one atom. */
  lemma AtomReadBack(text: string, pos: nat, eof: char, es: seq<Elem>, nbra: nat, stack: seq<nat>, a: Atom)
    requires PlainDelimiter(eof) && AtomSpells(a) && StartsWith(text, pos, SpellAtom(a, eof))
    requires |Body(es)| + |AtomCode(a)| < ESIZE
    ensures Parse(text, pos, eof, es, nbra, stack)
         == Parse(text, pos + |SpellAtom(a, eof)|, eof, es + [One(a)], nbra, stack)
  {
    hide Body, ParseClass, Escaped;
    match a
    case Chr(c) => ChrReadBack(text, pos, eof, es, nbra, stack, c);
    case Any => StartsWithAt(text, pos, ".", 0);
    case Class(_, _) => ClassElemReadBack(text, pos, eof, es, nbra, stack, a);
  }

  /** Reading back one element; the end-of-line mark must be followed by the delimiter. */
  lemma ElemReadBack(text: string, pos: nat, eof: char, es: seq<Elem>, nbra: nat, stack: seq<nat>,
                     e: Elem, nbra': nat, stack': seq<nat>)
    requires PlainDelimiter(eof) && StartsWith(text, pos, SpellElem(e, eof))
    requires |Body(es)| + |ElemCode(e)| < ESIZE
    requires match e
             case One(a) => AtomSpells(a) && nbra' == nbra && stack' == stack
             case Many(a) => AtomSpells(a) && nbra' == nbra && stack' == stack
             case Open(n) => n == nbra < NBRA && nbra' == nbra + 1 && stack' == stack + [nbra]
             case Close(n) => stack != [] && n == stack[|stack| - 1] && nbra' == nbra && stack' == stack[..|stack| - 1]
             case Last => pos + 1 < |text| && text[pos + 1] == eof && nbra' == nbra && stack' == stack
    ensures Parse(text, pos, eof, es, nbra, stack)
         == Parse(text, pos + |SpellElem(e, eof)|, eof, es + [e], nbra', stack')
  {
    hide Body, ParseClass, AtomCode;
    var w := SpellElem(e, eof);
    match e
    case One(a) => AtomReadBack(text, pos, eof, es, nbra, stack, a);
    case Many(a) => ManyReadBack(text, pos, eof, es, nbra, stack, a);
    case Last => StartsWithAt(text, pos, w, 0);
    case Open(n) =>
      StartsWithAt(text, pos, w, 0);
      StartsWithAt(text, pos, w, 1);
    case Close(n) =>
      StartsWithAt(text, pos, w, 0);
      StartsWithAt(text, pos, w, 1);
  }

  lemma ManyReadBack(text: string, pos: nat, eof: char, es: seq<Elem>, nbra: nat, stack: seq<nat>, a: Atom)
    requires PlainDelimiter(eof) && AtomSpells(a) && StartsWith(text, pos, SpellAtom(a, eof) + "*")
    requires |Body(es)| + |AtomCode(a)| < ESIZE
    ensures Parse(text, pos, eof, es, nbra, stack)
         == Parse(text, pos + |SpellAtom(a, eof)| + 1, eof, es + [Many(a)], nbra, stack)
  {
    hide Body, ParseClass, Escaped, AtomSpells, SpellAtom;
    var w := SpellAtom(a, eof);
    StartsWithSplit(text, pos, w, "*");
    AtomReadBack(text, pos, eof, es, nbra, stack, a);
    StartsWithAt(text, pos + |w|, "*", 0);
    BodyAppend(es, One(a));
    assert (es + [One(a)])[..|es|] + [Many(a)] == es + [Many(a)];
  }

  /** Reading back a whole pattern, in front of the delimiter. */
  lemma {:induction false} ReadBack(text: string, pos: nat, eof: char, done: seq<Elem>, todo: seq<Elem>,
                                    nbra: nat, stack: seq<nat>)
    requires PlainDelimiter(eof) && Spells(todo, nbra, stack)
    requires StartsWith(text, pos, Spell(todo, eof) + [eof]) && |Body(done + todo)| < ESIZE
    ensures Parse(text, pos, eof, done, nbra, stack) == Good(done + todo, pos + |Spell(todo, eof)| + 1)
    decreases |todo|
  {
    hide Body, ParseClass, Parse, SpellElem, StartsWith, ElemCode, AtomCode, AtomSpells;
    if todo == [] {
      assert done + [] == done && Spell([], eof) + [eof] == [eof];
      DelimiterReadBack(text, pos, eof, done, nbra, stack);
    } else {
      var e, rest := todo[0], todo[1..];
      assert Spell(todo, eof) + [eof] == SpellElem(e, eof) + (Spell(rest, eof) + [eof]);
      StartsWithSplit(text, pos, SpellElem(e, eof), Spell(rest, eof) + [eof]);
      assert done + todo == (done + [e]) + rest;
      BodyShorter(done + [e], rest);
      BodyAppend(done, e);
      var nbra' := if e.Open? then nbra + 1 else nbra;
      var stack' := if e.Open? then stack + [nbra] else if e.Close? then stack[..|stack| - 1] else stack;
      if e.Last? {
        assert Spell(rest, eof) + [eof] == [eof];
        LastReadBack(text, pos, eof);
      }
      ElemReadBack(text, pos, eof, done, nbra, stack, e, nbra', stack');
      ReadBack(text, pos + |SpellElem(e, eof)|, eof, done + [e], rest, nbra', stack');
    }
  }

  lemma DelimiterReadBack(text: string, pos: nat, eof: char, es: seq<Elem>, nbra: nat, stack: seq<nat>)
    requires StartsWith(text, pos, [eof]) && |Body(es)| < ESIZE
    ensures Parse(text, pos, eof, es, nbra, stack) == Good(es, pos + 1)
  {
    StartsWithAt(text, pos, [eof], 0);
  }

  lemma LastReadBack(text: string, pos: nat, eof: char)
    requires StartsWith(text, pos + |SpellElem(Last, eof)|, [eof])
    ensures pos + 1 < |text| && text[pos + 1] == eof
  {
    StartsWithAt(text, pos + 1, [eof], 0);
  }

  /** Spelling a pattern, with or without the anchor, gives a text that parses as that very pattern. */
  lemma SpellParses(es: seq<Elem>, eof: char, after: string)
    requires PlainDelimiter(eof) && Spells(es, 0, []) && |Body(es)| < ESIZE
    ensures var text := Spell(es, eof) + [eof] + after;
            Parse(text, 0, eof, [], 0, []) == Good(es, |Spell(es, eof)| + 1)
    ensures var text := "^" + Spell(es, eof) + [eof] + after;
            Parse(text, 1, eof, [], 0, []) == Good(es, |Spell(es, eof)| + 2)
  {
    hide Body, Parse, Spell, Spells;
    var word := Spell(es, eof) + [eof];
    var plain, anchored := Spell(es, eof) + [eof] + after, "^" + Spell(es, eof) + [eof] + after;
    assert plain[0..|word|] == word;
    assert anchored[1..1 + |word|] == word;
    assert [] + es == es;
    ReadBack(plain, 0, eof, [], es, 0, []);
    ReadBack(anchored, 1, eof, [], es, 0, []);
  }

  /** So it compiles to the code of that pattern, for every delimiter that is not itself syntax; an empty
      one stands for the last pattern unless it is anchored. */
  lemma SpellCompiles(es: seq<Elem>, eof: char, after: string, hasLast: bool)
    requires PlainDelimiter(eof) && Spells(es, 0, []) && |Body(es)| < ESIZE
    ensures CompileOf(Spell(es, eof) + [eof] + after, eof, hasLast) ==
            if es == [] then if hasLast then Reuse else Error else Program(false, Encode(es), |Spell(es, eof)| + 1)
    ensures CompileOf("^" + Spell(es, eof) + [eof] + after, eof, hasLast) ==
              Program(true, Encode(es), |Spell(es, eof)| + 2)
  {
    hide Body, Parse, Spells, Encode;
    SpellParses(es, eof, after);
    var plain, anchored := Spell(es, eof) + [eof] + after, "^" + Spell(es, eof) + [eof] + after;
    if es == [] {
      assert plain[0] == eof && anchored[1] == eof;
    } else {
      SpellBegins(es, eof);
      assert plain[0] == Spell(es, eof)[0] && anchored[1] == Spell(es, eof)[0];
    }
  }

  /** A spelling does not begin with the delimiter, an anchor or a star. */
  lemma SpellBegins(es: seq<Elem>, eof: char)
    requires PlainDelimiter(eof) && es != [] && Spells(es, 0, [])
    ensures Spell(es, eof) != [] && Spell(es, eof)[0] != eof && Spell(es, eof)[0] != '^' && Spell(es, eof)[0] != '*'
  {
  }

  lemma {:induction false} BodyShorter(es: seq<Elem>, fs: seq<Elem>)
    ensures |Body(es)| <= |Body(es + fs)|
    decreases |fs|
  {
    hide ElemCode, Body;
    if fs == [] {
      assert es + fs == es;
    } else {
      var fs' := fs[..|fs| - 1];
      BodyShorter(es, fs');
      BodyAppend(es + fs', fs[|fs| - 1]);
      assert es + fs == (es + fs') + [fs[|fs| - 1]];
    }
  }
}
