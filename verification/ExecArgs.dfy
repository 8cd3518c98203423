/** The argument image that exec puts on a new program's stack (kernel/api/elf32.c, after the System V
    ABI Intel386 supplement, pp. 54-59): argc, pointers to the argv, envp and auxv vectors, the
    vectors, the strings, and the program header table.

    Strings are without their terminating NUL.  `table` is the memory that an AT_PHDR entry of auxv
    points to. */
module ExecArgs {
  import opened Arithmetic
  import opened Bytes

  const AT_NULL: Word := 0
  const AT_PHDR: Word := 3

  type Str = s: seq<Byte> | 0 !in s

  datatype Aux = Aux(kind: Word, val: Word, table: seq<Byte>)

  // ----- the image as a value -----

  /** Words one after the other. */
  ghost function Flat(ws: seq<Word>): seq<Byte> {
    if ws == [] then [] else Flat(ws[..|ws| - 1]) + Pack(ws[|ws| - 1])
  }

  /** Strings one after the other, each with its NUL. */
  ghost function Strings(ss: seq<Str>): seq<Byte> {
    if ss == [] then [] else Strings(ss[..|ss| - 1]) + ss[|ss| - 1] + [0]
  }

  /** Pointers to strings that start at address `at`. */
  ghost function Pointers(ss: seq<Str>, at: nat): seq<nat> {
    if ss == [] then [] else Pointers(ss[..|ss| - 1], at) + [at + |Strings(ss[..|ss| - 1])|]
  }

  lemma {:induction false} FlatLength(ws: seq<Word>)
    ensures |Flat(ws)| == 4 * |ws|
  {
    if ws != [] { FlatLength(ws[..|ws| - 1]); }
  }

  lemma {:induction false} FlatAt(ws: seq<Word>, i: nat)
    requires i < |ws|
    ensures |Flat(ws)| == 4 * |ws| && Flat(ws)[4 * i..4 * i + 4] == Pack(ws[i])
  {
    hide Pack;
    FlatLength(ws);
    FlatLength(ws[..|ws| - 1]);
    if i < |ws| - 1 {
      FlatAt(ws[..|ws| - 1], i);
    }
  }

  lemma FlatSnoc(ws: seq<Word>, w: Word)
    ensures Flat(ws + [w]) == Flat(ws) + Pack(w)
  {
    assert (ws + [w])[..|ws + [w]| - 1] == ws;
  }

  lemma StringsSnoc(ss: seq<Str>, s: Str)
    ensures Strings(ss + [s]) == Strings(ss) + s + [0]
  {
    assert (ss + [s])[..|ss + [s]| - 1] == ss;
  }

  lemma {:induction false} StringsConcat(a: seq<Str>, b: seq<Str>)
    ensures Strings(a + b) == Strings(a) + Strings(b)
  {
    if b == [] {
      assert a + b == a;
    } else {
      var b', s := b[..|b| - 1], b[|b| - 1];
      StringsConcat(a, b');
      assert a + b == (a + b') + [s];
      StringsSnoc(a + b', s);
      assert Strings(a) + Strings(b') + s + [0] == Strings(a) + (Strings(b') + s + [0]);
    }
  }

  // ----- reading it back -----

  function ReadWord(b: seq<Byte>, p: nat): Word
    requires p + 4 <= |b|
  {
    Unpack(b[p], b[p + 1], b[p + 2], b[p + 3])
  }

  /** The string at a position, up to its NUL. */
  function ReadString(b: seq<Byte>, p: nat): seq<Byte>
    decreases |b| - p
  {
    if p >= |b| || b[p] == 0 then [] else [b[p]] + ReadString(b, p + 1)
  }

  /** A vector of string pointers at a position, up to the null pointer. */
  function ReadVector(b: seq<Byte>, low: nat, p: nat): seq<seq<Byte>>
    decreases |b| - p
  {
    if p + 4 > |b| || ReadWord(b, p) == 0 || ReadWord(b, p) < low then []
    else [ReadString(b, ReadWord(b, p) - low)] + ReadVector(b, low, p + 4)
  }

  /** The auxiliary vector at a position, up to the null entry. */
  function ReadAux(b: seq<Byte>, p: nat): seq<(Word, Word)>
    decreases |b| - p
  {
    if p + 8 > |b| || ReadWord(b, p) == AT_NULL then []
    else [(ReadWord(b, p), ReadWord(b, p + 4))] + ReadAux(b, p + 8)
  }

  lemma {:induction false} ReadStringAt(b: seq<Byte>, p: nat, s: Str)
    requires p + |s| < |b| && b[p..p + |s|] == s && b[p + |s|] == 0
    ensures ReadString(b, p) == s
    decreases |s|
  {
    if s != [] {
      assert b[p] == b[p..p + |s|][0] == s[0];
      assert s[0] in s && b[p] != 0;
      assert b[p + 1..p + |s|] == b[p..p + |s|][1..] == s[1..];
      assert 0 !in s[1..];
      ReadStringAt(b, p + 1, s[1..]);
      assert s == [s[0]] + s[1..];
    }
  }

  lemma ReadWordAt(b: seq<Byte>, p: nat, w: Word)
    requires p + 4 <= |b| && b[p..p + 4] == Pack(w)
    ensures ReadWord(b, p) == w
  {
    hide Pack, Unpack;
    var s := b[p..p + 4];
    assert s[0] == b[p] && s[1] == b[p + 1] && s[2] == b[p + 2] && s[3] == b[p + 3];
    PackUnpack(w);
  }

  lemma {:induction false} PointerAt(ss: seq<Str>, at: nat, i: nat)
    requires i < |ss|
    ensures |Pointers(ss, at)| == |ss| && Pointers(ss, at)[i] == at + |Strings(ss[..i])|
  {
    PointersLength(ss[..|ss| - 1], at);
    if i < |ss| - 1 {
      PointerAt(ss[..|ss| - 1], at, i);
      assert ss[..|ss| - 1][..i] == ss[..i];
    }
  }

  lemma {:induction false} PointersLength(ss: seq<Str>, at: nat)
    ensures |Pointers(ss, at)| == |ss|
  {
    if ss != [] { PointersLength(ss[..|ss| - 1], at); }
  }

  lemma StringAt(ss: seq<Str>, i: nat)
    requires i < |ss|
    ensures var p := |Strings(ss[..i])|;
            && p + |ss[i]| < |Strings(ss)|
            && Strings(ss)[p..p + |ss[i]|] == ss[i] && Strings(ss)[p + |ss[i]|] == 0
  {
    StringsSnoc(ss[..i], ss[i]);
    assert ss[..i] + [ss[i]] == ss[..i + 1];
    StringsConcat(ss[..i + 1], ss[i + 1..]);
    assert ss == ss[..i + 1] + ss[i + 1..];
  }

  /** The first words of the image are `ws`. */
  ghost predicate Begins(b: seq<Byte>, ws: seq<Word>) {
    4 * |ws| <= |b| && b[..4 * |ws|] == Flat(ws)
  }

  lemma WordOf(b: seq<Byte>, ws: seq<Word>, i: nat)
    requires Begins(b, ws) && i < |ws|
    ensures 4 * i + 4 <= |b| && ReadWord(b, 4 * i) == ws[i]
  {
    hide Pack, Flat, ReadWord;
    FlatAt(ws, i);
    assert b[4 * i..4 * i + 4] == b[..4 * |ws|][4 * i..4 * i + 4];
    ReadWordAt(b, 4 * i, ws[i]);
  }

  /** The strings at `at`, and their pointers from word `k` on. */
  ghost predicate Vector(b: seq<Byte>, ws: seq<Word>, low: nat, k: nat, ss: seq<Str>, at: nat) {
    && k + |ss| < |ws| && ws[k..k + |ss|] == Pointers(ss, low + at) && ws[k + |ss|] == 0
    && at + |Strings(ss)| <= |b| && b[at..at + |Strings(ss)|] == Strings(ss)
  }

  lemma SliceOf(b: seq<Byte>, at: nat, n: nat, p: nat, m: nat)
    requires at + n <= |b| && p + m < n
    ensures b[at..at + n][p..p + m] == b[at + p..at + p + m] && b[at..at + n][p + m] == b[at + p + m]
  {
    var r := b[at..at + n];
    var x, y := r[p..p + m], b[at + p..at + p + m];
    forall k | 0 <= k < m
      ensures x[k] == y[k]
    {
      assert r[p + k] == b[at + p + k];
    }
    assert |x| == m == |y|;
  }

  /** Reading a vector through its pointers gives the strings. */
  lemma {:induction false} ReadVectorAt(b: seq<Byte>, ws: seq<Word>, low: nat, k: nat, ss: seq<Str>, at: nat, i: nat)
    requires Begins(b, ws) && Vector(b, ws, low, k, ss, at) && low > 0 && i <= |ss|
    ensures ReadVector(b, low, 4 * (k + i)) == ss[i..]
    decreases |ss| - i
  {
    hide Flat, Strings, Pointers, ReadWord, ReadString;
    WordOf(b, ws, k + i);
    if i < |ss| {
      var p := |Strings(ss[..i])|;
      PointerAt(ss, low + at, i);
      assert ws[k + i] == ws[k..k + |ss|][i] == low + at + p;
      StringAt(ss, i);
      SliceOf(b, at, |Strings(ss)|, p, |ss[i]|);
      ReadStringAt(b, at + p, ss[i]);
      ReadVectorAt(b, ws, low, k, ss, at, i + 1);
      assert ss[i..] == [ss[i]] + ss[i + 1..];
    }
  }

  /** The entries as the program sees them: an AT_PHDR entry points to the table on the stack. */
  ghost function Placed(auxv: seq<Aux>, table: Word): seq<(Word, Word)> {
    if auxv == [] then []
    else var a := auxv[|auxv| - 1];
         Placed(auxv[..|auxv| - 1], table) + [(a.kind, if a.kind == AT_PHDR then table else a.val)]
  }

  ghost function AuxWords(ps: seq<(Word, Word)>): seq<Word> {
    if ps == [] then [] else AuxWords(ps[..|ps| - 1]) + [ps[|ps| - 1].0, ps[|ps| - 1].1]
  }

  lemma {:induction false} AuxWordsAt(ps: seq<(Word, Word)>, i: nat)
    requires i < |ps|
    ensures |AuxWords(ps)| == 2 * |ps| && AuxWords(ps)[2 * i] == ps[i].0 && AuxWords(ps)[2 * i + 1] == ps[i].1
  {
    AuxWordsLength(ps[..|ps| - 1]);
    if i < |ps| - 1 { AuxWordsAt(ps[..|ps| - 1], i); }
  }

  lemma {:induction false} AuxWordsLength(ps: seq<(Word, Word)>)
    ensures |AuxWords(ps)| == 2 * |ps|
  {
    if ps != [] { AuxWordsLength(ps[..|ps| - 1]); }
  }

  lemma {:induction false} ReadAuxAt(b: seq<Byte>, ws: seq<Word>, k: nat, ps: seq<(Word, Word)>, i: nat)
    requires Begins(b, ws) && i <= |ps| && k + 2 * |ps| < |ws| && 4 * (k + 2 * |ps|) + 8 <= |b|
    requires ws[k..k + 2 * |ps|] == AuxWords(ps) && ws[k + 2 * |ps|] == AT_NULL
    requires forall j :: 0 <= j < |ps| ==> ps[j].0 != AT_NULL
    ensures ReadAux(b, 4 * (k + 2 * i)) == ps[i..]
    decreases |ps| - i
  {
    hide Flat, AuxWords, ReadWord;
    WordOf(b, ws, k + 2 * i);
    if i < |ps| {
      AuxWordsAt(ps, i);
      assert ws[k + 2 * i] == ws[k..k + 2 * |ps|][2 * i] && ws[k + 2 * i + 1] == ws[k..k + 2 * |ps|][2 * i + 1];
      WordOf(b, ws, k + 2 * i + 1);
      ReadAuxAt(b, ws, k, ps, i + 1);
      assert ps[i..] == [ps[i]] + ps[i + 1..];
    }
  }

  // ----- the size -----

  ghost function Tables(auxv: seq<Aux>): nat {
    if auxv == [] then 0 else Tables(auxv[..|auxv| - 1]) + if auxv[|auxv| - 1].kind == AT_PHDR then 1 else 0
  }

  /** The words of header and vectors, with the null entry of auxv. */
  function VectorWords(argc: nat, envc: nat, auxc: nat): nat {
    4 + (argc + 1) + (envc + 1) + 2 * (auxc + 1)
  }

  ghost function ArgSize(argv: seq<Str>, envp: seq<Str>, auxv: seq<Aux>, phtsize: nat): nat {
    4 * VectorWords(|argv|, |envp|, |auxv|) + |Strings(argv)| + |Strings(envp)| + Tables(auxv) * phtsize
  }

  /** `_elf32_calc_argsize`. */
  method CalcArgSize(argv: seq<Str>, envp: seq<Str>, auxv: seq<Aux>, phtsize: nat) returns (size: nat)
    ensures size == ArgSize(argv, envp, auxv, phtsize)
  {
    size := 0;
    var i := 0;
    while i < |argv|
      invariant 0 <= i <= |argv| && size == |Strings(argv[..i])|
    {
      StringsSnoc(argv[..i], argv[i]);
      assert argv[..i + 1] == argv[..i] + [argv[i]];
      size := size + |argv[i]| + 1;
      i := i + 1;
    }
    assert argv[..|argv|] == argv;
    size := size + (i + 1) * 4;
    ghost var before := size;
    i := 0;
    while i < |envp|
      invariant 0 <= i <= |envp| && size == before + |Strings(envp[..i])|
    {
      StringsSnoc(envp[..i], envp[i]);
      assert envp[..i + 1] == envp[..i] + [envp[i]];
      size := size + |envp[i]| + 1;
      i := i + 1;
    }
    assert envp[..|envp|] == envp;
    size := size + (i + 1) * 4;
    before := size;
    i := 0;
    while i < |auxv|
      invariant 0 <= i <= |auxv| && size == before + Tables(auxv[..i]) * phtsize
    {
      assert auxv[..i + 1][..i] == auxv[..i];
      if auxv[i].kind == AT_PHDR {
        assert (Tables(auxv[..i]) + 1) * phtsize == Tables(auxv[..i]) * phtsize + phtsize;
        size := size + phtsize;
      }
      i := i + 1;
    }
    assert auxv[..|auxv|] == auxv;
    size := size + (i + 1) * 8;
    size := size + 4;
    size := size + 3 * 4;
  }

  // ----- writing it -----

  ghost function Over(b: seq<Byte>, p: nat, bytes: seq<Byte>): seq<Byte>
    requires p + |bytes| <= |b|
  {
    b[..p] + bytes + b[p + |bytes|..]
  }

  method Put(buf: array<Byte>, p: nat, bytes: seq<Byte>)
    requires p + |bytes| <= buf.Length
    modifies buf
    ensures buf[..] == Over(old(buf[..]), p, bytes)
  {
    forall k | 0 <= k < |bytes| {
      buf[p + k] := bytes[k];
    }
  }

  /** Writing the next word of the vectors leaves the strings alone. */
  lemma PutWord(b: seq<Byte>, ws: seq<Word>, w: Word, at: nat, end: nat)
    requires Begins(b, ws) && 4 * |ws| + 4 <= at <= end <= |b|
    ensures var b' := Over(b, 4 * |ws|, Pack(w));
            Begins(b', ws + [w]) && b'[at..end] == b[at..end] && b'[end..] == b[end..]
  {
    hide Pack;
    var b' := Over(b, 4 * |ws|, Pack(w));
    FlatSnoc(ws, w);
    FlatLength(ws);
    assert b'[..4 * |ws| + 4] == b[..4 * |ws|] + Pack(w);
  }

  /** Writing after the strings leaves the vectors alone. */
  lemma PutBytes(b: seq<Byte>, ws: seq<Word>, at: nat, end: nat, bytes: seq<Byte>)
    requires Begins(b, ws) && 4 * |ws| <= at <= end && end + |bytes| <= |b|
    ensures var b' := Over(b, end, bytes);
            && Begins(b', ws) && b'[at..end + |bytes|] == b[at..end] + bytes
               && b'[end + |bytes|..] == b[end + |bytes|..]
            && b'[at..end] == b[at..end]
  {
    hide Pack, Flat;
    var b' := Over(b, end, bytes);
    assert b'[..4 * |ws|] == b[..4 * |ws|];
  }

  ghost predicate IsWords(s: seq<nat>) {
    forall i :: 0 <= i < |s| ==> s[i] < 0x1_0000_0000
  }

  /** The first `i` strings and their pointers are in place; the bytes beyond are as in `b0`. */
  ghost predicate Copied(b0: seq<Byte>, b: seq<Byte>, ws0: seq<Word>, low: nat, at: nat, start: nat, ss: seq<Str>,
                         i: nat) {
    && i <= |ss| && |b| == |b0| && at <= start && IsWords(Pointers(ss[..i], low + start))
    && Begins(b, ws0 + Pointers(ss[..i], low + start))
    && var str := start + |Strings(ss[..i])|;
       && str + |Strings(ss[i..])| == start + |Strings(ss)| <= |b|
       && b[at..str] == b0[at..start] + Strings(ss[..i]) && b[str..] == b0[str..]
  }

  lemma CopyStart(b: seq<Byte>, ws: seq<Word>, low: nat, at: nat, start: nat, ss: seq<Str>)
    requires Begins(b, ws) && at <= start && start + |Strings(ss)| <= |b|
    ensures Copied(b, b, ws, low, at, start, ss, 0)
  {
    hide Begins;
    assert ss[..0] == [] && ss[0..] == ss && Strings([]) == [] && Pointers([], low + start) == [];
    assert ws + Pointers(ss[..0], low + start) == ws;
    assert b[at..start] + Strings(ss[..0]) == b[at..start];
  }

  lemma NextString(ss: seq<Str>, i: nat, at: nat)
    requires i < |ss|
    ensures |Strings(ss[i..])| == |ss[i]| + 1 + |Strings(ss[i + 1..])|
    ensures Strings(ss[..i + 1]) == Strings(ss[..i]) + (ss[i] + [0])
    ensures Pointers(ss[..i + 1], at) == Pointers(ss[..i], at) + [at + |Strings(ss[..i])|]
  {
    StringsConcat([ss[i]], ss[i + 1..]);
    assert ss[i..] == [ss[i]] + ss[i + 1..];
    StringsSnoc([], ss[i]);
    assert [] + [ss[i]] == [ss[i]];
    StringsSnoc(ss[..i], ss[i]);
    assert ss[..i + 1] == ss[..i] + [ss[i]] && ss[..i + 1][..i] == ss[..i];
    assert Strings(ss[..i]) + ss[i] + [0] == Strings(ss[..i]) + (ss[i] + [0]);
  }

  lemma CopyStep(b0: seq<Byte>, b: seq<Byte>, ws: seq<Word>, low: nat, at: nat, start: nat, ss: seq<Str>, i: nat)
    requires Copied(b0, b, ws, low, at, start, ss, i) && i < |ss| && low + |b| <= 0x1_0000_0000
    requires 4 * (|ws| + i) + 4 <= at && start <= |b0|
    ensures |Pointers(ss[..i], low + start)| == i
    ensures var str, vec := start + |Strings(ss[..i])|, 4 * (|ws| + i);
            && str + |ss[i]| + 1 <= |b|
            && Copied(b0, Over(Over(b, str, ss[i] + [0]), vec, Pack(low + str)), ws, low, at, start, ss, i + 1)
  {
    hide Begins, Over, Pack, Strings, Pointers;
    var str, ptrs := start + |Strings(ss[..i])|, Pointers(ss[..i], low + start);
    NextString(ss, i, low + start);
    PointersLength(ss[..i], low + start);
    var len := |ss[i]| + 1;
    PutBytes(b, ws + ptrs, at, str, ss[i] + [0]);
    var b1 := Over(b, str, ss[i] + [0]);
    OverLength(b, str, ss[i] + [0]);
    PutWord(b1, ws + ptrs, low + str, at, str + len);
    OverLength(b1, 4 * (|ws| + i), Pack(low + str));
    assert ws + ptrs + [low + str] == ws + Pointers(ss[..i + 1], low + start);
    assert b0[at..start] + Strings(ss[..i]) + (ss[i] + [0]) == b0[at..start] + Strings(ss[..i + 1]);
    assert b[str + len..] == b[str..][len..] && b0[str + len..] == b0[str..][len..];
  }

  lemma OverLength(b: seq<Byte>, p: nat, bytes: seq<Byte>)
    requires p + |bytes| <= |b|
    ensures |Over(b, p, bytes)| == |b|
  {
  }

  /** One of the two loops over strings: the strings from `strstart`, their pointers to the vector, and
      the null pointer. */
  method CopyStrings(buf: array<Byte>, ss: seq<Str>, low: nat, at: nat, vecstart: nat, strstart: nat,
                     ghost ws: seq<Word>)
    returns (vec: nat, str: nat)
    requires Begins(buf[..], ws) && vecstart == 4 * |ws| && vecstart + 4 * (|ss| + 1) <= at <= strstart
    requires strstart + |Strings(ss)| <= buf.Length && low + buf.Length <= 0x1_0000_0000
    modifies buf
    ensures vec == vecstart + 4 * (|ss| + 1) && str == strstart + |Strings(ss)|
    ensures IsWords(Pointers(ss, low + strstart))
    ensures Begins(buf[..], ws + Pointers(ss, low + strstart) + [0])
    ensures buf[at..str] == old(buf[at..strstart]) + Strings(ss) && buf[str..] == old(buf[str..])
  {
    hide Begins, Over, Pack, Copied, Strings, Pointers, IsWords;
    vec, str := vecstart, strstart;
    ghost var b0 := buf[..];
    CopyStart(b0, ws, low, at, strstart, ss);
    NoStrings(ss);
    var i := 0;
    while i < |ss|
      invariant 0 <= i <= |ss| && vec == 4 * (|ws| + i) && str == strstart + |Strings(ss[..i])|
      invariant Copied(b0, buf[..], ws, low, at, strstart, ss, i)
    {
      CopyStep(b0, buf[..], ws, low, at, strstart, ss, i);
      NextString(ss, i, 0);
      var len := |ss[i]| + 1;
      Put(buf, str, ss[i] + [0]);
      Put(buf, vec, Pack(low + str));
      str := str + len;
      vec := vec + 4;
      i := i + 1;
    }
    assert ss[..|ss|] == ss;
    CopyEnd(b0, buf[..], ws, low, at, strstart, ss);
    Put(buf, vec, Pack(0));
    assert buf[..][at..str] == buf[at..str] && buf[..][str..] == buf[str..];
    assert b0[at..strstart] == old(buf[at..strstart]) && b0[str..] == old(buf[str..]);
    vec := vec + 4;
  }

  lemma NoStrings(ss: seq<Str>)
    ensures |Strings(ss[..0])| == 0
  {
  }

  lemma CopyEnd(b0: seq<Byte>, b: seq<Byte>, ws: seq<Word>, low: nat, at: nat, start: nat, ss: seq<Str>)
    requires Copied(b0, b, ws, low, at, start, ss, |ss|) && 4 * (|ws| + |ss|) + 4 <= at
    ensures IsWords(Pointers(ss, low + start))
    ensures var b' := Over(b, 4 * (|ws| + |ss|), Pack(0));
            var str := start + |Strings(ss)|;
            && |b'| == |b0| && str <= |b0| && Begins(b', ws + Pointers(ss, low + start) + [0])
            && b'[at..str] == b0[at..start] + Strings(ss) && b'[str..] == b0[str..]
  {
    hide Begins, Over, Pack, Strings, Pointers;
    assert ss[..|ss|] == ss;
    PointersLength(ss, low + start);
    PutWord(b, ws + Pointers(ss, low + start), 0, at, start + |Strings(ss)|);
    OverLength(b, 4 * (|ws| + |ss|), Pack(0));
  }

  // ----- the auxiliary vector -----

  /** The table of the last AT_PHDR entry. */
  ghost function LastTable(auxv: seq<Aux>): seq<Byte>
    requires Tables(auxv) > 0
  {
    var a := auxv[|auxv| - 1];
    if a.kind == AT_PHDR then a.table else LastTable(auxv[..|auxv| - 1])
  }

  /** That of every AT_PHDR entry, exactly when they all point to the same bytes; so with one entry. */
  lemma {:induction false} LastTableOf(auxv: seq<Aux>)
    requires Tables(auxv) > 0
    ensures (forall i :: 0 <= i < |auxv| && auxv[i].kind == AT_PHDR ==> auxv[i].table == LastTable(auxv)) <==>
            (forall i, j :: 0 <= i < |auxv| && 0 <= j < |auxv| && auxv[i].kind == AT_PHDR && auxv[j].kind == AT_PHDR ==>
              auxv[i].table == auxv[j].table)
  {
    var k := LastIndex(auxv);
    assert auxv[k].kind == AT_PHDR && auxv[k].table == LastTable(auxv);
  }

  lemma {:induction false} LastIndex(auxv: seq<Aux>) returns (k: nat)
    requires Tables(auxv) > 0
    ensures k < |auxv| && auxv[k].kind == AT_PHDR && auxv[k].table == LastTable(auxv)
  {
    if auxv[|auxv| - 1].kind == AT_PHDR {
      k := |auxv| - 1;
    } else {
      k := LastIndex(auxv[..|auxv| - 1]);
    }
  }

  /** The first `i` entries are in place, with the last table met; `end` is the end of the strings. */
  ghost predicate AuxCopied(b0: seq<Byte>, b: seq<Byte>, ws: seq<Word>, low: nat, at: nat, end: nat, auxv: seq<Aux>,
                            i: nat, phtsize: nat) {
    && i <= |auxv| && |b| == |b0| && at <= end && low + end < 0x1_0000_0000 && end <= |b|
    && Begins(b, ws + AuxWords(Placed(auxv[..i], low + end)))
    && b[at..end] == b0[at..end]
    && (if Tables(auxv[..i]) == 0 then b[end..] == b0[end..]
        else
          && end + phtsize <= |b| && b[end..end + phtsize] == LastTable(auxv[..i])
          && b[end + phtsize..] == b0[end + phtsize..])
  }

  lemma AuxStart(b: seq<Byte>, ws: seq<Word>, low: nat, at: nat, end: nat, auxv: seq<Aux>, phtsize: nat)
    requires Begins(b, ws) && at <= end <= |b| && low + end < 0x1_0000_0000
    ensures AuxCopied(b, b, ws, low, at, end, auxv, 0, phtsize)
  {
    hide Begins;
    assert auxv[..0] == [] && ws + AuxWords(Placed([], low + end)) == ws;
  }

  lemma PutPair(b: seq<Byte>, ws: seq<Word>, k: Word, v: Word, at: nat)
    requires Begins(b, ws) && 4 * |ws| + 8 <= at <= |b|
    ensures var b' := Over(b, 4 * |ws|, Pack(k) + Pack(v));
            |b'| == |b| && Begins(b', ws + [k, v]) && b'[at..] == b[at..]
  {
    hide Pack, Flat;
    var b' := Over(b, 4 * |ws|, Pack(k) + Pack(v));
    FlatSnoc(ws, k);
    FlatSnoc(ws + [k], v);
    FlatLength(ws);
    assert ws + [k] + [v] == ws + [k, v];
    assert b'[..4 * |ws| + 8] == b[..4 * |ws|] + (Pack(k) + Pack(v));
    assert Flat(ws) + Pack(k) + Pack(v) == Flat(ws) + (Pack(k) + Pack(v));
  }

  lemma ReplaceSecond(b: seq<Byte>, ws: seq<Word>, k: Word, v: Word, w: Word, at: nat)
    requires Begins(b, ws + [k, v]) && 4 * |ws| + 8 <= at <= |b|
    ensures var b' := Over(b, 4 * |ws| + 4, Pack(w));
            |b'| == |b| && Begins(b', ws + [k, w]) && b'[at..] == b[at..]
  {
    hide Pack, Flat;
    var b' := Over(b, 4 * |ws| + 4, Pack(w));
    FlatSnoc(ws + [k], v);
    FlatSnoc(ws + [k], w);
    FlatLength(ws + [k]);
    assert ws + [k] + [v] == ws + [k, v] && ws + [k] + [w] == ws + [k, w];
    assert b[..4 * |ws| + 4] == b[..4 * |ws| + 8][..4 * |ws| + 4] == Flat(ws + [k]);
    assert b'[..4 * |ws| + 8] == b[..4 * |ws| + 4] + Pack(w);
  }

  /** The bytes after one turn of the loop. */
  ghost function AuxPut(b: seq<Byte>, vec: nat, a: Aux, low: nat, end: nat): seq<Byte>
    requires vec + 8 <= end <= |b| && (a.kind == AT_PHDR ==> end + |a.table| <= |b|) && low + end < 0x1_0000_0000
  {
    var b1 := Over(b, vec, Pack(a.kind) + Pack(a.val));
    if a.kind == AT_PHDR then Over(Over(b1, end, a.table), vec + 4, Pack(low + end)) else b1
  }

  lemma AuxPutOk(b: seq<Byte>, ws: seq<Word>, a: Aux, low: nat, at: nat, end: nat)
    requires Begins(b, ws) && 4 * |ws| + 8 <= at <= end <= |b| && (a.kind == AT_PHDR ==> end + |a.table| <= |b|)
             && low + end < 0x1_0000_0000
    ensures var b' := AuxPut(b, 4 * |ws|, a, low, end);
            && |b'| == |b| && Begins(b', ws + [a.kind, if a.kind == AT_PHDR then low + end else a.val])
            && b'[at..end] == b[at..end]
            && (a.kind != AT_PHDR ==> b'[end..] == b[end..])
            && (a.kind == AT_PHDR ==>
                 b'[end..end + |a.table|] == a.table && b'[end + |a.table|..] == b[end + |a.table|..])
  {
    hide Begins, Pack, Over;
    var b1 := Over(b, 4 * |ws|, Pack(a.kind) + Pack(a.val));
    PutPair(b, ws, a.kind, a.val, at);
    SameTail(b, b1, at, end, end);
    if a.kind == AT_PHDR {
      var n := |a.table|;
      var b2 := Over(b1, end, a.table);
      PutBytes(b1, ws + [a.kind, a.val], at, end, a.table);
      TableThere(b1, end, a.table);
      ReplaceSecond(b2, ws, a.kind, a.val, low + end, at);
      var b3 := Over(b2, 4 * |ws| + 4, Pack(low + end));
      SameTail(b2, b3, at, end, end + n);
      SameTail(b2, b3, at, at, end);
      SameTail(b, b1, at, end + n, end + n);
      SameTail(b, b1, at, at, end);
    } else {
      SameTail(b, b1, at, at, end);
    }
  }

  lemma SameTail(b: seq<Byte>, b': seq<Byte>, at: nat, p: nat, q: nat)
    requires |b'| == |b| && at <= p <= q <= |b| && b'[at..] == b[at..]
    ensures b'[p..q] == b[p..q] && b'[q..] == b[q..]
  {
    TailSlice(b, at, p, q);
    TailSlice(b', at, p, q);
    TailSlice(b, at, q, |b|);
    TailSlice(b', at, q, |b|);
  }

  lemma TailSlice(b: seq<Byte>, at: nat, p: nat, q: nat)
    requires at <= p <= q <= |b|
    ensures b[p..q] == b[at..][p - at..q - at]
  {
    var t := b[at..];
    var x, y := t[p - at..q - at], b[p..q];
    forall k | 0 <= k < q - p
      ensures x[k] == y[k]
    {
      assert t[p - at + k] == b[p + k];
    }
    assert |x| == q - p == |y|;
  }

  lemma TableThere(b: seq<Byte>, p: nat, bytes: seq<Byte>)
    requires p + |bytes| <= |b|
    ensures |Over(b, p, bytes)| == |b| && Over(b, p, bytes)[p..p + |bytes|] == bytes
  {
  }

  lemma NextAux(auxv: seq<Aux>, i: nat, table: Word)
    requires i < |auxv|
    ensures var v := if auxv[i].kind == AT_PHDR then table else auxv[i].val;
            AuxWords(Placed(auxv[..i + 1], table)) == AuxWords(Placed(auxv[..i], table)) + [auxv[i].kind, v]
    ensures Tables(auxv[..i + 1]) == Tables(auxv[..i]) + if auxv[i].kind == AT_PHDR then 1 else 0
    ensures auxv[i].kind == AT_PHDR ==> LastTable(auxv[..i + 1]) == auxv[i].table
    ensures auxv[i].kind != AT_PHDR && Tables(auxv[..i]) > 0 ==> LastTable(auxv[..i + 1]) == LastTable(auxv[..i])
  {
    assert auxv[..i + 1][..i] == auxv[..i];
    var ps := Placed(auxv[..i + 1], table);
    assert ps[..|ps| - 1] == Placed(auxv[..i], table);
  }

  lemma {:induction false} PlacedLength(auxv: seq<Aux>, table: Word)
    ensures |Placed(auxv, table)| == |auxv| && |AuxWords(Placed(auxv, table))| == 2 * |auxv|
  {
    AuxWordsLength(Placed(auxv, table));
    if auxv != [] { PlacedLength(auxv[..|auxv| - 1], table); }
  }

  lemma AuxStep(b0: seq<Byte>, b: seq<Byte>, ws: seq<Word>, low: nat, at: nat, end: nat, auxv: seq<Aux>, i: nat,
                phtsize: nat)
    requires AuxCopied(b0, b, ws, low, at, end, auxv, i, phtsize) && i < |auxv| && 4 * (|ws| + 2 * i) + 8 <= at
    requires auxv[i].kind == AT_PHDR ==> |auxv[i].table| == phtsize && end + phtsize <= |b|
    ensures AuxCopied(b0, AuxPut(b, 4 * (|ws| + 2 * i), auxv[i], low, end), ws, low, at, end, auxv, i + 1, phtsize)
  {
    hide Begins, AuxPut, AuxWords, Placed, LastTable, Tables;
    var done := ws + AuxWords(Placed(auxv[..i], low + end));
    PlacedLength(auxv[..i], low + end);
    NextAux(auxv, i, low + end);
    AuxPutOk(b, done, auxv[i], low, at, end);
    var v := if auxv[i].kind == AT_PHDR then low + end else auxv[i].val;
    assert done + [auxv[i].kind, v] == ws + AuxWords(Placed(auxv[..i + 1], low + end));
    var b' := AuxPut(b, 4 * |done|, auxv[i], low, end);
    if auxv[i].kind == AT_PHDR {
      if Tables(auxv[..i]) == 0 {
        assert b[end + phtsize..] == b[end..][phtsize..] && b0[end + phtsize..] == b0[end..][phtsize..];
      }
    } else if Tables(auxv[..i]) > 0 {
      assert b'[end..end + phtsize] == b'[end..][..phtsize] && b[end..end + phtsize] == b[end..][..phtsize];
      assert b'[end + phtsize..] == b'[end..][phtsize..] && b[end + phtsize..] == b[end..][phtsize..];
    }
  }

  /** The third loop: the entries of auxv, and the table where an entry points to it.  The end of the
      strings does not move, so a second table would go over the first. */
  method CopyAux(buf: array<Byte>, auxv: seq<Aux>, phtsize: nat, low: nat, at: nat, vecstart: nat, end: nat,
                 ghost ws: seq<Word>)
    returns (vec: nat)
    requires Begins(buf[..], ws) && vecstart == 4 * |ws| && vecstart + 8 * |auxv| <= at <= end <= buf.Length
             && low + end < 0x1_0000_0000
    requires forall i :: 0 <= i < |auxv| && auxv[i].kind == AT_PHDR ==> |auxv[i].table| == phtsize
    requires Tables(auxv) > 0 ==> end + phtsize <= buf.Length
    modifies buf
    ensures vec == vecstart + 8 * |auxv|
    ensures AuxCopied(old(buf[..]), buf[..], ws, low, at, end, auxv, |auxv|, phtsize)
  {
    hide Begins, Over, Pack, AuxCopied, Tables;
    vec := vecstart;
    ghost var b0 := buf[..];
    AuxStart(b0, ws, low, at, end, auxv, phtsize);
    var i := 0;
    while i < |auxv|
      invariant 0 <= i <= |auxv| && vec == 4 * (|ws| + 2 * i)
      invariant AuxCopied(b0, buf[..], ws, low, at, end, auxv, i, phtsize)
    {
      TablesAt(auxv, i);
      AuxStep(b0, buf[..], ws, low, at, end, auxv, i, phtsize);
      Put(buf, vec, Pack(auxv[i].kind) + Pack(auxv[i].val));
      if auxv[i].kind == AT_PHDR {
        Put(buf, end, auxv[i].table);
        Put(buf, vec + 4, Pack(low + end));
      }
      vec := vec + 8;
      i := i + 1;
    }
  }

  lemma {:induction false} TablesAt(auxv: seq<Aux>, i: nat)
    requires i < |auxv|
    ensures auxv[i].kind == AT_PHDR ==> Tables(auxv) > 0
  {
    if i < |auxv| - 1 { TablesAt(auxv[..|auxv| - 1], i); }
  }

  // ----- the whole image -----

  /** What a program finds when it follows the pointers of the image at address `low`. */
  ghost predicate Decodes(b: seq<Byte>, low: nat, argv: seq<Str>, envp: seq<Str>, auxv: seq<Aux>, table: nat,
                          phtsize: nat) {
    && |b| >= 16 && ReadWord(b, 0) == |argv|
    && ReadWord(b, 4) >= low && ReadVector(b, low, ReadWord(b, 4) - low) == argv
    && ReadWord(b, 8) >= low && ReadVector(b, low, ReadWord(b, 8) - low) == envp
    && table < 0x1_0000_0000 && ReadWord(b, 12) >= low && ReadAux(b, ReadWord(b, 12) - low) == Placed(auxv, table)
    && (Tables(auxv) > 0 ==>
         low <= table && table - low + phtsize <= |b| && b[table - low..table - low + phtsize] == LastTable(auxv))
  }

  /** `_elf32_load_args` into a buffer of the size that `_elf32_calc_argsize` gives: nothing beyond it
      is written, and the image decodes to the arguments. */
  method LoadArgs(buf: array<Byte>, low: nat, argv: seq<Str>, envp: seq<Str>, auxv: seq<Aux>, phtsize: nat)
    requires 0 < low && low + ArgSize(argv, envp, auxv, phtsize) < 0x1_0000_0000
    requires ArgSize(argv, envp, auxv, phtsize) == buf.Length
    requires forall i :: 0 <= i < |auxv| ==>
               auxv[i].kind != AT_NULL && (auxv[i].kind == AT_PHDR ==> |auxv[i].table| == phtsize)
    modifies buf
    ensures Decodes(buf[..], low, argv, envp, auxv,
                    low + 4 * VectorWords(|argv|, |envp|, |auxv|) + |Strings(argv)| + |Strings(envp)|, phtsize)
  {
    hide Begins, Over, Pack, AuxCopied, Strings, Pointers, Tables, Decodes, ArgSize, Header, AuxWords, Placed,
           LastTable;
    SizeFacts(argv, envp, auxv, phtsize);
    var argc, envc, auxc := |argv|, |envp|, |auxv|;
    var veclen := (argc + 1 + envc + 1) * 4 + (auxc + 1) * 8;
    var vecstart := 4 + 3 * 4;
    var at := vecstart + veclen;
    ghost var ws := Header(argc, envc, low);
    PutHeader(buf, argc, envc, low);
    PointersLength(argv, low + at);
    var vec, str := CopyStrings(buf, argv, low, at, vecstart, at, ws);
    ghost var pa, str1 := Pointers(argv, low + at), str;
    PointersLength(envp, low + str);
    ghost var b1 := buf[..];
    vec, str := CopyStrings(buf, envp, low, at, vec, str, ws + pa + [0]);
    ghost var pe := Pointers(envp, low + str1);
    ghost var b2 := buf[..];
    TwoStrings(b1, b2, at, str1, str, argv, envp);
    vec := CopyAux(buf, auxv, phtsize, low, at, vec, str, ws + pa + [0] + pe + [0]);
    AuxEnd(b2, buf[..], ws + pa + [0] + pe + [0], low, at, str, auxv, phtsize);
    Put(buf, vec, Pack(0));
    ImageDecodes(buf[..], low, at, str1, str, argv, envp, auxv, phtsize);
  }

  lemma TwoStrings(b1: seq<Byte>, b2: seq<Byte>, at: nat, str1: nat, str: nat, argv: seq<Str>, envp: seq<Str>)
    requires at <= str1 <= str <= |b1| == |b2| && b1[at..str1] == Strings(argv)
             && b2[at..str] == b1[at..str1] + Strings(envp)
    ensures b2[at..str] == Strings(argv) + Strings(envp)
  {
  }

  /** argc, and where argv, envp and auxv are. */
  ghost function Header(argc: nat, envc: nat, low: nat): (ws: seq<Word>)
    requires low + 16 + 4 * (argc + envc + 2) < 0x1_0000_0000
    ensures |ws| == 4
  {
    [argc, low + 16, low + 16 + (argc + 1) * 4, low + 16 + (argc + 1 + envc + 1) * 4]
  }

  method PutHeader(buf: array<Byte>, argc: nat, envc: nat, low: nat)
    requires buf.Length >= 16 && low + 16 + 4 * (argc + envc + 2) < 0x1_0000_0000
    modifies buf
    ensures Begins(buf[..], Header(argc, envc, low))
  {
    hide Begins, Over, Pack;
    var vvecstart := low + 4 + 3 * 4;
    ghost var ws: seq<Word> := [];
    BeginsNone(buf[..]);
    PutWord(buf[..], ws, argc, 16, buf.Length);
    Put(buf, 0, Pack(argc));
    ws := ws + [argc];
    PutWord(buf[..], ws, vvecstart, 16, buf.Length);
    Put(buf, 4, Pack(vvecstart));
    ws := ws + [vvecstart];
    PutWord(buf[..], ws, vvecstart + (argc + 1) * 4, 16, buf.Length);
    Put(buf, 8, Pack(vvecstart + (argc + 1) * 4));
    ws := ws + [vvecstart + (argc + 1) * 4];
    PutWord(buf[..], ws, vvecstart + (argc + 1 + envc + 1) * 4, 16, buf.Length);
    Put(buf, 12, Pack(vvecstart + (argc + 1 + envc + 1) * 4));
    ws := ws + [vvecstart + (argc + 1 + envc + 1) * 4];
    assert ws == Header(argc, envc, low);
  }

  lemma AuxEnd(b0: seq<Byte>, b: seq<Byte>, ws: seq<Word>, low: nat, at: nat, end: nat, auxv: seq<Aux>, phtsize: nat)
    requires AuxCopied(b0, b, ws, low, at, end, auxv, |auxv|, phtsize)
             && 4 * (|ws| + 2 * |auxv|) + 8 <= at <= end <= |b0|
    ensures var b' := Over(b, 4 * (|ws| + 2 * |auxv|), Pack(0));
            && |b'| == |b0| && Begins(b', ws + AuxWords(Placed(auxv, low + end)) + [0]) && b'[at..end] == b0[at..end]
            && (Tables(auxv) > 0 ==> end + phtsize <= |b'| && b'[end..end + phtsize] == LastTable(auxv))
  {
    hide Begins, Over, Pack, AuxWords, Placed, Tables, LastTable;
    assert auxv[..|auxv|] == auxv;
    PlacedLength(auxv, low + end);
    PutWord(b, ws + AuxWords(Placed(auxv, low + end)), 0, at, end);
    OverLength(b, 4 * (|ws| + 2 * |auxv|), Pack(0));
    var b' := Over(b, 4 * (|ws| + 2 * |auxv|), Pack(0));
    if Tables(auxv) > 0 {
      assert b'[end..end + phtsize] == b'[end..][..phtsize] && b[end..end + phtsize] == b[end..][..phtsize];
    }
  }

  lemma VectorsAt(ws: seq<Word>, pa: seq<Word>, pe: seq<Word>, aw: seq<Word>)
    ensures var all := ws + pa + [0] + pe + [0] + aw + [0];
            var k1, k2, k3 := |ws|, |ws| + |pa| + 1, |ws| + |pa| + 1 + |pe| + 1;
            && |all| == k3 + |aw| + 1 && all[..k1] == ws
            && all[k1..k1 + |pa|] == pa && all[k1 + |pa|] == 0
            && all[k2..k2 + |pe|] == pe && all[k2 + |pe|] == 0
            && all[k3..k3 + |aw|] == aw && all[k3 + |aw|] == 0
  {
  }

  lemma HeaderAt(b: seq<Byte>, all: seq<Word>, argc: nat, envc: nat, low: nat)
    requires low + 16 + 4 * (argc + envc + 2) < 0x1_0000_0000
    requires Begins(b, all) && |all| >= 4 && all[..4] == Header(argc, envc, low)
    ensures |b| >= 16 && ReadWord(b, 0) == argc && ReadWord(b, 4) == low + 16
    ensures ReadWord(b, 8) == low + 4 * (4 + argc + 1) && ReadWord(b, 12) == low + 4 * (4 + argc + 1 + envc + 1)
  {
    hide Begins, ReadWord;
    WordOf(b, all, 0);
    WordOf(b, all, 1);
    WordOf(b, all, 2);
    WordOf(b, all, 3);
    var h := all[..4];
    assert all[0] == h[0] && all[1] == h[1] && all[2] == h[2] && all[3] == h[3];
  }

  lemma BothStrings(b: seq<Byte>, at: nat, argv: seq<Str>, envp: seq<Str>)
    requires at + |Strings(argv)| + |Strings(envp)| <= |b|
    requires b[at..at + |Strings(argv)| + |Strings(envp)|] == Strings(argv) + Strings(envp)
    ensures b[at..at + |Strings(argv)|] == Strings(argv)
    ensures var str1 := at + |Strings(argv)|; b[str1..str1 + |Strings(envp)|] == Strings(envp)
  {
    hide Strings;
    var x, y := Strings(argv), Strings(envp);
    var r := b[at..at + |x| + |y|];
    assert b[at..at + |x|] == r[..|x|] && b[at + |x|..at + |x| + |y|] == r[|x|..];
  }

  /** The words of header and vectors, the strings and the table make an image that decodes. */
  lemma ImageDecodes(b: seq<Byte>, low: nat, at: nat, str1: nat, end: nat, argv: seq<Str>, envp: seq<Str>,
                     auxv: seq<Aux>, phtsize: nat)
    requires 0 < low && low + |b| < 0x1_0000_0000 && at == 4 * VectorWords(|argv|, |envp|, |auxv|)
    requires str1 == at + |Strings(argv)| && end == str1 + |Strings(envp)| && end <= |b|
    requires IsWords(Pointers(argv, low + at)) && IsWords(Pointers(envp, low + str1))
    requires Begins(b, Header(|argv|, |envp|, low) + Pointers(argv, low + at) + [0] + Pointers(envp, low + str1) + [0]
                       + AuxWords(Placed(auxv, low + end)) + [0])
    requires b[at..end] == Strings(argv) + Strings(envp)
    requires Tables(auxv) > 0 ==> end + phtsize <= |b| && b[end..end + phtsize] == LastTable(auxv)
    requires forall i :: 0 <= i < |auxv| ==> auxv[i].kind != AT_NULL
    ensures Decodes(b, low, argv, envp, auxv, low + end, phtsize)
  {
    hide Begins, Strings, Pointers, AuxWords, Placed, Tables, LastTable, ReadWord, ReadVector, ReadAux, Header;
    var ws, ps := Header(|argv|, |envp|, low), Placed(auxv, low + end);
    var pa: seq<Word>, pe: seq<Word>, aw := Pointers(argv, low + at), Pointers(envp, low + str1), AuxWords(ps);
    var all := ws + pa + [0] + pe + [0] + aw + [0];
    PointersLength(argv, low + at);
    PointersLength(envp, low + str1);
    PlacedLength(auxv, low + end);
    PlacedKinds(auxv, low + end);
    VectorsAt(ws, pa, pe, aw);
    HeaderAt(b, all, |argv|, |envp|, low);
    BothStrings(b, at, argv, envp);
    DecodeParts(b, all, low, at, argv, envp, ps);
  }

  lemma DecodeParts(b: seq<Byte>, all: seq<Word>, low: nat, at: nat, argv: seq<Str>, envp: seq<Str>,
                    ps: seq<(Word, Word)>)
    requires low > 0 && Begins(b, all) && at + |Strings(argv)| + |Strings(envp)| <= |b|
             && at == 4 * VectorWords(|argv|, |envp|, |ps|)
    requires var k2, k3 := 4 + |argv| + 1, 4 + |argv| + 1 + |envp| + 1;
             && |all| == k3 + 2 * |ps| + 1 && |AuxWords(ps)| == 2 * |ps|
             && all[4..4 + |argv|] == Pointers(argv, low + at) && all[4 + |argv|] == 0
             && all[k2..k2 + |envp|] == Pointers(envp, low + at + |Strings(argv)|) && all[k2 + |envp|] == 0
             && all[k3..k3 + 2 * |ps|] == AuxWords(ps) && all[k3 + 2 * |ps|] == 0
    requires b[at..at + |Strings(argv)|] == Strings(argv)
    requires var str1 := at + |Strings(argv)|; b[str1..str1 + |Strings(envp)|] == Strings(envp)
    requires forall j :: 0 <= j < |ps| ==> ps[j].0 != AT_NULL
    ensures ReadVector(b, low, 16) == argv
    ensures ReadVector(b, low, 4 * (4 + |argv| + 1)) == envp
    ensures ReadAux(b, 4 * (4 + |argv| + 1 + |envp| + 1)) == ps
  {
    hide Begins, Strings, Pointers, AuxWords, ReadWord, ReadVector, ReadAux;
    var k2, k3 := 4 + |argv| + 1, 4 + |argv| + 1 + |envp| + 1;
    ReadVectorAt(b, all, low, 4, argv, at, 0);
    ReadVectorAt(b, all, low, k2, envp, at + |Strings(argv)|, 0);
    ReadAuxAt(b, all, k3, ps, 0);
    assert argv[0..] == argv && envp[0..] == envp && ps[0..] == ps;
  }

  lemma {:induction false} PlacedKinds(auxv: seq<Aux>, table: Word)
    requires forall i :: 0 <= i < |auxv| ==> auxv[i].kind != AT_NULL
    ensures |Placed(auxv, table)| == |auxv| && forall j :: 0 <= j < |auxv| ==> Placed(auxv, table)[j].0 != AT_NULL
  {
    if auxv != [] { PlacedKinds(auxv[..|auxv| - 1], table); }
  }

  lemma SizeFacts(argv: seq<Str>, envp: seq<Str>, auxv: seq<Aux>, phtsize: nat)
    ensures var end := 4 * VectorWords(|argv|, |envp|, |auxv|) + |Strings(argv)| + |Strings(envp)|;
            end <= ArgSize(argv, envp, auxv, phtsize)
                && (Tables(auxv) > 0 ==> end + phtsize <= ArgSize(argv, envp, auxv, phtsize))
  {
    hide Strings, Tables;
    if Tables(auxv) > 0 { MulMono(1, Tables(auxv), phtsize); }
  }

  lemma BeginsNone(b: seq<Byte>)
    ensures Begins(b, [])
  {
  }
}
