/** Line moves of user/bin/ed.c: `reverse`, `move` and `append` on the array of line pointers.

    Slot 0 of the array is the place before the first line; lines are in slots 1 to `dol`.  A line
    pointer is an index into the temporary file, which here is the sequence of lines written. */
module EdLines {

  function Rev(s: seq<int>): seq<int> {
    if s == [] then [] else Rev(s[1..]) + [s[0]]
  }

  lemma {:induction false} RevAt(s: seq<int>, k: nat)
    requires k < |s|
    ensures |Rev(s)| == |s| && Rev(s)[k] == s[|s| - 1 - k]
  {
    if |s| > 1 { RevAt(s[1..], if k < |s| - 1 then k else 0); }
  }

  lemma {:induction false} RevConcat(s: seq<int>, t: seq<int>)
    ensures Rev(s + t) == Rev(t) + Rev(s)
  {
    if s == [] {
      assert s + t == t;
    } else {
      RevConcat(s[1..], t);
      assert (s + t)[1..] == s[1..] + t;
    }
  }

  lemma {:induction false} RevRev(s: seq<int>)
    ensures Rev(Rev(s)) == s
  {
    if s != [] {
      RevRev(s[1..]);
      RevConcat(Rev(s[1..]), [s[0]]);
      assert Rev([s[0]]) == [s[0]] by { assert [s[0]][1..] == []; }
    }
  }

  /** Reversing two neighbouring blocks and then both together exchanges them. */
  lemma ThreeReversals(s: seq<int>, t: seq<int>)
    ensures Rev(Rev(s) + Rev(t)) == t + s
  {
    RevConcat(Rev(s), Rev(t));
    RevRev(s);
    RevRev(t);
  }

  /** `s` with the block between `lo` and `hi` taken out. */
  function Removed(s: seq<int>, lo: nat, hi: nat): seq<int>
    requires lo <= hi <= |s|
  {
    s[..lo] + s[hi..]
  }

  function Inserted(s: seq<int>, at: nat, block: seq<int>): seq<int>
    requires at <= |s|
  {
    s[..at] + block + s[at..]
  }

  function PartReversed(s: seq<int>, lo: nat, hi: nat): (t: seq<int>)
    requires lo <= hi <= |s|
    ensures |t| == |s|
  {
    RevLength(s[lo..hi]);
    s[..lo] + Rev(s[lo..hi]) + s[hi..]
  }

  lemma RevLength(s: seq<int>)
    ensures |Rev(s)| == |s|
  {
    if s != [] { RevAt(s, 0); }
  }

  /** A part of a concatenation is reversed by reversing that part. */
  lemma ReversePart(p: seq<int>, q: seq<int>, r: seq<int>)
    ensures PartReversed(p + q + r, |p|, |p| + |q|) == p + Rev(q) + r
  {
    var s := p + q + r;
    assert s[..|p|] == p && s[|p|..|p| + |q|] == q && s[|p| + |q|..] == r;
  }

  /** Three reversals exchange two neighbouring blocks. */
  lemma ExchangeByReversal(h: seq<int>, p: seq<int>, q: seq<int>, r: seq<int>)
    ensures var x, y, z := |h|, |h| + |p|, |h| + |p| + |q|;
            PartReversed(PartReversed(PartReversed(h + p + q + r, x, y), y, z), x, z) == h + q + p + r
  {
    RevLength(p);
    RevLength(q);
    hide PartReversed, Rev;
    assert h + p + q + r == h + p + (q + r);
    ReversePart(h, p, q + r);
    assert h + Rev(p) + (q + r) == (h + Rev(p)) + q + r;
    ReversePart(h + Rev(p), q, r);
    assert (h + Rev(p)) + Rev(q) + r == h + (Rev(p) + Rev(q)) + r;
    ReversePart(h, Rev(p) + Rev(q), r);
    ThreeReversals(p, q);
    assert h + (q + p) + r == h + q + p + r;
  }

  /** `s` with its block from `lo` up to `hi` taken out and put behind slot `t` outside it. */
  function Moved(s: seq<int>, lo: nat, hi: nat, t: nat): seq<int>
    requires lo <= hi <= |s| && t < |s| && (t < lo || hi <= t)
  {
    Inserted(Removed(s, lo, hi), if t < lo then t + 1 else t + 1 - (hi - lo), s[lo..hi])
  }

  /** `reverse`: the lines from `lo` up to but not including `hi` end up in the opposite order. */
  method Reverse(a: array<int>, lo: nat, hi: nat)
    requires 1 <= lo <= hi <= a.Length
    modifies a
    ensures a[..] == PartReversed(old(a[..]), lo, hi)
  {
    ghost var s := a[..];
    var a1, a2 := lo, hi;
    while true
      invariant lo <= a1 <= a2 + 1 && a2 <= hi && a1 - lo == hi - a2
      invariant forall k :: 0 <= k < a.Length && !(lo <= k < a1 || a2 <= k < hi) ==> a[k] == s[k]
      invariant forall k :: lo <= k < a1 || a2 <= k < hi ==> a[k] == s[lo + hi - 1 - k]
      decreases a2
    {
      a2 := a2 - 1;
      var t := a[a2];
      if a2 <= a1 {
        break;
      }
      a[a2] := a[a1];
      a[a1] := t;
      a1 := a1 + 1;
    }
    ReversedPointwise(s, a[..], lo, hi);
  }

  lemma ReversedPointwise(s: seq<int>, t: seq<int>, lo: nat, hi: nat)
    requires |t| == |s| && lo <= hi <= |s|
    requires forall k :: 0 <= k < |s| && !(lo <= k < hi) ==> t[k] == s[k]
    requires forall k :: lo <= k < hi ==> t[k] == s[lo + hi - 1 - k]
    ensures t == PartReversed(s, lo, hi)
  {
    var r := PartReversed(s, lo, hi);
    RevLength(s[lo..hi]);
    forall k | 0 <= k < |s|
      ensures t[k] == r[k]
    {
      if lo <= k < hi { RevAt(s[lo..hi], k - lo); }
    }
  }

  ghost predicate InFile(tfile: seq<string>, s: seq<int>, dol: nat) {
    dol < |s| && forall k :: 1 <= k <= dol ==> 0 <= s[k] < |tfile|
  }

  /** The lines that the pointers in slots 1 to `dol` stand for. */
  function Lines(tfile: seq<string>, s: seq<int>, dol: nat): seq<string>
    requires InFile(tfile, s, dol)
  {
    seq(dol, k requires 0 <= k < dol => tfile[s[k + 1]])
  }

  lemma SwappedAt(s: seq<int>, x: nat, y: nat, z: nat, k: nat)
    requires x <= y <= z <= |s| && k < |s|
    ensures |Swapped(s, x, y, z)| == |s|
    ensures Swapped(s, x, y, z)[k] ==
            if x <= k < x + (z - y) then s[y + (k - x)] else if x + (z - y) <= k < z then s[k - (z - y)] else s[k]
  {
  }

  /** Exchanging a duplicate of a block, written at the end, with what follows slot `adt` inserts
      the duplicate behind `adt`. */
  lemma CopyText(tfile0: seq<string>, s0: seq<int>, dol0: nat, tfile: seq<string>, s: seq<int>, dol: nat,
                 addr1: nat, addr2: nat, adt: nat)
    requires InFile(tfile0, s0, dol0) && InFile(tfile, s, dol) && tfile0 <= tfile && |s| == |s0|
    requires 1 <= addr1 <= addr2 <= dol0 && adt <= dol0 && dol == dol0 + (addr2 - addr1 + 1)
    requires forall k :: 0 <= k <= dol0 ==> s[k] == s0[k]
    requires forall k :: dol0 < k <= dol ==> tfile[s[k]] == tfile0[s0[k - dol0 - 1 + addr1]]
    requires InFile(tfile, Swapped(s, adt + 1, dol0 + 1, dol + 1), dol)
    ensures var t, l := Swapped(s, adt + 1, dol0 + 1, dol + 1), Lines(tfile0, s0, dol0);
            Lines(tfile, t, dol) == l[..adt] + l[addr1 - 1..addr2] + l[adt..]
  {
    hide Lines, Swapped;
    var t, l, n := Swapped(s, adt + 1, dol0 + 1, dol + 1), Lines(tfile0, s0, dol0), addr2 - addr1 + 1;
    LinesAt(tfile0, s0, dol0);
    LinesAt(tfile, t, dol);
    var a, b, c := l[..adt], l[addr1 - 1..addr2], l[adt..];
    forall k | 0 <= k < dol
      ensures Lines(tfile, t, dol)[k] == (a + b + c)[k]
    {
      SwappedAt(s, adt + 1, dol0 + 1, dol + 1, k + 1);
      if k < adt {
        assert t[k + 1] == s[k + 1] == s0[k + 1] && (a + b + c)[k] == l[k];
      } else if k < adt + n {
        assert t[k + 1] == s[dol0 + 1 + (k - adt)] && (a + b + c)[k] == b[k - adt] == l[addr1 - 1 + (k - adt)];
      } else {
        assert t[k + 1] == s[k + 1 - n] == s0[k + 1 - n] && (a + b + c)[k] == c[k - n - adt] == l[k - n];
      }
    }
  }

  lemma LinesAt(tfile: seq<string>, s: seq<int>, dol: nat)
    requires InFile(tfile, s, dol)
    ensures |Lines(tfile, s, dol)| == dol && forall k :: 0 <= k < dol ==> Lines(tfile, s, dol)[k] == tfile[s[k + 1]]
  {
  }

  class Editor {
    var core: array<int>
    var dol: nat
    var dot: nat
    var tfile: seq<string>

    /** Every line pointer points to a line in the temporary file. */
    ghost predicate Valid()
      reads this, core
    {
      dot <= dol && InFile(tfile, core[..], dol)
    }

    /** The text in the buffer. */
    ghost function Text(): seq<string>
      requires Valid()
      reads this, core
    {
      Lines(tfile, core[..], dol)
    }

    /** The end of `move`: the block in slots `ad1` up to `ad2` goes behind slot `adt`, which lies
        outside it, by three reversals; `dot` becomes its last line. */
    method Exchange(ad1: nat, ad2: nat, adt: nat)
      requires Valid() && 1 <= ad1 < ad2 <= dol + 1 && adt <= dol && (adt < ad1 || ad2 <= adt)
      modifies this`dot, core
      ensures Valid()
      ensures core[..] == Moved(old(core[..]), ad1, ad2, adt)
      ensures adt < ad1 ==> core[..] == Swapped(old(core[..]), adt + 1, ad1, ad2)
      ensures dot == if adt < ad1 then adt + (ad2 - ad1) else adt
    {
      hide Swapped, Removed, Inserted;
      ghost var s := core[..];
      if adt < ad1 {
        dot := adt + (ad2 - ad1);
        SwapDown(s, adt + 1, ad1, ad2);
        InsertedMembers(s, ad1, ad2, adt + 1, dol, |tfile|);
        if adt + 1 == ad1 {
          return;
        }
        Exchanged(core, adt + 1, ad1, ad2);
      } else {
        dot := adt;
        SwapUp(s, ad1, ad2, adt + 1);
        InsertedMembers(s, ad1, ad2, adt + 1 - (ad2 - ad1), dol, |tfile|);
        Exchanged(core, ad1, ad2, adt + 1);
      }
    }
  
    /** One turn of `append`: a line is written to the temporary file and its pointer inserted
        behind `dot`, which moves on to it. */
    method AppendLine(line: string)
      requires Valid() && dol + 1 < core.Length
      modifies this`dol, this`dot, this`tfile, core
      ensures Valid() && dol == old(dol) + 1 && dot == old(dot) + 1 && tfile == old(tfile) + [line]
      ensures forall k :: 0 <= k < dot ==> core[k] == old(core[k])
      ensures core[dot] == |old(tfile)|
      ensures forall k :: dot < k <= dol ==> core[k] == old(core[k - 1])
    {
      ghost var s := core[..];
      var tl := |tfile|;
      tfile := tfile + [line];
      dol := dol + 1;
      var a1, a2 := dol, dol + 1;
      dot := dot + 1;
      while a1 > dot
        modifies core
        invariant dot <= a1 <= dol && a2 == a1 + 1
        invariant forall k :: 0 <= k < core.Length && !(a1 < k <= dol) ==> core[k] == s[k]
        invariant forall k :: a1 < k <= dol ==> core[k] == s[k - 1]
      {
        a2, a1 := a2 - 1, a1 - 1;
        core[a2] := core[a1];
      }
      core[dot] := tl;
    }

    /** `append(getcopy, dol)`: the lines `addr1` to `addr2` are written once more, at the end. */
    method CopyLines(addr1: nat, addr2: nat)
      requires Valid() && 1 <= addr1 <= addr2 <= dol && dol + (addr2 - addr1) + 1 < core.Length
      modifies this`dol, this`dot, this`tfile, core
      ensures Valid() && dol == old(dol) + (addr2 - addr1 + 1) && old(tfile) <= tfile
      ensures forall k :: 0 <= k <= old(dol) ==> core[k] == old(core[k])
      ensures forall k :: old(dol) < k <= dol ==> tfile[core[k]] == old(tfile[core[k - dol - 1 + addr1]])
    {
      dot := dol;
      ghost var d := dol;
      var a := addr1;
      while a <= addr2
        invariant addr1 <= a <= addr2 + 1 && Valid() && dot == dol == d + (a - addr1) && old(tfile) <= tfile
        invariant forall k :: 0 <= k <= d ==> core[k] == old(core[k])
        invariant forall k :: d < k <= dol ==> tfile[core[k]] == old(tfile[core[k - dol - 1 + addr1]])
      {
        AppendLine(tfile[core[a]]);
        a := a + 1;
      }
    }

    /** `move`.  Without copying, the block goes behind `adt` unless `adt` lies inside it, which is
        an error that changes nothing; with copying, a duplicate of the block is inserted there and
        the original stays.  `dot` becomes the last line of the block in its new place. */
    method Move(addr1: nat, addr2: nat, adt: nat, copying: bool) returns (ok: bool)
      requires Valid() && 1 <= addr1 <= addr2 <= dol && adt <= dol
      requires copying ==> dol + (addr2 - addr1) + 1 < core.Length
      modifies this`dol, this`dot, this`tfile, core
      ensures Valid()
      ensures ok <==> copying || !(addr1 <= adt <= addr2)
      ensures !ok ==> core[..] == old(core[..]) && dot == old(dot) && dol == old(dol)
      ensures ok && !copying ==>
                && core[..] == Moved(old(core[..]), addr1, addr2 + 1, adt)
                && dot == (if adt < addr1 then adt + (addr2 - addr1 + 1) else adt)
                && dol == old(dol) && tfile == old(tfile)
      ensures ok && copying ==>
                && Text() == old(Text())[..adt] + old(Text())[addr1 - 1..addr2] + old(Text())[adt..]
                && dot == adt + (addr2 - addr1 + 1)
    {
      hide Moved, Swapped, Lines;
      var ad1, ad2 := addr1, addr2 + 1;
      if copying {
        ad1 := dol + 1;
        CopyLines(addr1, addr2);
        ad2 := dol + 1;
      }
      if ad1 <= adt < ad2 {
        return false;
      }
      ghost var s := core[..];
      Exchange(ad1, ad2, adt);
      if copying {
        CopyText(old(tfile), old(core[..]), old(dol), tfile, s, dol, addr1, addr2, adt);
      }
      return true;
    }
  }

  /** Three reversals exchange the blocks [x, y) and [y, z). */
  method Exchanged(a: array<int>, x: nat, y: nat, z: nat)
    requires 1 <= x <= y <= z <= a.Length
    modifies a
    ensures a[..] == Swapped(old(a[..]), x, y, z)
  {
    hide PartReversed;
    ghost var s := a[..];
    Reverse(a, x, y);
    Reverse(a, y, z);
    Reverse(a, x, z);
    assert s == s[..x] + s[x..y] + s[y..z] + s[z..];
    ExchangeByReversal(s[..x], s[x..y], s[y..z], s[z..]);
  }

  /** The blocks [x, y) and [y, z) in each other's place. */
  function Swapped(s: seq<int>, x: nat, y: nat, z: nat): seq<int>
    requires x <= y <= z <= |s|
  {
    s[..x] + s[y..z] + s[x..y] + s[z..]
  }

  lemma SwapDown(s: seq<int>, x: nat, y: nat, z: nat)
    requires x <= y <= z <= |s|
    ensures Swapped(s, x, y, z) == Inserted(Removed(s, y, z), x, s[y..z])
    ensures x == y ==> Swapped(s, x, y, z) == s
  {
  }

  lemma SwapUp(s: seq<int>, x: nat, y: nat, z: nat)
    requires x <= y <= z <= |s|
    ensures Swapped(s, x, y, z) == Inserted(Removed(s, x, y), z - (y - x), s[x..y])
  {
  }

  lemma InsertedMembers(s: seq<int>, lo: nat, hi: nat, at: nat, dol: nat, bound: nat)
    requires 1 <= lo <= hi <= dol + 1 <= |s| && 1 <= at && at + (hi - lo) <= dol + 1
    requires forall k :: 1 <= k <= dol ==> 0 <= s[k] < bound
    ensures var t := Inserted(Removed(s, lo, hi), at, s[lo..hi]);
            |t| == |s| && forall k :: 1 <= k <= dol ==> 0 <= t[k] < bound
  {
    var r, part := Removed(s, lo, hi), s[lo..hi];
    var t := Inserted(r, at, part);
    assert |t| == |s|;
    forall k | 1 <= k <= dol
      ensures 0 <= t[k] < bound
    {
      var i := if k < at then k else if k < at + |part| then lo + (k - at) else k - |part|;
      if k < at || k >= at + |part| {
        assert t[k] == r[i] && r[i] == if i < lo then s[i] else s[i + (hi - lo)];
      } else {
        assert t[k] == part[k - at] == s[i];
      }
    }
  }
}
