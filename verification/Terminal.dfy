/** The virtual terminal's scroll buffer (kernel/drivers/tty/virtterm.c): a ring of 125 rows of 80
    characters, against a terminal that never forgets a row. */
module Terminal {
  const WIDTH: nat := 80
  const DISPLAY: nat := 2000
  const BUFSIZE: nat := 10000
  const BACKSPACE: char := '\U{8}'

  // ----- a terminal that forgets nothing -----

  /** All rows written so far, the last one included, and the cursor in them. */
  datatype Text = Text(rows: seq<char>, cursor: nat)

  ghost predicate Whole(u: Text) {
    |u.rows| % WIDTH == 0 && u.cursor < |u.rows|
  }

  function RowAfter(p: nat): nat {
    (p / WIDTH + 1) * WIDTH
  }

  function EmptyRow(): seq<char> {
    seq(WIDTH, _ => '\0')
  }

  /** The cursor moves on to `p`, and a row is added when that is past the last one. */
  function Advance(u: Text, p: nat): Text {
    Text(if p >= |u.rows| then u.rows + EmptyRow() else u.rows, p)
  }

  /** One character; the cursor does not go back before `floor`. */
  function Feed(u: Text, c: char, floor: nat): Text
    requires Whole(u)
  {
    if c == BACKSPACE then if u.cursor == floor || u.cursor == 0 then u else u.(cursor := u.cursor - 1)
    else if c == '\r' then u.(cursor := u.cursor / WIDTH * WIDTH)
    else if c == '\n' then Advance(u, RowAfter(u.cursor))
    else Advance(u.(rows := u.rows[u.cursor := c]), u.cursor + 1)
  }

  /** The first position that the ring still holds. */
  function Kept(u: Text): nat {
    if |u.rows| <= BUFSIZE - WIDTH then 0 else |u.rows| - (BUFSIZE - WIDTH)
  }

  /** The ring loses nothing by the rows it drops, except when a backspace would go into one. */
  lemma FloorMatters(u: Text, c: char)
    requires Whole(u) && Kept(u) <= u.cursor
    ensures Feed(u, c, Kept(u)) == Feed(u, c, 0) <==> !(c == BACKSPACE && u.cursor == Kept(u) > 0)
  {
  }

  lemma FeedWhole(u: Text, c: char, floor: nat)
    requires Whole(u)
    ensures Whole(Feed(u, c, floor)) && |u.rows| <= |Feed(u, c, floor).rows| <= |u.rows| + WIDTH
  {
    AdvanceRows(u.rows, u.cursor);
  }

  lemma AdvanceRows(rows: seq<char>, cursor: nat)
    requires |rows| % WIDTH == 0 && cursor < |rows|
    ensures cursor < RowAfter(cursor) <= |rows| && cursor / WIDTH * WIDTH <= cursor
    ensures |rows + EmptyRow()| % WIDTH == 0
  {
    RowBound(cursor, |rows|);
  }

  lemma RowBound(p: int, n: int)
    requires 0 <= p < n && n % WIDTH == 0
    ensures p < (p / WIDTH + 1) * WIDTH <= n
  {
    var k := n / WIDTH;
    assert n == k * WIDTH;
    assert p / WIDTH < k;
  }

  // ----- the ring -----

  function CircDist(to: nat, from: nat): int {
    (to - from + BUFSIZE) % BUFSIZE
  }

  function NextRow(i: nat): nat {
    (i / WIDTH + 1) * WIDTH % BUFSIZE
  }

  function BufAdd(p: nat, amount: int): (r: nat)
    ensures r < BUFSIZE
  {
    (p + amount + BUFSIZE) % BUFSIZE
  }

  /** Where a position of the text is in the ring. */
  function Ring(p: nat): (r: nat)
    ensures r < BUFSIZE
  {
    p % BUFSIZE
  }

  /** The ring holds the last rows of `u`: as many as there are, but at most 124. */
  ghost predicate Shows(head: nat, tail: nat, cursor: nat, buf: seq<char>, u: Text) {
    && |buf| == BUFSIZE && Whole(u) && Kept(u) <= u.cursor
    && head == Ring(Kept(u)) && tail == Ring(|u.rows|) && cursor == Ring(u.cursor)
    && Held(buf, u.rows, Kept(u))
  }

  /** The ring has the rows from position `k` on. */
  ghost predicate Held(buf: seq<char>, rows: seq<char>, k: nat)
    requires |buf| == BUFSIZE
  {
    forall p :: k <= p < |rows| ==> HeldAt(buf, rows, p)
  }

  ghost predicate HeldAt(buf: seq<char>, rows: seq<char>, p: nat)
    requires |buf| == BUFSIZE && p < |rows|
  {
    buf[Ring(p)] == rows[p]
  }

  /** Head and tail begin rows, and the cursor is in the circular range between them. */
  lemma RingInOrder(head: nat, tail: nat, cursor: nat, buf: seq<char>, u: Text)
    requires Shows(head, tail, cursor, buf, u)
    ensures head % WIDTH == 0 && tail % WIDTH == 0 && head < BUFSIZE && tail < BUFSIZE && cursor < BUFSIZE
    ensures CircDist(cursor, head) < CircDist(tail, head) <= BUFSIZE - WIDTH
  {
    var k := Kept(u);
    DistOf(u.cursor, k);
    DistOf(|u.rows|, k);
    ModRow(k);
    ModRow(|u.rows|);
  }

  lemma ModRow(p: nat)
    ensures p % WIDTH == 0 ==> Ring(p) % WIDTH == 0
  {
    var q, r := p / BUFSIZE, p % BUFSIZE;
    assert p == q * BUFSIZE + r;
    assert q * BUFSIZE == q * 125 * WIDTH;
    if p % WIDTH == 0 {
      assert r == (p / WIDTH - q * 125) * WIDTH;
      MulMod(p / WIDTH - q * 125);
    }
  }

  lemma MulMod(k: int)
    ensures k * WIDTH % WIDTH == 0
  {
  }

  /** Distances in the ring are those of the text. */
  lemma DistOf(a: nat, b: nat)
    requires b <= a < b + BUFSIZE
    ensures CircDist(Ring(a), Ring(b)) == a - b
  {
    var qa, qb := a / BUFSIZE, b / BUFSIZE;
    assert a == qa * BUFSIZE + a % BUFSIZE && b == qb * BUFSIZE + b % BUFSIZE;
    assert qa == qb || qa == qb + 1;
  }

  lemma NextRowOf(p: nat)
    ensures NextRow(Ring(p)) == Ring(RowAfter(p))
  {
    var q, r := p / BUFSIZE, p % BUFSIZE;
    assert p == q * BUFSIZE + r;
    assert p / WIDTH == q * 125 + r / WIDTH by { DivShift(q * 125, r); }
    assert RowAfter(p) == q * BUFSIZE + (r / WIDTH + 1) * WIDTH;
    AddMultiple((r / WIDTH + 1) * WIDTH, q);
  }

  lemma DivShift(k: int, r: int)
    requires r >= 0
    ensures (k * WIDTH + r) / WIDTH == k + r / WIDTH
  {
  }

  lemma AddMultiple(x: int, q: int)
    requires x >= 0 && q >= 0
    ensures (q * BUFSIZE + x) % BUFSIZE == x % BUFSIZE
  {
  }

  // ----- the steps -----

  lemma ModApart(p: nat, q: nat)
    requires p != q && p < q + BUFSIZE && q < p + BUFSIZE
    ensures Ring(p) != Ring(q)
  {
    var a, b := p / BUFSIZE, q / BUFSIZE;
    assert p == a * BUFSIZE + p % BUFSIZE && q == b * BUFSIZE + q % BUFSIZE;
  }

  /** A character at the cursor. */
  lemma PutShows(head: nat, tail: nat, cursor: nat, buf: seq<char>, u: Text, c: char)
    requires Shows(head, tail, cursor, buf, u)
    ensures cursor < BUFSIZE && Shows(head, tail, cursor, buf[cursor := c], u.(rows := u.rows[u.cursor := c]))
  {
    var buf', rows' := buf[cursor := c], u.rows[u.cursor := c];
    forall p | Kept(u) <= p < |rows'|
      ensures HeldAt(buf', rows', p)
    {
      assert HeldAt(buf, u.rows, p);
      if p != u.cursor { ModApart(p, u.cursor); }
    }
  }

  lemma MoveShows(head: nat, tail: nat, cursor: nat, buf: seq<char>, u: Text, p: nat)
    requires Shows(head, tail, cursor, buf, u) && Kept(u) <= p < |u.rows|
    ensures Shows(head, tail, Ring(p), buf, u.(cursor := p))
  {
    var u' := u.(cursor := p);
    forall q | Kept(u') <= q < |u'.rows|
      ensures HeldAt(buf, u'.rows, q)
    {
      assert HeldAt(buf, u.rows, q);
    }
  }

  /** Where the row after the last one is. */
  lemma NewRow(t: nat, j: nat)
    requires t % WIDTH == 0 && j < WIDTH
    ensures Ring(t) + WIDTH <= BUFSIZE && Ring(t + WIDTH) == Ring(Ring(t) + WIDTH)
    ensures Ring(t + j) == Ring(t) + j
    ensures RowAfter(t) == t + WIDTH
  {
    ModRow(t);
    var q, r := t / BUFSIZE, t % BUFSIZE;
    assert t == q * BUFSIZE + r;
    RowsLeft(r);
    AddMultiple(r + j, q);
    AddMultiple(r + WIDTH, q);
  }

  lemma RowsLeft(r: nat)
    requires r < BUFSIZE && r % WIDTH == 0
    ensures r + WIDTH <= BUFSIZE
  {
    assert r == r / WIDTH * WIDTH;
    assert r / WIDTH < 125;
  }

  function Cleared(buf: seq<char>, tail: nat): seq<char>
    requires |buf| == BUFSIZE && tail + WIDTH <= BUFSIZE
  {
    buf[..tail] + EmptyRow() + buf[tail + WIDTH..]
  }

  /** The head moves, by one row, exactly when the new row would reach it. */
  lemma NewHead(u: Text)
    requires Whole(u)
    ensures var t := |u.rows|;
            var head, tail, newTail := Ring(Kept(u)), Ring(t), Ring(t + WIDTH);
            Ring(Kept(Advance(u, t))) ==
                  if CircDist(tail, head) >= CircDist(tail, newTail) then NextRow(newTail) else head
  {
    RowAfterRow(|u.rows| + WIDTH);
    RowsGap(|u.rows|);
    NewHeadAt(u, |u.rows|);
  }

  lemma RowsGap(t: nat)
    requires t % WIDTH == 0
    ensures t <= BUFSIZE - 2 * WIDTH || t >= BUFSIZE - WIDTH
  {
    assert t == t / WIDTH * WIDTH;
  }

  lemma NewHeadAt(u: Text, t: nat)
    requires t == |u.rows| && RowAfter(t + WIDTH) == t + 2 * WIDTH && (t <= BUFSIZE - 2 * WIDTH || t >= BUFSIZE - WIDTH)
    ensures var head, tail, newTail := Ring(Kept(u)), Ring(t), Ring(t + WIDTH);
            Ring(Kept(Advance(u, t))) ==
                  if CircDist(tail, head) >= CircDist(tail, newTail) then NextRow(newTail) else head
  {
    hide CircDist, NextRow, RowAfter, Ring;
    DistOf(t, Kept(u));
    DistOf(t + BUFSIZE, t + WIDTH);
    RingTurn(t);
    NextRowOf(t + WIDTH);
    if t >= BUFSIZE - WIDTH { RingTurn(t + 2 * WIDTH - BUFSIZE); }
  }

  lemma RingTurn(p: nat)
    ensures Ring(p + BUFSIZE) == Ring(p)
  {
  }

  lemma RowAfterRow(p: nat)
    ensures p % WIDTH == 0 ==> RowAfter(p) == p + WIDTH
  {
  }

  /** A new row below the last one, with the cursor at its beginning. */
  lemma GrowShows(head: nat, tail: nat, cursor: nat, buf: seq<char>, u: Text)
    requires Shows(head, tail, cursor, buf, u)
    ensures tail + WIDTH <= BUFSIZE
    ensures var u' := Advance(u, |u.rows|);
            Shows(Ring(Kept(u')), Ring(tail + WIDTH), tail, Cleared(buf, tail), u')
  {
    FeedWhole(u, '\n', 0);
    var u' := Advance(u, |u.rows|);
    assert Whole(u') && Kept(u') <= u'.cursor && Kept(u) <= Kept(u');
    hide Cleared, EmptyRow, Held, Ring, Whole;
    NewRow(|u.rows|, 0);
    ClearedLength(buf, tail);
    GrowHeld(buf, u.rows, Kept(u), Kept(Advance(u, |u.rows|)));
  }

  lemma GrowHeld(buf: seq<char>, rows: seq<char>, k: nat, k': nat)
    requires |buf| == BUFSIZE && |rows| % WIDTH == 0 && Held(buf, rows, k) && k <= k' && |rows| + WIDTH <= k' + BUFSIZE
    ensures Ring(|rows|) + WIDTH <= BUFSIZE && |Cleared(buf, Ring(|rows|))| == BUFSIZE
    ensures Held(Cleared(buf, Ring(|rows|)), rows + EmptyRow(), k')
  {
    hide Cleared, EmptyRow;
    NewRow(|rows|, 0);
    ClearedLength(buf, Ring(|rows|));
    forall p | k' <= p < |rows + EmptyRow()|
      ensures HeldAt(Cleared(buf, Ring(|rows|)), rows + EmptyRow(), p)
    {
      assert p < |rows| ==> HeldAt(buf, rows, p);
      HeldAfter(buf, rows, p);
    }
  }

  lemma ClearedLength(buf: seq<char>, tail: nat)
    requires |buf| == BUFSIZE && tail + WIDTH <= BUFSIZE
    ensures |Cleared(buf, tail)| == BUFSIZE && |EmptyRow()| == WIDTH
  {
  }

  lemma HeldAfter(buf: seq<char>, rows: seq<char>, p: nat)
    requires |buf| == BUFSIZE && |rows| % WIDTH == 0 && |rows| + WIDTH <= p + BUFSIZE && p < |rows| + WIDTH
    requires p < |rows| ==> HeldAt(buf, rows, p)
    ensures Ring(|rows|) + WIDTH <= BUFSIZE && HeldAt(Cleared(buf, Ring(|rows|)), rows + EmptyRow(), p)
  {
    var t := |rows|;
    NewRow(t, 0);
    if p < t {
      NotCleared(p, t);
    } else {
      NewRow(t, p - t);
    }
  }

  /** A kept position is not in the row that is cleared. */
  lemma NotCleared(p: nat, t: nat)
    requires p < t && t + WIDTH <= p + BUFSIZE && t % WIDTH == 0
    ensures Ring(p) < Ring(t) || Ring(p) >= Ring(t) + WIDTH
  {
    var a, b := p / BUFSIZE, t / BUFSIZE;
    assert p == a * BUFSIZE + p % BUFSIZE && t == b * BUFSIZE + t % BUFSIZE;
  }

  /** The whole stream on the terminal that forgets nothing. */
  ghost function FeedAll(u: Text, cs: seq<char>): (v: Text)
    requires Whole(u)
    ensures Whole(v)
  {
    if cs == [] then u
    else
      var v := FeedAll(u, cs[..|cs| - 1]);
      FeedWhole(v, cs[|cs| - 1], 0);
      Feed(v, cs[|cs| - 1], 0)
  }

  /** The whole stream on the one that goes back no further than the rows that the ring keeps. */
  ghost function FeedRing(u: Text, cs: seq<char>): (v: Text)
    requires Whole(u)
    ensures Whole(v)
  {
    if cs == [] then u
    else
      var v := FeedRing(u, cs[..|cs| - 1]);
      FeedWhole(v, cs[|cs| - 1], Kept(v));
      Feed(v, cs[|cs| - 1], Kept(v))
  }

  /** No backspace of the stream reaches a row that the ring has dropped. */
  ghost predicate WithinRing(u: Text, cs: seq<char>)
    requires Whole(u)
  {
    forall i :: 0 <= i < |cs| ==> Within(FeedAll(u, cs[..i]), cs[i])
  }

  ghost predicate Within(u: Text, c: char) {
    !(c == BACKSPACE && u.cursor == Kept(u) > 0)
  }

  lemma FeedKept(u: Text, c: char)
    requires Whole(u) && Kept(u) <= u.cursor
    ensures Whole(Feed(u, c, Kept(u))) && Kept(Feed(u, c, Kept(u))) <= Feed(u, c, Kept(u)).cursor
  {
    FeedWhole(u, c, Kept(u));
    KeptRow(u);
    if c == '\r' { RowStart(u.cursor, Kept(u)); }
    if c == '\n' { AdvanceRows(u.rows, u.cursor); }
  }

  lemma {:induction false} FeedRingKept(u: Text, cs: seq<char>)
    requires Whole(u) && Kept(u) <= u.cursor
    ensures Kept(FeedRing(u, cs)) <= FeedRing(u, cs).cursor
  {
    hide Feed, Kept, Whole;
    if cs != [] {
      FeedRingKept(u, cs[..|cs| - 1]);
      FeedKept(FeedRing(u, cs[..|cs| - 1]), cs[|cs| - 1]);
    }
  }

  /** Within the ring there is no difference. */
  lemma {:induction false} RingIsAll(u: Text, cs: seq<char>)
    requires Whole(u) && Kept(u) <= u.cursor && WithinRing(u, cs)
    ensures FeedRing(u, cs) == FeedAll(u, cs)
  {
    hide Feed, Kept, Whole, Within;
    if cs != [] {
      var front := cs[..|cs| - 1];
      forall i | 0 <= i < |front|
        ensures Within(FeedAll(u, front[..i]), front[i])
      {
        assert front[..i] == cs[..i];
        assert Within(FeedAll(u, cs[..i]), cs[i]);
      }
      RingIsAll(u, front);
      FeedRingKept(u, front);
      assert Within(FeedAll(u, cs[..|cs| - 1]), cs[|cs| - 1]);
      SameFloor(FeedRing(u, front), cs[|cs| - 1]);
    }
  }

  // ----- a stream that leaves the ring -----

  /** `k` newlines, then `b` backspaces. */
  ghost function Stream(k: nat, b: nat): seq<char> {
    seq(k + b, i => if i < k then '\n' else BACKSPACE)
  }

  /** What the stream does to a terminal with one empty row, while it does not go back to the start. */
  lemma {:induction false} StreamText(k: nat, b: nat)
    requires b <= k * WIDTH
    ensures var v := FeedAll(Text(EmptyRow(), 0), Stream(k, b));
            |v.rows| == (k + 1) * WIDTH && v.cursor == k * WIDTH - b
    decreases k + b
  {
    var u, cs := Text(EmptyRow(), 0), Stream(k, b);
    if b > 0 {
      assert cs[..|cs| - 1] == Stream(k, b - 1);
      StreamText(k, b - 1);
    } else if k > 0 {
      assert cs[..|cs| - 1] == Stream(k - 1, 0);
      StreamText(k - 1, 0);
      assert RowAfter((k - 1) * WIDTH) == k * WIDTH;
    }
  }

  /** 124 newlines drop the first row; so many backspaces go back to the second, and one more goes on
      to the row that the ring has no more. */
  lemma DroppedRow()
    ensures WithinRing(Text(EmptyRow(), 0), Stream(124, 9840))
    ensures var v := FeedAll(Text(EmptyRow(), 0), Stream(124, 9840));
            v.cursor == Kept(v) > 0 && Feed(v, BACKSPACE, Kept(v)) != Feed(v, BACKSPACE, 0)
    ensures var u, cs := Text(EmptyRow(), 0), Stream(124, 9840) + [BACKSPACE];
            FeedRing(u, cs) != FeedAll(u, cs)
  {
    var u, cs := Text(EmptyRow(), 0), Stream(124, 9840);
    forall i | 0 <= i < |cs|
      ensures Within(FeedAll(u, cs[..i]), cs[i])
    {
      if i >= 124 {
        assert cs[..i] == Stream(124, i - 124);
        StreamText(124, i - 124);
      }
    }
    StreamText(124, 9840);
    RingIsAll(u, cs);
    assert (cs + [BACKSPACE])[..|cs|] == cs;
  }

  class VirtTerm {
    var head: nat
    var tail: nat
    var top: nat
    var cursor: nat
    const buf: array<char>
    ghost var u: Text

    ghost predicate Valid()
      reads this, buf
    {
      buf.Length == BUFSIZE && Shows(head, tail, cursor, buf[..], u) && top < BUFSIZE && top % WIDTH == 0
    }

    /** `vt_init`, for one terminal: one empty row. */
    constructor ()
      ensures Valid() && fresh(buf) && u == Text(EmptyRow(), 0) && top == 0
    {
      head, tail, top, cursor := 0, WIDTH, 0, 0;
      buf := new char[BUFSIZE](_ => '\0');
      u := Text(EmptyRow(), 0);
      new;
      forall p | Kept(u) <= p < |u.rows|
        ensures HeldAt(buf[..], u.rows, p)
      {
      }
    }

    /** memset of part of the buffer. */
    method Clear(from: nat, to: nat)
      requires from <= to <= buf.Length
      modifies buf
      ensures forall i :: 0 <= i < buf.Length ==> buf[i] == if from <= i < to then '\0' else old(buf[i])
    {
      forall i | from <= i < to {
        buf[i] := '\0';
      }
    }

    /** `vt_handle_char`: the ring does what the text does, but for going back into dropped rows. */
    method HandleChar(c: char) returns (echo: bool)
      requires Valid()
      modifies this, buf
      ensures Valid() && top == old(top) && Whole(old(u)) && u == Feed(old(u), c, Kept(old(u)))
      ensures echo <==> c != BACKSPACE && c != '\r' && c != '\n'
    {
      hide Shows, NextRow, BufAdd, Kept, Whole;
      ShowsFacts(head, tail, cursor, buf[..], u);
      var new_cursor := cursor;
      if c == BACKSPACE {
        BackShows(head, tail, cursor, buf[..], u);
        if new_cursor != head {
          new_cursor := BufAdd(new_cursor, -1);
        }
        u := Feed(u, c, Kept(u));
        cursor := new_cursor;
        echo := false;
      } else if c == '\r' {
        ReturnShows(head, tail, cursor, buf[..], u);
        new_cursor := new_cursor / WIDTH * WIDTH;
        u := Feed(u, c, Kept(u));
        cursor := new_cursor;
        echo := false;
      } else if c == '\n' {
        new_cursor := NextRow(new_cursor);
        HandleTail(new_cursor, RowAfter(u.cursor));
        echo := false;
      } else {
        PutShows(head, tail, cursor, buf[..], u, c);
        buf[new_cursor] := c;
        assert buf[..] == old(buf[..])[cursor := c];
        u := u.(rows := u.rows[u.cursor := c]);
        new_cursor := BufAdd(new_cursor, 1);
        HandleTail(new_cursor, u.cursor + 1);
        echo := true;
      }
    }

    /** The part of `vt_handle_char` that moves the cursor forward to `p`, with the tail and the head. */
    method HandleTail(new_cursor: nat, ghost p: nat)
      requires Valid()
      requires (p == RowAfter(u.cursor) && new_cursor == NextRow(cursor))
               || (p == u.cursor + 1 && new_cursor == BufAdd(cursor, 1))
      modifies this, buf
      ensures Valid() && top == old(top) && u == Advance(old(u), p)
    {
      hide Shows, NextRow, BufAdd, CircDist, Kept, Whole, Advance;
      ShowsFacts(head, tail, cursor, buf[..], u);
      Forward(head, tail, cursor, buf[..], u, p, new_cursor);
      if CircDist(new_cursor, cursor) >= CircDist(tail, cursor) {
        GrowShows(head, tail, cursor, buf[..], u);
        NewHead(u);
        var new_tail := NextRow(new_cursor);
        if CircDist(tail, head) >= CircDist(tail, new_tail) {
          head := NextRow(new_tail);
        }
        ghost var before := buf[..];
        if tail <= new_tail {
          Clear(tail, new_tail);
        } else {
          Clear(tail, BUFSIZE);
          Clear(0, new_tail);
        }
        TailWraps(tail);
        assert buf[..] == Cleared(before, tail);
        tail := new_tail;
      } else {
        MoveShows(head, tail, cursor, buf[..], u, p);
        AdvanceInside(u, p);
      }
      u := Advance(u, p);
      cursor := new_cursor;
    }

    /** memcpy from the buffer to the screen. */
    method Copy(screen: array<char>, to: nat, from: nat, n: nat)
      requires to + n <= screen.Length && from + n <= buf.Length && screen != buf
      modifies screen
      ensures forall i :: 0 <= i < screen.Length ==>
                screen[i] == if to <= i < to + n then buf[from + i - to] else old(screen[i])
    {
      forall i | to <= i < to + n {
        screen[i] := buf[from + i - to];
      }
    }

    /** `vt_redraw`: whichever of its cases applies, the screen shows the ring from the top on, as far
        as it goes. */
    method Redraw() returns (screen: array<char>)
      requires Valid()
      ensures fresh(screen) && screen.Length == DISPLAY
      ensures forall i :: 0 <= i < DISPLAY ==> screen[i] == ScreenAt(buf[..], top, tail, i)
      ensures forall q: nat, i: nat :: i < DISPLAY && top == Ring(q) && Kept(u) <= q <= |u.rows| ==>
                screen[i] == TextAt(u.rows, q + i)
    {
      hide Shows, Kept, Ring;
      ShowsFacts(head, tail, cursor, buf[..], u);
      screen := new char[DISPLAY](_ => '\0');
      if top <= tail {
        if tail - top <= DISPLAY {
          Copy(screen, 0, top, tail - top);
        } else {
          Copy(screen, 0, top, DISPLAY);
        }
      } else {
        var first := BUFSIZE - top;
        if first >= DISPLAY {
          Copy(screen, 0, top, DISPLAY);
        } else {
          Copy(screen, 0, top, first);
          if first + tail <= DISPLAY {
            Copy(screen, first, 0, tail);
          } else {
            Copy(screen, first, 0, DISPLAY - first);
          }
        }
      }
      RingSlices(buf[..], top, tail);
      forall q: nat, i: nat | i < DISPLAY && top == Ring(q) && Kept(u) <= q <= |u.rows|
        ensures ScreenAt(buf[..], top, tail, i) == TextAt(u.rows, q + i)
      {
        ScreenText(head, tail, cursor, buf[..], u, q, i);
      }
    }

    /** A whole stream: the ring holds the last rows of a terminal that goes back no further than they
        do, and as long as no backspace goes into a dropped row, of one that forgets nothing. */
    method HandleAll(cs: seq<char>)
      requires Valid()
      modifies this, buf
      ensures Valid() && top == old(top) && Whole(old(u)) && u == FeedRing(old(u), cs)
      ensures WithinRing(old(u), cs) ==> u == FeedAll(old(u), cs)
    {
      hide Shows, Feed, Kept, Whole, Within;
      ShowsFacts(head, tail, cursor, buf[..], u);
      ghost var u0 := u;
      var i := 0;
      assert cs[..0] == [];
      while i < |cs|
        invariant 0 <= i <= |cs| && Valid() && top == old(top) && u == FeedRing(u0, cs[..i])
      {
        assert cs[..i + 1][..i] == cs[..i];
        var echo := HandleChar(cs[i]);
        i := i + 1;
      }
      assert cs[..|cs|] == cs;
      if WithinRing(u0, cs) { RingIsAll(u0, cs); }
    }
  }

  /** Position `i` of the screen: the ring from `top` on, blank beyond `tail`. */
  function ScreenAt(buf: seq<char>, top: nat, tail: nat, i: nat): char
    requires |buf| == BUFSIZE
  {
    if i < CircDist(tail, top) then buf[(top + i) % BUFSIZE] else '\0'
  }

  /** The text, blank beyond its end. */
  function TextAt(rows: seq<char>, p: nat): char {
    if p < |rows| then rows[p] else '\0'
  }

  lemma ScreenText(head: nat, tail: nat, cursor: nat, buf: seq<char>, u: Text, q: nat, i: nat)
    requires Shows(head, tail, cursor, buf, u) && Kept(u) <= q <= |u.rows|
    ensures ScreenAt(buf, Ring(q), tail, i) == TextAt(u.rows, q + i)
  {
    DistOf(|u.rows|, q);
    if q + i < |u.rows| {
      RingOn(q, i);
      assert HeldAt(buf, u.rows, q + i);
    }
  }

  lemma RingOn(q: nat, i: nat)
    ensures (Ring(q) + i) % BUFSIZE == Ring(q + i)
  {
  }

  lemma RingSlices(buf: seq<char>, top: nat, tail: nat)
    requires |buf| == BUFSIZE && top < BUFSIZE && tail < BUFSIZE
    ensures CircDist(tail, top) == if top <= tail then tail - top else BUFSIZE - top + tail
    ensures forall i :: 0 <= i < DISPLAY ==> ScreenAt(buf, top, tail, i) == InTwoParts(buf, top, tail, i)
  {
  }

  /** The same without the modulus: up to the tail, or to the end of the buffer and from its start. */
  function InTwoParts(buf: seq<char>, top: nat, tail: nat, i: nat): char
    requires |buf| == BUFSIZE && top < BUFSIZE && tail < BUFSIZE
  {
    if top <= tail then if i < tail - top then buf[top + i] else '\0'
    else if i < BUFSIZE - top then buf[top + i]
    else if i < BUFSIZE - top + tail then buf[i - (BUFSIZE - top)]
    else '\0'
  }

  lemma SameFloor(u: Text, c: char)
    requires Whole(u) && Kept(u) <= u.cursor && Within(u, c)
    ensures Feed(u, c, Kept(u)) == Feed(u, c, 0)
  {
    FloorMatters(u, c);
  }

  lemma TailWraps(tail: nat)
    requires tail + WIDTH <= BUFSIZE
    ensures Ring(tail + WIDTH) == if tail + WIDTH == BUFSIZE then 0 else tail + WIDTH
  {
  }

  lemma AdvanceInside(u: Text, p: nat)
    requires p < |u.rows|
    ensures Advance(u, p) == u.(cursor := p)
  {
  }

  lemma ShowsFacts(head: nat, tail: nat, cursor: nat, buf: seq<char>, u: Text)
    requires Shows(head, tail, cursor, buf, u)
    ensures |buf| == BUFSIZE && Whole(u) && Kept(u) <= u.cursor && cursor < BUFSIZE && head < BUFSIZE && tail < BUFSIZE
  {
  }

  lemma BackShows(head: nat, tail: nat, cursor: nat, buf: seq<char>, u: Text)
    requires Shows(head, tail, cursor, buf, u)
    ensures Whole(u) && Shows(head, tail,
              if cursor == head then cursor else BufAdd(cursor, -1), buf, Feed(u, BACKSPACE, Kept(u)))
  {
    if u.cursor != Kept(u) {
      ModApart(u.cursor, Kept(u));
      MoveShows(head, tail, cursor, buf, u, u.cursor - 1);
      StepBack(u.cursor);
    }
  }

  lemma StepBack(p: nat)
    requires p > 0
    ensures BufAdd(Ring(p), -1) == Ring(p - 1)
  {
  }

  lemma ReturnShows(head: nat, tail: nat, cursor: nat, buf: seq<char>, u: Text)
    requires Shows(head, tail, cursor, buf, u)
    ensures Whole(u) && Shows(head, tail, cursor / WIDTH * WIDTH, buf, Feed(u, '\r', Kept(u)))
  {
    RowStart(u.cursor, Kept(u));
    KeptRow(u);
    MoveShows(head, tail, cursor, buf, u, u.cursor / WIDTH * WIDTH);
  }

  lemma KeptRow(u: Text)
    requires Whole(u)
    ensures Kept(u) % WIDTH == 0
  {
  }

  lemma RowStart(p: nat, k: nat)
    ensures Ring(p / WIDTH * WIDTH) == Ring(p) / WIDTH * WIDTH
    ensures k <= p && k % WIDTH == 0 ==> k <= p / WIDTH * WIDTH <= p
  {
    var q, r := p / BUFSIZE, p % BUFSIZE;
    assert p == q * BUFSIZE + r;
    DivShift(q * 125, r);
    AddMultiple(r / WIDTH * WIDTH, q);
    if k <= p && k % WIDTH == 0 { assert k == k / WIDTH * WIDTH && k / WIDTH <= p / WIDTH; }
  }

  /** Moving forward reaches the tail exactly when the text needs a new row. */
  lemma Forward(head: nat, tail: nat, cursor: nat, buf: seq<char>, u: Text, p: nat, moved: nat)
    requires Shows(head, tail, cursor, buf, u)
    requires (p == RowAfter(u.cursor) && moved == NextRow(cursor)) || (p == u.cursor + 1 && moved == BufAdd(cursor, 1))
    ensures moved == Ring(p) && u.cursor < p <= |u.rows|
    ensures CircDist(moved, cursor) >= CircDist(tail, cursor) <==> p == |u.rows|
    ensures p == |u.rows| ==>
              moved == tail && tail + WIDTH <= BUFSIZE && NextRow(moved) == Ring(tail + WIDTH) == Ring(p + WIDTH)
    ensures head == Ring(Kept(u)) && tail == Ring(|u.rows|)
  {
    hide NextRow, RowAfter, CircDist;
    AdvanceRows(u.rows, u.cursor);
    NextRowOf(u.cursor);
    StepOn(u.cursor);
    RowClose(u.cursor);
    DistOf(p, u.cursor);
    DistOf(|u.rows|, u.cursor);
    if p == |u.rows| {
      NewRow(p, 0);
      NextRowOf(p);
    }
  }

  lemma StepOn(p: nat)
    ensures BufAdd(Ring(p), 1) == Ring(p + 1)
  {
  }

  lemma RowClose(p: nat)
    ensures p < RowAfter(p) <= p + WIDTH
  {
  }
}
