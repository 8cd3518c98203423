/** What a stream of characters leaves on the terminal (kernel/drivers/tty/virtterm.c), in terms of rows,
    columns and the characters in them. */
module TerminalLaws {
  import opened Terminal

  predicate Ordinary(cs: seq<char>) {
    forall i :: 0 <= i < |cs| ==> cs[i] != BACKSPACE && cs[i] != '\r' && cs[i] != '\n'
  }

  /** Ordinary characters stand one behind the other from the cursor on, over what was there, and the
      cursor behind them; rows are added just as far as it goes. */
  lemma {:induction false} Prints(u: Text, cs: seq<char>)
    requires Whole(u) && Ordinary(cs)
    ensures var v := FeedAll(u, cs);
            && v.cursor == u.cursor + |cs|
            && |v.rows| == (if v.cursor < |u.rows| then |u.rows| else v.cursor / 80 * 80 + 80)
            && forall p :: 0 <= p < |v.rows| ==>
                 v.rows[p] == if u.cursor <= p < v.cursor then cs[p - u.cursor] else TextAt(u.rows, p)
  {
    if cs != [] {
      var front, c := cs[..|cs| - 1], cs[|cs| - 1];
      Prints(u, front);
      Printed(u, front, c, FeedAll(u, front));
      assert front + [c] == cs;
    }
  }

  lemma Printed(u: Text, front: seq<char>, c: char, v: Text)
    requires Whole(u) && Whole(v) && Ordinary(front + [c]) && v.cursor == u.cursor + |front|
    requires |v.rows| == if v.cursor < |u.rows| then |u.rows| else v.cursor / 80 * 80 + 80
    requires forall p :: 0 <= p < |v.rows| ==>
               v.rows[p] == if u.cursor <= p < v.cursor then front[p - u.cursor] else TextAt(u.rows, p)
    ensures var w := Feed(v, c, 0);
            && w.cursor == u.cursor + |front| + 1
            && |w.rows| == (if w.cursor < |u.rows| then |u.rows| else w.cursor / 80 * 80 + 80)
            && forall p :: 0 <= p < |w.rows| ==>
                 w.rows[p] == if u.cursor <= p < w.cursor then (front + [c])[p - u.cursor] else TextAt(u.rows, p)
  {
    assert (front + [c])[|front|] == c;
    OneMore(|u.rows|, v.cursor);
  }

  lemma OneMore(rows: nat, p: nat)
    requires rows % 80 == 0
    ensures rows / 80 * 80 == rows
    ensures p / 80 * 80 + 80 == p + 1 ==> (p + 1) / 80 * 80 == p + 1
    ensures p / 80 * 80 + 80 > p + 1 ==> (p + 1) / 80 == p / 80
  {
  }

  lemma {:induction false} FeedSplit(u: Text, a: seq<char>, b: seq<char>)
    requires Whole(u)
    ensures FeedAll(u, a + b) == FeedAll(FeedAll(u, a), b)
  {
    hide Feed, Whole;
    if b == [] {
      assert a + b == a;
    } else {
      FeedSplit(u, a, b[..|b| - 1]);
      assert (a + b)[..|a + b| - 1] == a + b[..|b| - 1];
    }
  }

  /** The control characters leave all characters alone.  A newline goes to the start of the next row, a
      carriage return to that of the same row, a backspace one back, if it is not at the floor. */
  lemma Controls(u: Text, floor: nat)
    requires Whole(u)
    ensures var v := Feed(u, '\n', floor);
            && v.cursor % 80 == 0 && v.cursor / 80 == u.cursor / 80 + 1
            && |v.rows| == (if v.cursor < |u.rows| then |u.rows| else v.cursor + 80)
            && forall p :: 0 <= p < |v.rows| ==> v.rows[p] == TextAt(u.rows, p)
    ensures var v := Feed(u, '\r', floor); v.rows == u.rows && v.cursor % 80 == 0 && v.cursor / 80 == u.cursor / 80
    ensures var v := Feed(u, BACKSPACE, floor);
            v.rows == u.rows && v.cursor == if u.cursor == 0 || u.cursor == floor then u.cursor else u.cursor - 1
  {
    RowBound(u.cursor, |u.rows|);
  }

  /** Lines, each with a newline behind it. */
  function Joined(lines: seq<seq<char>>): seq<char> {
    if lines == [] then [] else Joined(lines[..|lines| - 1]) + lines[|lines| - 1] + ['\n']
  }

  ghost predicate Row(rows: seq<char>, k: nat, line: seq<char>) {
    && |rows| >= 80 * (k + 1)
    && forall i :: 0 <= i < 80 ==> rows[80 * k + i] == if i < |line| then line[i] else '\0'
  }

  lemma RowAt(rows: seq<char>, k: nat, line: seq<char>, i: nat)
    requires Row(rows, k, line) && i < 80
    ensures 80 * k + i < |rows| && rows[80 * k + i] == if i < |line| then line[i] else '\0'
  {
  }

  ghost predicate Short(line: seq<char>) {
    |line| < 80 && Ordinary(line)
  }

  /** Short lines printed on an empty terminal stand each in its row, blanks behind it, and the cursor at
      the start of the empty row below them. */
  lemma {:induction false} PrintsLines(lines: seq<seq<char>>)
    requires forall k :: 0 <= k < |lines| ==> Short(lines[k])
    ensures var v := FeedAll(Text(EmptyRow(), 0), Joined(lines));
            && v.cursor == 80 * |lines| && |v.rows| == 80 * (|lines| + 1) && Row(v.rows, |lines|, [])
            && forall k :: 0 <= k < |lines| ==> Row(v.rows, k, lines[k])
  {
    hide Feed, FeedAll, Row, Short;
    var u := Text(EmptyRow(), 0);
    if lines == [] {
      EmptyTerminal();
    } else {
      var front, line := lines[..|lines| - 1], lines[|lines| - 1];
      PrintsLines(front);
      FeedSplit(u, Joined(front), line);
      FeedSplit(u, Joined(front) + line, ['\n']);
      var v := FeedAll(u, Joined(front));
      FeedOne(FeedAll(v, line), '\n');
      PrintsLine(v, front, line);
    }
  }

  lemma EmptyTerminal()
    ensures var u := Text(EmptyRow(), 0); FeedAll(u, []) == u && Row(u.rows, 0, [])
  {
  }

  lemma FeedOne(u: Text, c: char)
    requires Whole(u)
    ensures FeedAll(u, [c]) == Feed(u, c, 0)
  {
    assert FeedAll(u, [c][..0]) == u;
  }

  lemma PrintsLine(v: Text, front: seq<seq<char>>, line: seq<char>)
    requires Whole(v) && v.cursor == 80 * |front| && |v.rows| == 80 * (|front| + 1) && Row(v.rows, |front|, [])
    requires (forall k :: 0 <= k < |front| ==> Row(v.rows, k, front[k])) && Short(line)
    ensures var w := Feed(FeedAll(v, line), '\n', 0);
            && w.cursor == 80 * (|front| + 1) && |w.rows| == 80 * (|front| + 2) && Row(w.rows, |front| + 1, [])
            && Row(w.rows, |front|, line) && forall k :: 0 <= k < |front| ==> Row(w.rows, k, front[k])
  {
    hide Feed, FeedAll;
    var w0 := FeedAll(v, line);
    Prints(v, line);
    Controls(w0, 0);
    var w := Feed(w0, '\n', 0);
    assert w0.cursor / 80 == |front|;
    forall i | 0 <= i < 80
      ensures w.rows[80 * |front| + i] == if i < |line| then line[i] else '\0'
    {
      RowAt(v.rows, |front|, [], i);
      assert w.rows[80 * |front| + i] == TextAt(w0.rows, 80 * |front| + i);
    }
    forall k | 0 <= k < |front|
      ensures Row(w.rows, k, front[k])
    {
      assert Row(v.rows, k, front[k]);
    }
  }
}
