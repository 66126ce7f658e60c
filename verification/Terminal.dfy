/**
 The line buffer behind the terminal's standard input, src/kernel/term.c: eight lines of up
 to 64 characters that scroll, as a window on everything typed so far.
 */
module Terminal {

  const HEIGHT := 8
  const WIDTH := 64

  type Line = string

  // ---------------------------------------------------------------- the window

  /** The first `n` lines one after the other. */
  function Flat(lines: seq<Line>, n: nat): string
    requires n <= |lines|
  {
    if n == 0 then "" else Flat(lines, n - 1) + lines[n - 1]
  }

  /** A line that is complete: it is full or ends in a newline, and has no newline before. */
  predicate Finished(line: Line) {
    && 0 < |line| <= WIDTH
    && (|line| == WIDTH || line[|line| - 1] == '\n')
    && forall k | 0 <= k < |line| - 1 :: line[k] != '\n'
  }

  predicate Open(line: Line) {
    |line| < WIDTH && '\n' !in line
  }

  /** Lines before the active one are finished, the active one is open, and those after it are
      empty. */
  ghost predicate Shape(lines: seq<Line>, active: nat) {
    && |lines| == HEIGHT && active < HEIGHT
    && (forall k | 0 <= k < active :: Finished(lines[k]))
    && Open(lines[active])
    && (forall k | active < k < HEIGHT :: lines[k] == "")
  }

  /** The lines up to the active one are what was typed from `offset` on. */
  ghost predicate Window(lines: seq<Line>, active: nat, offset: nat, stream: string) {
    Shape(lines, active) && offset <= |stream| && Flat(lines, active + 1) == stream[offset..]
  }

  lemma {:induction false} FlatSame(a: seq<Line>, b: seq<Line>, n: nat)
    requires n <= |a| && n <= |b| && forall k | 0 <= k < n :: a[k] == b[k]
    ensures Flat(a, n) == Flat(b, n)
  {
    if n > 0 { FlatSame(a, b, n - 1); }
  }

  /** Moving all lines up by one drops the first. */
  lemma {:induction false} FlatShift(a: seq<Line>, b: seq<Line>, n: nat)
    requires n < |a| && n <= |b| && forall k | 0 <= k < n :: b[k] == a[k + 1]
    ensures Flat(a, n + 1) == a[0] + Flat(b, n)
  {
    if n > 0 { FlatShift(a, b, n - 1); }
  }

  // ---------------------------------------------------------------- typing

  /** The character goes to the end of the active line. */
  lemma Typed(lines: seq<Line>, active: nat, offset: nat, stream: string, c: char, out: seq<Line>)
    requires Window(lines, active, offset, stream) && out == lines[active := lines[active] + [c]]
    ensures Flat(out, active + 1) == (stream + [c])[offset..]
    ensures if |out[active]| >= WIDTH || c == '\n' then Finished(out[active]) else Open(out[active])
  {
    FlatSame(lines, out, active);
    assert Flat(lines, active + 1) + [c] == Flat(out, active + 1);
  }

  /** A finished line that is not the last leaves an empty line after it. */
  lemma NextLine(lines: seq<Line>, active: nat)
    requires |lines| == HEIGHT && active + 1 < HEIGHT && lines[active + 1] == ""
    ensures Flat(lines, active + 2) == Flat(lines, active + 1)
  {
  }

  /** Scrolling drops the first line from the window. */
  lemma Scrolled(lines: seq<Line>, offset: nat, stream: string, out: seq<Line>)
    requires |lines| == HEIGHT && offset <= |stream| && Flat(lines, HEIGHT) == stream[offset..]
    requires |out| == HEIGHT && out[HEIGHT - 1] == "" && forall k | 0 <= k < HEIGHT - 1 :: out[k] == lines[k + 1]
    ensures offset + |lines[0]| <= |stream| && Flat(out, HEIGHT) == stream[offset + |lines[0]|..]
  {
    FlatShift(lines, out, HEIGHT - 1);
    assert Flat(out, HEIGHT) == Flat(out, HEIGHT - 1);
    assert stream[offset..] == lines[0] + Flat(out, HEIGHT);
    assert stream[offset + |lines[0]|..] == stream[offset..][|lines[0]|..];
  }

  // ---------------------------------------------------------------- reading

  lemma {:induction false} FlatLonger(lines: seq<Line>, i: nat, n: nat)
    requires i <= n <= |lines|
    ensures |Flat(lines, i)| <= |Flat(lines, n)|
  {
    if i < n { FlatLonger(lines, i, n - 1); }
  }

  /** Part of a line is part of the whole. */
  lemma {:induction false} FlatSlice(lines: seq<Line>, i: nat, n: nat, a: nat, t: nat, at: nat)
    requires i < n <= |lines| && a + t <= |lines[i]| && at == |Flat(lines, i)| + a
    ensures at + t <= |Flat(lines, n)| && Flat(lines, n)[at..at + t] == lines[i][a..a + t]
  {
    if i < n - 1 {
      FlatSlice(lines, i, n - 1, a, t, at);
      FlatLonger(lines, i, n - 1);
    }
  }

  /** Position `offset` is in line `idx`, which starts at `start`. */
  ghost predicate InLine(lines: seq<Line>, bfrOffset: nat, idx: nat, start: nat, offset: nat) {
    idx < |lines| && start == bfrOffset + |Flat(lines, idx)| && offset < start + |lines[idx]|
        && (idx == 0 || start <= offset)
  }

  /** The search for the line of an offset. */
  method FindLine(lines: seq<Line>, active: nat, bfrOffset: nat, offset: nat) returns (idx: nat, lineOffset: nat)
    requires active < |lines|
    ensures idx <= active
    ensures if offset < bfrOffset + |Flat(lines, active + 1)| then InLine(lines, bfrOffset, idx, lineOffset, offset)
            else idx == active && lineOffset == bfrOffset + |Flat(lines, active + 1)|
  {
    idx, lineOffset := 0, bfrOffset;
    var going := true;
    while going
      invariant idx <= active
      invariant going ==> lineOffset == bfrOffset + |Flat(lines, idx)| && (idx == 0 || lineOffset <= offset)
      invariant !going ==> InLine(lines, bfrOffset, idx, lineOffset, offset)
                           || (idx == active && lineOffset == bfrOffset + |Flat(lines, active + 1)| <= offset)
      decreases active - idx, going
    {
      if lineOffset + |lines[idx]| > offset {
        going := false;
      } else {
        lineOffset := lineOffset + |lines[idx]|;
        if idx >= active {
          going := false;
        } else {
          idx := idx + 1;
        }
      }
    }
    if idx <= active { FlatLonger(lines, idx + 1, active + 1); }
  }

  /** The next character to copy is number `pos` of the buffer: character `a` of line `idx`, or
      the end of the buffer. */
  ghost predicate At(lines: seq<Line>, active: nat, idx: nat, a: nat, pos: nat) {
    && active < |lines| && idx <= active + 1
    && (if idx <= active then a <= |lines[idx]| && pos == |Flat(lines, idx)| + a else pos == |Flat(lines, active + 1)|)
  }

  lemma AtNext(lines: seq<Line>, active: nat, idx: nat, a: nat, pos: nat)
    requires At(lines, active, idx, a, pos) && idx <= active
    ensures At(lines, active, idx + 1, 0, pos + (|lines[idx]| - a))
    ensures pos + (|lines[idx]| - a) <= |Flat(lines, active + 1)|
  {
    FlatLonger(lines, idx + 1, active + 1);
  }

  /** `data` is the part of the buffer from `from` up to `pos`. */
  ghost predicate Copied(flat: string, from: nat, pos: nat, data: string) {
    from <= pos <= |flat| && data == flat[from..pos]
  }

  /** Where a copy of `size` characters from position `from` on stops: it does not enter the
      active line, which starts at `last`, unless that holds all that is still wanted. */
  function Stop(total: nat, last: nat, from: nat, size: nat): nat {
    if from + size <= total then from + size else if from < last then last else from
  }

  /** The piece of one line; `stop` when the loop has to wait for the line. */
  method CopyLine(lines: seq<Line>, active: nat, idx: nat, a: nat, size: nat, ghost pos: nat)
      returns (stop: bool, t: nat, piece: string)
    requires At(lines, active, idx, a, pos) && idx <= active && 0 < size
    ensures stop <==> idx == active && pos + size > |Flat(lines, active + 1)|
    ensures !stop ==>
            t <= size && pos + t <= |Flat(lines, active + 1)| && piece == Flat(lines, active + 1)[pos..pos + t]
    ensures !stop ==> t == if size < |lines[idx]| - a then size else |lines[idx]| - a
  {
    AtNext(lines, active, idx, a, pos);
    t := if size < |lines[idx]| - a then size else |lines[idx]| - a;
    stop := idx == active && t < size;
    FlatSlice(lines, idx, active + 1, a, t, pos);
    piece := lines[idx][a..a + t];
  }

  /** What the copying loop knows: `rest` characters are missing, and as long as there are any,
      the next one is character `a` of line `idx`. */
  ghost predicate Copying(lines: seq<Line>, flat: string, active: nat, idx: nat, a: nat, from: nat, pos: nat,
      data: string, rest: nat)
    requires active < |lines|
  {
    && Copied(flat, from, pos, data)
    && (0 < rest ==> idx <= active && At(lines, active, idx, a, pos) && (a == 0 || pos == from))
  }

  /** One round of the copying loop. */
  method CopyRound(lines: seq<Line>, active: nat, idx: nat, a: nat, data: string, rest: nat, ghost flat: string,
      ghost from: nat, ghost pos: nat)
    returns (stop: bool, data': string, rest': nat, ghost pos': nat)
    requires active < |lines| && flat == Flat(lines, active + 1)
             && Copying(lines, flat, active, idx, a, from, pos, data, rest) && 0 < rest
    ensures |data'| + rest' == |data| + rest
    ensures stop ==> data' == data && idx == active && pos + rest > |flat|
    ensures stop ==> pos' == pos
    ensures !stop ==> Copying(lines, flat, active, idx + 1, 0, from, pos', data', rest')
  {
    var t, piece;
    stop, t, piece := CopyLine(lines, active, idx, a, rest, pos);
    data', rest', pos' := data, rest, pos;
    if !stop {
      AtNext(lines, active, idx, a, pos);
      data', rest', pos' := data + piece, rest - t, pos + t;
    }
  }

  lemma CopyEnd(lines: seq<Line>, flat: string, active: nat, idx: nat, a: nat, from: nat, pos: nat, data: string,
      rest: nat, size: nat)
    requires active < |lines| && Copying(lines, flat, active, idx, a, from, pos, data, rest) && |data| + rest == size
    requires rest == 0 || (idx == active && pos + rest > |flat|)
    ensures pos == Stop(|flat|, |Flat(lines, active)|, from, size)
  {
  }

  /** The copying loop: what is copied, and how much is still missing. */
  method CopyLines(lines: seq<Line>, active: nat, start: nat, charOffset: nat, size: nat, ghost flat: string,
      ghost from: nat) returns (data: string, rest: nat)
    requires At(lines, active, start, charOffset, from) && start <= active && flat == Flat(lines, active + 1)
    ensures |data| + rest == size
    ensures Copied(flat, from, Stop(|flat|, |Flat(lines, active)|, from, size), data)
  {
    AtNext(lines, active, start, charOffset, from);
    var idx, a := start, charOffset;
    ghost var pos: nat := from;
    data, rest := "", size;
    var waiting := false;
    while rest > 0 && !waiting
      invariant |data| + rest == size && Copying(lines, flat, active, idx, a, from, pos, data, rest)
      invariant waiting ==> idx == active && pos + rest > |flat|
      decreases !waiting, active + 1 - idx
    {
      waiting, data, rest, pos := CopyRound(lines, active, idx, a, data, rest, flat, from, pos);
      if !waiting {
        idx, a := idx + 1, 0;
      }
    }
    CopyEnd(lines, flat, active, idx, a, from, pos, data, rest, size);
  }

  /** What a copy from the buffer is in the stream. */
  lemma CopiedStream(flat: string, stream: string, offset: nat, total: nat, last: nat, from: nat, start: nat,
      size: nat, data: string, rest: nat)
    requires offset <= |stream| && flat == stream[offset..] && total == |flat| && last <= total && from <= total
             && start == offset + from
    requires |data| + rest == size && Copied(flat, from, Stop(total, last, from, size), data)
    ensures start + size <= |stream| ==> rest == 0 && data == stream[start..start + size]
    ensures start + size > |stream| ==> 0 < rest && start + |data| <= |stream| && data == stream[start..start + |data|]
    ensures start + size > |stream| ==> start + |data| == if start < offset + last then offset + last else start
  {
    var pos := Stop(total, last, from, size);
    assert |data| == pos - from;
    assert flat[from..pos] == stream[start..offset + pos];
  }

  /** Where a read at `offset` starts: characters that have scrolled out are skipped, and an
      offset at or past the end of what was typed is counted from the start of the active line
      instead. */
  function Effective(lines: seq<Line>, active: nat, bfrOffset: nat, offset: nat): (start: nat)
    requires active < |lines|
    ensures bfrOffset <= start
  {
    var end := bfrOffset + |Flat(lines, active + 1)|;
    if offset <= bfrOffset then bfrOffset
    else if offset < end then offset
    else bfrOffset + |Flat(lines, active)| + (offset - end)
  }

  /** A read starts where it should exactly when its offset has been typed already, or the
      active line is empty. */
  lemma EffectiveIff(lines: seq<Line>, active: nat, bfrOffset: nat, offset: nat, stream: string)
    requires Window(lines, active, bfrOffset, stream)
    ensures Effective(lines, active, bfrOffset, offset) == (if offset <= bfrOffset then bfrOffset else offset) <==>
            offset < |stream| || offset <= bfrOffset || lines[active] == ""
  {
    assert |Flat(lines, active + 1)| == |Flat(lines, active)| + |lines[active]|;
  }

  /** With an unfinished line in the buffer, a read at the end of what was typed starts at the
      beginning of that line, and gives characters that were read before. */
  lemma StaleRead()
    ensures var lines := ["ab", "", "", "", "", "", "", ""];
            Window(lines, 0, 0, "ab") && Effective(lines, 0, 0, 2) == 0
  {
    var lines := ["ab", "", "", "", "", "", "", ""];
    assert Flat(lines, 1) == Flat(lines, 0) + "ab" == "ab";
    assert "ab"[0..] == "ab";
  }

  /** Where a read starts, in terms of what was typed. */
  lemma EffectiveIs(lines: seq<Line>, active: nat, bfrOffset: nat, offset: nat, stream: string)
    requires Window(lines, active, bfrOffset, stream)
    ensures Effective(lines, active, bfrOffset, offset) ==
            if offset <= bfrOffset then bfrOffset else if offset < |stream| then offset else offset - |lines[active]|
  {
    assert |Flat(lines, active + 1)| == |Flat(lines, active)| + |lines[active]|;
  }

  /** What a read of `size` characters gives that starts at character `start` of the stream, if
      the last `unfinished` characters are in a line that is not finished: the range, if all
      of it has been typed; otherwise its part in finished lines. */
  ghost predicate Delivered(stream: string, unfinished: nat, start: nat, size: nat, data: string, rest: nat) {
    && |data| + rest == size
    && (start + size <= |stream| ==> rest == 0 && data == stream[start..start + size])
    && (start + size > |stream| ==> 0 < rest && start + |data| <= |stream| && data == stream[start..start + |data|])
    && (start + size > |stream| ==>
        start + |data| == if start + unfinished < |stream| then |stream| - unfinished else start)
  }

  /** Where the search and the adjustment after it put the read position. */
  method StartLine(lines: seq<Line>, active: nat, bfrOffset: nat, offset: nat, ghost from: nat)
      returns (lineIdx: nat, charOffset: nat)
    requires active < |lines| && bfrOffset + from == Effective(lines, active, bfrOffset, offset)
    requires offset <= bfrOffset + |Flat(lines, active + 1)| + |lines[active]|
    ensures lineIdx <= active && At(lines, active, lineIdx, charOffset, from)
  {
    var lineOffset;
    lineIdx, lineOffset := FindLine(lines, active, bfrOffset, offset);
    if offset <= bfrOffset {
      lineIdx, charOffset := 0, 0;
    } else {
      charOffset := offset - lineOffset;
    }
  }

  method ReadBuffer(lines: seq<Line>, active: nat, bfrOffset: nat, offset: nat, size: nat, ghost stream: string)
    returns (data: string, rest: nat)
    requires Window(lines, active, bfrOffset, stream) && offset <= |stream| + |lines[active]|
    ensures Delivered(stream, |lines[active]|, Effective(lines, active, bfrOffset, offset), size, data, rest)
  {
    ghost var start := Effective(lines, active, bfrOffset, offset);
    ghost var from: nat := start - bfrOffset;
    ghost var flat := Flat(lines, active + 1);
    var lineIdx, charOffset := StartLine(lines, active, bfrOffset, offset, from);
    data, rest := CopyLines(lines, active, lineIdx, charOffset, size, flat, from);
    FlatLonger(lines, active, active + 1);
    AtNext(lines, active, lineIdx, charOffset, from);
    CopiedStream(flat, stream, bfrOffset, |flat|, |Flat(lines, active)|, from, start, size, data, rest);
  }

  class Stdin {
    var lines: seq<Line>
    var activeLine: nat
    var bfrOffset: nat

    /** Everything typed since the terminal was created. */
    ghost var stream: string

    ghost predicate Valid()
      reads this
    {
      Window(lines, activeLine, bfrOffset, stream)
    }

    constructor ()
      ensures Valid() && stream == "" && activeLine == 0 && bfrOffset == 0 && lines == ["", "", "", "", "", "", "", ""]
    {
      lines := seq(HEIGHT, _ => "");
      activeLine := 0;
      bfrOffset := 0;
      stream := "";
    }

    /** `term_stdin_putc`: the character goes to the end of the active line.  A newline or the
        64th character finishes the line, and the next one becomes active; only if it was the
        last, the first line leaves the window. */
    method Putc(c: char)
      requires Valid()
      modifies this
      ensures Valid() && stream == old(stream) + [c]
      ensures var typed := old(lines[activeLine]) + [c];
              var finished := c == '\n' || |typed| == 64;
              if finished && old(activeLine) == 7 then
                activeLine == 7 && bfrOffset == old(bfrOffset) + |old(lines[0])|
                && lines == old(lines)[1..7] + [typed, ""]
              else
                && activeLine == (if finished then old(activeLine) + 1 else old(activeLine))
                && bfrOffset == old(bfrOffset) && lines == old(lines)[old(activeLine) := typed]
    {
      lines := lines[activeLine := lines[activeLine] + [c]];
      Typed(old(lines), activeLine, bfrOffset, stream, c, lines);
      stream := stream + [c];
      if |lines[activeLine]| >= WIDTH || c == '\n' {
        activeLine := activeLine + 1;
        if activeLine == HEIGHT {
          ghost var full := lines;
          bfrOffset := bfrOffset + |lines[0]|;
          lines := lines[1..] + [lines[HEIGHT - 1]];
          activeLine := activeLine - 1;
          lines := lines[activeLine := ""];
          Scrolled(full, old(bfrOffset), stream, lines);
        } else {
          NextLine(lines, activeLine - 1);
        }
      }
    }

    /** `term_transfer` for a read, up to the point where it would wait: the characters copied
        and how many are still missing.  A range that has been typed comes back exactly; if its
        end has not been typed yet, the read waits for more with a part of it.  See `Effective`
        for where the range starts. */
    method Read(offset: nat, size: nat) returns (data: string, rest: nat)
      requires Valid() && offset <= |stream| + |lines[activeLine]|
      ensures offset <= bfrOffset ==> Delivered(stream, |lines[activeLine]|, bfrOffset, size, data, rest)
      ensures bfrOffset < offset < |stream| ==> Delivered(stream, |lines[activeLine]|, offset, size, data, rest)
      ensures bfrOffset < offset && |stream| <= offset ==>
              |lines[activeLine]| <= offset
              && Delivered(stream, |lines[activeLine]|, offset - |lines[activeLine]|, size, data, rest)
    {
      EffectiveIs(lines, activeLine, bfrOffset, offset, stream);
      data, rest := ReadBuffer(lines, activeLine, bfrOffset, offset, size, stream);
    }
  }
}
