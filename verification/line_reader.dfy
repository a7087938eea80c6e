/** The budgeted line reader: from a stored offset, read at most a given
    number of complete lines and return the offset just after the last
    one, so that an unterminated or unread line is read again next time. */
module LineReader {
  import opened Common
  import opened LineScanner

  /** The lines read (each with the offset just after it) and the offset
      the file is left at. */
  datatype Read = Read(lines: seq<LineRead>, pointer: nat)

  /** `lines` are consecutive complete lines, the first one at `pos`. */
  ghost predicate Tiles(data: seq<byte>, pos: nat, lines: seq<LineRead>)
    decreases |lines|
  {
    lines == [] || (IsLineAt(data, pos, lines[0]) && Tiles(data, lines[0].end, lines[1..]))
  }

  /** The offset after the last of `lines`, or `pos` when there are none. */
  function LastEnd(pos: nat, lines: seq<LineRead>): nat
  {
    if lines == [] then pos else lines[|lines| - 1].end
  }

  /** The reading loop: read a line; while there is one and the budget is
      positive, move the offset past it, keep it and read the next. The
      first line that is missing or over budget leaves the offset where it
      was. */
  function ScanLines(data: seq<byte>, pos: nat, budget: int): Read
    decreases |data| - pos
  {
    match ReadLine(data, pos)
    case None => Read([], pos)
    case Some(l) =>
      if budget <= 0 then Read([], pos)
      else
        var rest := ScanLines(data, l.end, budget - 1);
        Read([l] + rest.lines, rest.pointer)
  }

  /** Reads at most `budget` complete lines from offset `pos`: they are the
      consecutive lines starting at `pos`, the pointer follows the last of
      them, and fewer lines than the budget means no line feed is left. */
  function ReadLines(data: seq<byte>, pos: nat, budget: int): (r: Read)
    ensures |r.lines| <= Max0(budget)
    ensures Tiles(data, pos, r.lines)
    ensures r.pointer == LastEnd(pos, r.lines)
    ensures |r.lines| < budget ==> NoLineFeedFrom(data, r.pointer)
  {
    ScanLinesContract(data, pos, budget);
    ScanLines(data, pos, budget)
  }

  /** The loop keeps the budget, reads consecutive complete lines and stops
      early only when no line feed is left. */
  lemma {:induction false} ScanLinesContract(data: seq<byte>, pos: nat, budget: int)
    ensures |ScanLines(data, pos, budget).lines| <= Max0(budget)
    ensures Tiles(data, pos, ScanLines(data, pos, budget).lines)
    ensures ScanLines(data, pos, budget).pointer == LastEnd(pos, ScanLines(data, pos, budget).lines)
    ensures |ScanLines(data, pos, budget).lines| < budget ==> NoLineFeedFrom(data, ScanLines(data, pos, budget).pointer)
    decreases |data| - pos
  {
    var r := ScanLines(data, pos, budget);
    if budget > 0 && ReadLine(data, pos).Some? {
      var l := ReadLine(data, pos).value;
      ScanLinesContract(data, l.end, budget - 1);
      var rest := ScanLines(data, l.end, budget - 1);
      assert r == Read([l] + rest.lines, rest.pointer);
      assert r.lines[1..] == rest.lines;
      assert |r.lines| < budget ==> |rest.lines| < budget - 1;
    } else {
      assert r == Read([], pos);
    }
  }

  /** The offsets of consecutive lines strictly increase from `pos`, the
      last one is the returned pointer, and every one follows a line feed. */
  lemma {:induction false} TilesOffsets(data: seq<byte>, pos: nat, lines: seq<LineRead>)
    requires Tiles(data, pos, lines)
    ensures forall i :: 0 <= i < |lines| ==> pos < lines[i].end <= |data| && data[lines[i].end - 1] == LF
    ensures forall i, j :: 0 <= i < j < |lines| ==> lines[i].end < lines[j].end
    ensures pos <= LastEnd(pos, lines)
    decreases |lines|
  {
    if lines != [] {
      TilesOffsets(data, lines[0].end, lines[1..]);
      assert forall i :: 1 <= i < |lines| ==> lines[i] == lines[1..][i - 1];
    }
  }

  /** The pointer returned never moves backwards and always sits at a line
      boundary: either it is the starting offset or it follows a line feed. */
  lemma PointerAtLineBoundary(data: seq<byte>, pos: nat, budget: int)
    ensures pos <= ReadLines(data, pos, budget).pointer
    ensures ReadLines(data, pos, budget).pointer == pos ||
      (ReadLines(data, pos, budget).pointer <= |data| && data[ReadLines(data, pos, budget).pointer - 1] == LF)
  {
    var r := ReadLines(data, pos, budget);
    TilesOffsets(data, pos, r.lines);
  }

  /** A budget that is not positive reads nothing and keeps the offset. */
  lemma NoBudgetNoLines(data: seq<byte>, pos: nat, budget: int)
    requires budget <= 0
    ensures ReadLines(data, pos, budget) == Read([], pos)
  {
  }

  /** The contract of `ReadLines` pins its result down: any consecutive
      run of complete lines that fits the budget and stops only at the
      budget or at the last line feed is exactly what `ReadLines` returns. */
  lemma {:induction false} ReadLinesUnique(data: seq<byte>, pos: nat, budget: int, lines: seq<LineRead>)
    requires Tiles(data, pos, lines)
    requires |lines| <= Max0(budget)
    requires |lines| < budget ==> NoLineFeedFrom(data, LastEnd(pos, lines))
    ensures ReadLines(data, pos, budget) == Read(lines, LastEnd(pos, lines))
    decreases |lines|
  {
    if lines == [] {
      if budget > 0 {
        assert ReadLine(data, pos).None?;
      }
    } else {
      var l := lines[0];
      LineAtUnique(data, pos, l, ReadLine(data, pos).value);
      assert LastEnd(l.end, lines[1..]) == LastEnd(pos, lines);
      ReadLinesUnique(data, l.end, budget - 1, lines[1..]);
      assert [l] + lines[1..] == lines;
    }
  }

  /** Resumption round trip: reading `n` lines, then `m` more from the
      returned pointer, gives exactly what one read of `n + m` lines gives,
      with no line lost or repeated. */
  lemma Resume(data: seq<byte>, pos: nat, n: nat, m: nat)
    ensures ReadLines(data, pos, n + m) ==
      Read(ReadLines(data, pos, n).lines + ReadLines(data, ReadLines(data, pos, n).pointer, m).lines,
           ReadLines(data, ReadLines(data, pos, n).pointer, m).pointer)
  {
    ScanResume(data, pos, n, m);
  }

  lemma {:induction false} ScanResume(data: seq<byte>, pos: nat, n: nat, m: nat)
    ensures ScanLines(data, pos, n + m) ==
      Read(ScanLines(data, pos, n).lines + ScanLines(data, ScanLines(data, pos, n).pointer, m).lines,
           ScanLines(data, ScanLines(data, pos, n).pointer, m).pointer)
    decreases n
  {
    var line := ReadLine(data, pos);
    if n > 0 && line.Some? {
      var l := line.value;
      var rest := ScanLines(data, l.end, n - 1);
      ScanResume(data, l.end, n - 1, m);
      assert n + m - 1 == (n - 1) + m;
      var second := ScanLines(data, rest.pointer, m);
      assert ([l] + rest.lines) + second.lines == [l] + (rest.lines + second.lines);
    } else {
      assert [] + ScanLines(data, pos, m).lines == ScanLines(data, pos, m).lines;
    }
  }

  /** Reading again from a pointer that was not stopped by the budget, when
      nothing has been appended, yields no line and the same pointer. */
  lemma RereadIsEmpty(data: seq<byte>, pos: nat, n: int, m: int)
    requires |ReadLines(data, pos, n).lines| < n
    ensures ReadLines(data, ReadLines(data, pos, n).pointer, m) == Read([], ReadLines(data, pos, n).pointer)
  {
  }

  /** Appending to the file only adds lines after those already read: an
      earlier read is a prefix of a later one with the same budget. */
  lemma ReadLinesAppend(data: seq<byte>, more: seq<byte>, pos: nat, budget: int)
    ensures ReadLines(data, pos, budget).lines <= ReadLines(data + more, pos, budget).lines
  {
    ScanAppend(data, more, pos, budget);
  }

  lemma {:induction false} ScanAppend(data: seq<byte>, more: seq<byte>, pos: nat, budget: int)
    ensures ScanLines(data, pos, budget).lines <= ScanLines(data + more, pos, budget).lines
    decreases |data| - pos
  {
    if budget > 0 && ReadLine(data, pos).Some? {
      var l := ReadLine(data, pos).value;
      ReadLineStable(data, more, pos);
      ScanAppend(data, more, l.end, budget - 1);
      var before := ScanLines(data, l.end, budget - 1).lines;
      var after := ScanLines(data + more, l.end, budget - 1).lines;
      assert ScanLines(data, pos, budget).lines == [l] + before;
      assert ScanLines(data + more, pos, budget).lines == [l] + after;
    }
  }

  /** The unterminated fragment after the last line feed is never consumed:
      the pointer never passes the last line feed's successor. */
  lemma FragmentNotConsumed(data: seq<byte>, pos: nat, budget: int, f: nat)
    requires pos <= f <= |data|
    requires NoLineFeedFrom(data, f)
    ensures ReadLines(data, pos, budget).pointer <= f
  {
    var r := ReadLines(data, pos, budget);
    TilesOffsets(data, pos, r.lines);
    if r.lines != [] {
      var e := r.lines[|r.lines| - 1].end;
      assert data[e - 1] == LF;
    }
  }

  /** The worked example: "foo\nbar\r\nbaz" yields "foo" and "bar" and parks
      after "bar\r\n"; once "\n" is appended, the next read yields "baz" and
      parks at the end of the file. */
  lemma TailExample()
    ensures var data: seq<byte> := [0x66, 0x6F, 0x6F, LF, 0x62, 0x61, 0x72, CR, LF, 0x62, 0x61, 0x7A];
            ReadLines(data, 0, 2) == Read([LineRead("foo", 4), LineRead("bar", 9)], 9)
            && ReadLines(data + [LF], 9, 2) == Read([LineRead("baz", 13)], 13)
  {
    var data: seq<byte> := [0x66, 0x6F, 0x6F, LF, 0x62, 0x61, 0x72, CR, LF, 0x62, 0x61, 0x7A];
    DecodePlainBytes(data[0..3]);
    assert Decode(data[0..3]) == "foo";
    assert data[4..8] == data[4..7] + CRs(1);
    TrailingCRsDropped(data[4..7], 1);
    DecodePlainBytes(data[4..7]);
    assert Decode(data[4..8]) == "bar";
    var d2 := data + [LF];
    DecodePlainBytes(d2[9..12]);
    assert Decode(d2[9..12]) == "baz";
    var lines := [LineRead("foo", 4), LineRead("bar", 9)];
    assert lines[1..] == [LineRead("bar", 9)];
    assert Tiles(data, 9, []);
    assert Tiles(data, 4, lines[1..]);
    assert Tiles(data, 0, lines);
    ReadLinesUnique(data, 0, 2, lines);
    assert Tiles(d2, 13, []);
    assert Tiles(d2, 9, [LineRead("baz", 13)]);
    ReadLinesUnique(d2, 9, 2, [LineRead("baz", 13)]);
  }
}
