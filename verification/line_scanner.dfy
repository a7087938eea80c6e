/** The byte-at-a-time line scanner: a line ends at a line feed, carriage
    returns directly before the line feed are dropped, and running out of
    data before a line feed yields no line at all. */
module LineScanner {
  import opened Common

  /** A complete line: its text and the offset just after its line feed. */
  datatype LineRead = LineRead(text: seq<char>, end: nat)

  /** Whether byte `i` of a line body shows up in the decoded text: every
      byte except a carriage return that is not directly followed by an
      ordinary (non-CR) byte. So of a run of CRs only the last can survive,
      and only when something other than the end of the line follows. */
  predicate Kept(s: seq<byte>, i: nat)
    requires i < |s|
  {
    s[i] != CR || (i + 1 < |s| && s[i + 1] != CR)
  }

  /** Reference decoding of a line body (the bytes before its line feed):
      the kept bytes, each cast to a character. */
  function Decode(s: seq<byte>): seq<char>
  {
    if s == [] then []
    else (if Kept(s, 0) then [AsChar(s[0])] else []) + Decode(s[1..])
  }

  /** Reference meaning of "the line at `pos`": the first line feed at or
      after `pos` sits at `l.end - 1`, and `l.text` decodes the bytes before it. */
  ghost predicate IsLineAt(data: seq<byte>, pos: nat, l: LineRead)
  {
    && pos < l.end <= |data|
    && data[l.end - 1] == LF
    && (forall k :: pos <= k < l.end - 1 ==> data[k] != LF)
    && l.text == Decode(data[pos..l.end - 1])
  }

  /** The scanning loop, one byte per call: `acc` is the buffer built so
      far and `seenCR` records a carriage return waiting for its successor. */
  function ScanLine(data: seq<byte>, i: nat, acc: seq<char>, seenCR: bool): Option<LineRead>
    decreases |data| - i
  {
    if i >= |data| then None
    else if data[i] == LF then Some(LineRead(acc, i + 1))
    else if data[i] == CR then ScanLine(data, i + 1, acc, true)
    else ScanLine(data, i + 1, acc + (if seenCR then ['\r'] else []) + [AsChar(data[i])], false)
  }

  /** Reads the next line starting at byte offset `pos`. */
  function ReadLine(data: seq<byte>, pos: nat): (r: Option<LineRead>)
    ensures r.None? <==> NoLineFeedFrom(data, pos)
    ensures r.Some? ==> IsLineAt(data, pos, r.value)
    ensures r.Some? ==> '\n' !in r.value.text
  {
    ScanFromStart(data, pos);
    ScanLine(data, pos, [], false)
  }

  /** Starting the scan at `pos` with an empty buffer finds the line at `pos`. */
  lemma ScanFromStart(data: seq<byte>, pos: nat)
    ensures ScanLine(data, pos, [], false).None? <==> NoLineFeedFrom(data, pos)
    ensures ScanLine(data, pos, [], false).Some? ==> IsLineAt(data, pos, ScanLine(data, pos, [], false).value)
    ensures ScanLine(data, pos, [], false).Some? ==> '\n' !in ScanLine(data, pos, [], false).value.text
  {
    if pos <= |data| {
      assert data[pos..pos] == [];
      ScanLineMatchesDecode(data, pos, pos, [], false);
    }
    var r := ScanLine(data, pos, [], false);
    if r.Some? {
      DecodeHasNoLineFeed(data[pos..r.value.end - 1]);
    }
  }

  /** Appending one byte to a line body: a CR adds nothing yet, and an
      ordinary byte releases a held CR (if the body ended in one) before
      itself. */
  lemma {:induction false} DecodeSnoc(p: seq<byte>, b: byte)
    ensures b == CR ==> Decode(p + [b]) == Decode(p)
    ensures b != CR ==>
      Decode(p + [b]) == Decode(p) + (if |p| > 0 && p[|p| - 1] == CR then ['\r'] else []) + [AsChar(b)]
  {
    if p == [] {
      assert p + [b] == [b];
      assert [b][1..] == [];
    } else {
      assert (p + [b])[1..] == p[1..] + [b];
      DecodeSnoc(p[1..], b);
      if |p| == 1 {
        assert p[1..] == [];
      }
    }
  }

  /** The scanner's buffer always equals the reference decoding of the
      bytes consumed so far, so it returns exactly the line at `pos`. */
  lemma {:induction false} ScanLineMatchesDecode(data: seq<byte>, pos: nat, i: nat, acc: seq<char>, seenCR: bool)
    requires pos <= i <= |data|
    requires forall k :: pos <= k < i ==> data[k] != LF
    requires acc == Decode(data[pos..i])
    requires seenCR == (pos < i && data[i - 1] == CR)
    ensures ScanLine(data, i, acc, seenCR).None? <==> NoLineFeedFrom(data, i)
    ensures ScanLine(data, i, acc, seenCR).Some? ==> IsLineAt(data, pos, ScanLine(data, i, acc, seenCR).value)
    decreases |data| - i
  {
    if i < |data| && data[i] != LF {
      assert data[pos..i + 1] == data[pos..i] + [data[i]];
      DecodeSnoc(data[pos..i], data[i]);
      if data[i] == CR {
        ScanLineMatchesDecode(data, pos, i + 1, acc, true);
      } else {
        ScanLineMatchesDecode(data, pos, i + 1, acc + (if seenCR then ['\r'] else []) + [AsChar(data[i])], false);
      }
    }
  }

  /** A decoded body free of line feeds has no '\n' character. */
  lemma {:induction false} DecodeHasNoLineFeed(s: seq<byte>)
    requires forall k :: 0 <= k < |s| ==> s[k] != LF
    ensures '\n' !in Decode(s)
  {
    if s != [] {
      DecodeHasNoLineFeed(s[1..]);
    }
  }

  /** A body without carriage returns decodes byte for byte. */
  lemma {:induction false} DecodePlainBytes(s: seq<byte>)
    requires forall k :: 0 <= k < |s| ==> s[k] != CR
    ensures |Decode(s)| == |s|
    ensures forall k :: 0 <= k < |s| ==> Decode(s)[k] == AsChar(s[k])
  {
    if s != [] {
      DecodePlainBytes(s[1..]);
    }
  }

  /** A run of `n` carriage returns. */
  function CRs(n: nat): (r: seq<byte>)
    ensures |r| == n && forall k :: 0 <= k < n ==> r[k] == CR
  {
    if n == 0 then [] else [CR] + CRs(n - 1)
  }

  /** A run of CRs at the end of a body (that is, before the line feed)
      contributes nothing. */
  lemma {:induction false} TrailingCRsDropped(s: seq<byte>, n: nat)
    ensures Decode(s + CRs(n)) == Decode(s)
  {
    if n > 0 {
      assert s + CRs(n) == (s + CRs(n - 1)) + [CR];
      DecodeSnoc(s + CRs(n - 1), CR);
      TrailingCRsDropped(s, n - 1);
    } else {
      assert s + CRs(n) == s;
    }
  }

  /** A run of one or more CRs followed by an ordinary byte contributes
      exactly one literal '\r' before that byte. */
  lemma CRRunCollapses(s: seq<byte>, n: nat, b: byte)
    requires n >= 1 && b != CR
    ensures Decode(s + CRs(n) + [b]) == Decode(s) + ['\r', AsChar(b)]
  {
    var p := s + CRs(n);
    assert p[|p| - 1] == CR;
    DecodeSnoc(p, b);
    TrailingCRsDropped(s, n);
  }

  /** There is only one complete line at a given offset. */
  lemma LineAtUnique(data: seq<byte>, pos: nat, a: LineRead, b: LineRead)
    requires IsLineAt(data, pos, a) && IsLineAt(data, pos, b)
    ensures a == b
  {
  }

  /** Appending bytes to the file never changes a line already complete. */
  lemma ReadLineStable(data: seq<byte>, more: seq<byte>, pos: nat)
    requires ReadLine(data, pos).Some?
    ensures ReadLine(data + more, pos) == ReadLine(data, pos)
  {
    var l := ReadLine(data, pos).value;
    var d := data + more;
    assert d[pos..l.end - 1] == data[pos..l.end - 1];
    assert IsLineAt(d, pos, l);
    assert !NoLineFeedFrom(d, pos) by {
      assert d[l.end - 1] == LF;
    }
    LineAtUnique(d, pos, l, ReadLine(d, pos).value);
  }

  /** The three carriage-return rules on a concrete line "a\r\r\rb\r\r\n". */
  lemma CarriageReturnExample()
    ensures ReadLine([0x61, CR, CR, CR, 0x62, CR, CR, LF], 0) == Some(LineRead(['a', '\r', 'b'], 8))
  {
    var data: seq<byte> := [0x61, CR, CR, CR, 0x62, CR, CR, LF];
    assert data[0..7] == [0x61] + CRs(3) + [0x62] + CRs(2);
    TrailingCRsDropped([0x61] + CRs(3) + [0x62], 2);
    CRRunCollapses([0x61], 3, 0x62);
    DecodePlainBytes([0x61]);
    assert Decode(data[0..7]) == ['a', '\r', 'b'];
    assert !NoLineFeedFrom(data, 0) by {
      assert data[7] == LF;
    }
    var l := ReadLine(data, 0).value;
    assert l.end == 8;
  }
}
