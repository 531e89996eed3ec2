/** Writing chunked content (evd/evd-http-connection.c), and its round trip through the decoder. */
module ChunkedEncoder {
  import opened Prelude
  import opened Hex
  import opened ChunkedDecoder

  /** `evd_http_connection_write_chunk`: the size is cut to 32 bits by its cast. */
  function EncodeChunk(b: seq<Byte>): seq<Byte> {
    Print(|b| % TWO32) + CRLF + b + CRLF
  }

  /** `evd_http_connection_write_content` in chunked mode. */
  function EncodeContent(b: seq<Byte>, more: bool): seq<Byte> {
    (if b == [] then [] else EncodeChunk(b)) + (if more then [] else EncodeChunk([]))
  }

  /** A run of calls of which the last one says that there is no more. */
  function EncodeRun(parts: seq<seq<Byte>>): seq<Byte>
    requires parts != []
  {
    if |parts| == 1 then EncodeContent(parts[0], false)
    else EncodeContent(parts[0], true) + EncodeRun(parts[1..])
  }

  // ---- what the decoder makes of a chunk

  /** Size digits are collected. */
  lemma {:induction false} HeaderDigits(d: Decoder, s: seq<Byte>)
    requires ValidDecoder(d) && d.status == READING_CHUNK_HEADER && forall i :: 0 <= i < |s| ==> IsHeaderByte(s[i])
    ensures DecodeAll(d, s) == Result(d.(hdr := d.hdr + s), |s|, [], More)
    ensures |d.hdr| + |s| < HDR_BUF_SIZE ==> FieldsFit(d, s)
    decreases |s|
  {
    if s == [] {
      assert d.hdr + [] == d.hdr;
    } else {
      var e := d.(hdr := d.hdr + [s[0]]);
      assert OneByte(d, s[0]) == Step(e, [], More);
      HeaderDigits(e, s[1..]);
      assert d.hdr + [s[0]] + s[1..] == d.hdr + s;
    }
  }

  /** The decoder after a size line: in the content, or finished. */
  lemma SizeLine(n: nat)
    requires n < TWO32
    ensures var r := DecodeAll(FRESH, Print(n) + CRLF);
            && r.used == |Print(n)| + 2 && r.out == []
            && (n > 0 ==> r.verdict == More && r.d == Decoder(READING_CONTENT, n, [], 0))
            && (n == 0 ==> r.verdict == Finished)
    ensures FieldsFit(FRESH, Print(n) + CRLF)
  {
    var p := Print(n);
    PrintLength32(n);
    HeaderDigits(FRESH, p);
    assert [] + p == p;
    var d := FRESH.(hdr := p);
    DecodeConcat(FRESH, p, CRLF);
    SizeEnds(d, n);
    FitsConcat(FRESH, p, CRLF);
  }

  lemma SizeEnds(d: Decoder, n: nat)
    requires n < TWO32 && d == FRESH.(hdr := Print(n)) && |Print(n)| < HDR_BUF_SIZE
    ensures var r := DecodeAll(d, CRLF);
            && r.used == 2 && r.out == []
            && (n > 0 ==> r.verdict == More && r.d == Decoder(READING_CONTENT, n, [], 0))
            && (n == 0 ==> r.verdict == Finished)
    ensures FieldsFit(d, CRLF)
  {
    ScanPrint(n, [], |Print(n)|);
    assert Print(n) + [] == Print(n);
    var e := Decoder(READING_CRLF_1, n, [], 1);
    assert OneByte(d, CR) == Step(e, [], More);
    assert CRLF[1..] == [LF] && [LF][1..] == [];
    var b := OneByte(e, LF);
    assert DecodeAll(e, [LF]) == if n == 0 then Result(b.d, 1, [], Finished) else After(1, [], DecodeAll(b.d, []));
  }

  lemma ChunkEnd()
    ensures var d := Decoder(READING_CRLF_2, 0, [], 0);
            ValidDecoder(d) && DecodeAll(d, CRLF) == Result(FRESH, 2, [], More) && FieldsFit(d, CRLF)
  {
    var d, e := Decoder(READING_CRLF_2, 0, [], 0), Decoder(READING_CRLF_2, 0, [], 1);
    assert OneByte(d, CR) == Step(e, [], More) && OneByte(e, LF) == Step(FRESH, [], More);
    assert CRLF[1..] == [LF] && [LF][1..] == [];
    assert DecodeAll(e, [LF]) == After(1, [], DecodeAll(FRESH, []));
    assert FieldsFit(e, [LF]) by { assert FieldsFit(FRESH, []); }
  }

  lemma {:induction false} ContentFits(d: Decoder, b: seq<Byte>)
    requires ValidDecoder(d) && d.status == READING_CONTENT && d.left == |b|
    ensures FieldsFit(d, b)
    decreases |b|
  {
    var e := Taken(d, 1);
    assert OneByte(d, b[0]) == Step(e, [b[0]], More);
    if |b| > 1 { ContentFits(e, b[1..]); }
  }

  const CHUNK_READ := Decoder(READING_CRLF_2, 0, [], 0)

  lemma ContentDecodes(b: seq<Byte>)
    requires 0 < |b| < TWO32
    ensures var s := Print(|b|) + CRLF + b;
            DecodeAll(FRESH, s) == Result(CHUNK_READ, |s|, b, More) && FieldsFit(FRESH, s)
  {
    var line := Print(|b|) + CRLF;
    var d := Decoder(READING_CONTENT, |b|, [], 0);
    SizeLine(|b|);
    BulkCopyAll(d, b);
    DecodeConcat(FRESH, line, b);
    ContentFits(d, b);
    FitsConcat(FRESH, line, b);
    assert [] + b == b;
  }

  /** A chunk of content comes out as it went in. */
  lemma ChunkDecodes(b: seq<Byte>)
    requires 0 < |b| < TWO32
    ensures DecodeAll(FRESH, EncodeChunk(b)) == Result(FRESH, |EncodeChunk(b)|, b, More)
    ensures FieldsFit(FRESH, EncodeChunk(b))
  {
    var s := Print(|b|) + CRLF + b;
    ContentDecodes(b);
    ThenChunkEnd(FRESH, s, b);
    assert EncodeChunk(b) == s + CRLF;
  }

  lemma ThenChunkEnd(d: Decoder, s: seq<Byte>, b: seq<Byte>)
    requires ValidDecoder(d) && FieldsFit(d, s) && DecodeAll(d, s) == Result(CHUNK_READ, |s|, b, More)
    ensures DecodeAll(d, s + CRLF) == Result(FRESH, |s| + 2, b, More) && FieldsFit(d, s + CRLF)
  {
    ChunkEnd();
    DecodeConcat(d, s, CRLF);
    FitsConcat(d, s, CRLF);
    assert b + [] == b;
  }

  /** The last chunk finishes the decoder, which leaves its closing CRLF unread. */
  lemma LastChunkDecodes()
    ensures var r := DecodeAll(FRESH, EncodeChunk([]));
            r.verdict == Finished && r.out == [] && r.used == |EncodeChunk([])| - 2
    ensures FieldsFit(FRESH, EncodeChunk([]))
  {
    SizeLine(0);
    var line := Print(0) + CRLF;
    assert EncodeChunk([]) == line + CRLF;
    DecodeConcat(FRESH, line, CRLF);
    FitsConcat(FRESH, line, CRLF);
  }

  /** How a run that ends with a last chunk decodes. */
  ghost predicate DecodesTo(wire: seq<Byte>, content: seq<Byte>) {
    && FieldsFit(FRESH, wire)
    && var r := DecodeAll(FRESH, wire);
       r.verdict == Finished && r.out == content && r.used == |wire| - 2 && wire[r.used..] == CRLF
  }

  lemma LastContent(b: seq<Byte>)
    requires |b| < TWO32
    ensures DecodesTo(EncodeContent(b, false), b)
  {
    LastChunkDecodes();
    var last := EncodeChunk([]);
    assert last[|last| - 2..] == CRLF;
    if b == [] {
      assert EncodeContent(b, false) == last;
    } else {
      var wire := EncodeChunk(b) + last;
      assert EncodeContent(b, false) == wire;
      ChunkDecodes(b);
      DecodeConcat(FRESH, EncodeChunk(b), last);
      FitsConcat(FRESH, EncodeChunk(b), last);
      assert b + [] == b;
      assert wire[|wire| - 2..] == CRLF;
    }
  }

  lemma MoreContent(b: seq<Byte>, wire: seq<Byte>, content: seq<Byte>)
    requires |b| < TWO32 && DecodesTo(wire, content)
    ensures DecodesTo(EncodeContent(b, true) + wire, b + content)
  {
    if b == [] {
      assert EncodeContent(b, true) + wire == wire && b + content == content;
    } else {
      assert EncodeContent(b, true) == EncodeChunk(b);
      ChunkDecodes(b);
      DecodeConcat(FRESH, EncodeChunk(b), wire);
      FitsConcat(FRESH, EncodeChunk(b), wire);
      var all := EncodeChunk(b) + wire;
      assert all[|all| - 2..] == wire[|wire| - 2..];
    }
  }

  /** Every run of chunked writes decodes to the concatenated content, up to the final CRLF. */
  lemma {:induction false} RunDecodes(parts: seq<seq<Byte>>)
    requires parts != [] && forall i :: 0 <= i < |parts| ==> |parts[i]| < TWO32
    ensures DecodesTo(EncodeRun(parts), Concat(parts))
    decreases |parts|
  {
    if |parts| == 1 {
      LastContent(parts[0]);
      assert parts[1..] == [];
      assert Concat(parts) == parts[0] + [];
    } else {
      RunDecodes(parts[1..]);
      MoreContent(parts[0], EncodeRun(parts[1..]), Concat(parts[1..]));
    }
  }

  /** The same, whatever pieces the wire arrives in and whatever room each call of the converter is given. */
  lemma RoundTrip(parts: seq<seq<Byte>>, calls: seq<Call>)
    requires parts != [] && forall i :: 0 <= i < |parts| ==> |parts[i]| < TWO32
    requires |calls| >= |EncodeRun(parts)|
    requires forall i :: 0 <= i < |calls| ==> calls[i].shown >= 1 && calls[i].room >= 1
    ensures var wire := EncodeRun(parts);
            var r := Session(FRESH, wire, calls);
            && FieldsFit(FRESH, wire)
            && r.verdict == Finished && r.out == Concat(parts)
            && r.used == |wire| - 2 && wire[r.used..] == CRLF
  {
    RunDecodes(parts);
    SessionEnds(FRESH, EncodeRun(parts), calls);
  }

  /** The size line is right exactly for the sizes that fit the cast. */
  lemma SizeLineExact(b: seq<Byte>)
    ensures Scan(EncodeChunk(b), 9) == Some(|b|) <==> |b| < TWO32
  {
    var n := |b| % TWO32;
    var t := CRLF + b + CRLF;
    PrintLength32(n);
    assert EncodeChunk(b) == Print(n) + t;
    assert t[0] == CR;
    ScanPrint(n, t, 9);
  }
}
