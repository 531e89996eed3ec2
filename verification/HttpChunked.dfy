/**
  The converter object of evd/evd-http-chunked-decoder.c, the loop around it in
  evd/evd-http-connection.c, and the chunked writer.
 */
module HttpChunked {
  import opened Prelude
  import opened Hex
  import opened ChunkedDecoder
  import opened ChunkedEncoder
  import opened ChunkedGrammar
  import opened ChunkedEquivalence

  datatype ConverterResult = CONVERTER_ERROR | CONVERTER_CONVERTED | CONVERTER_FINISHED | CONVERTER_FLUSHED

  function ResultOf(v: Verdict, flush: bool): ConverterResult {
    if v == Failed then CONVERTER_ERROR
    else if flush then CONVERTER_FLUSHED
    else if v == Finished then CONVERTER_FINISHED
    else CONVERTER_CONVERTED
  }

  class Converter {
    var chunkLeft: nat
    var status: Status
    const hdrBuf: array<Byte>
    var hdrLen: nat
    var crlfPos: nat

    ghost predicate Valid()
      reads this, hdrBuf
    {
      hdrBuf.Length == HDR_BUF_SIZE && hdrLen < HDR_BUF_SIZE && ValidDecoder(Abs())
    }

    ghost function Abs(): Decoder
      reads this, hdrBuf
      requires hdrLen <= hdrBuf.Length
    {
      Decoder(status, chunkLeft, hdrBuf[..hdrLen], crlfPos)
    }

    constructor ()
      ensures Valid() && Abs() == FRESH && fresh(hdrBuf)
    {
      hdrBuf := new Byte[HDR_BUF_SIZE](i => 0);
      status, chunkLeft, hdrLen, crlfPos := READING_CHUNK_HEADER, 0, 0, 0;
    }

    method Reset()
      requires Valid()
      modifies this`status, this`chunkLeft, this`hdrLen, this`crlfPos
      ensures Valid() && Abs() == FRESH
    {
      status, chunkLeft, hdrLen, crlfPos := READING_CHUNK_HEADER, 0, 0, 0;
    }

    /** READING_CHUNK_HEADER on a byte that belongs to the field. */
    method CollectDigit(c: Byte)
      requires Valid() && status == READING_CHUNK_HEADER && hdrLen + 1 < HDR_BUF_SIZE
      modifies this`hdrLen, hdrBuf
      ensures Valid() && Abs() == old(Abs()).(hdr := old(Abs()).hdr + [c])
    {
      hdrBuf[hdrLen] := c;
      hdrLen := hdrLen + 1;
    }

    /** READING_CHUNK_HEADER on the byte after the field: nothing is consumed. */
    method ConvertField()
      requires Valid() && status == READING_CHUNK_HEADER && hdrLen > 0
      modifies this`status, this`chunkLeft, this`hdrLen, hdrBuf
      ensures Valid() && Abs() == FieldRead(old(Abs()))
    {
      ghost var field := hdrBuf[..hdrLen];
      hdrBuf[hdrLen] := 0;
      assert hdrBuf[..hdrLen] == field;
      match Scan(hdrBuf[..hdrLen], hdrLen) {
        case None =>
        case Some(n) => chunkLeft := n % TWO32;
      }
      hdrLen := 0;
      status := READING_CRLF_1;
    }

    /** READING_CRLF_1 and READING_CRLF_2. */
    method CrlfChar(c: Byte) returns (v: Verdict)
      requires Valid() && (status == READING_CRLF_1 || status == READING_CRLF_2)
      modifies this`status, this`crlfPos
      ensures Valid() && Step(Abs(), [], v) == CrlfByte(old(Abs()), c)
    {
      v := More;
      if crlfPos == 0 {
        if c == CR { crlfPos := crlfPos + 1; } else { v := Failed; }
      } else {
        if c == LF {
          crlfPos := 0;
          if status == READING_CRLF_1 {
            if chunkLeft == 0 { v := Finished; } else { status := READING_CONTENT; }
          } else {
            status := READING_CHUNK_HEADER;
          }
        } else {
          v := Failed;
        }
      }
    }

    /** READING_CONTENT: as many bytes as the chunk, the input and the output allow. */
    method CopyContent(inbuf: seq<Byte>, pos: nat, outbuf: array<Byte>, bw: nat) returns (n: nat)
      requires Valid() && status == READING_CONTENT && outbuf != hdrBuf
      requires pos < |inbuf| && bw < outbuf.Length
      modifies this`status, this`chunkLeft, outbuf
      ensures Valid() && 1 <= n <= old(chunkLeft) && n <= |inbuf| - pos && n <= outbuf.Length - bw
      ensures Abs() == Taken(old(Abs()), n)
      ensures outbuf[..bw + n] == old(outbuf[..bw]) + inbuf[pos..pos + n]
    {
      n := Min(chunkLeft, |inbuf| - pos);
      n := Min(n, outbuf.Length - bw);
      ghost var before := outbuf[..bw];
      forall i | 0 <= i < n {
        outbuf[bw + i] := inbuf[pos + i];
      }
      assert outbuf[..bw + n] == before + inbuf[pos..pos + n];
      chunkLeft := chunkLeft - n;
      if chunkLeft == 0 {
        status := READING_CRLF_2;
      }
    }

    /** What is left of a call: input from pos, room from bw. */
    ghost predicate Remains(inbuf: seq<Byte>, room: nat, start: Decoder, pos: nat, out: seq<Byte>)
      reads this, hdrBuf
      requires ValidDecoder(start)
    {
      && Valid() && pos <= |inbuf| && |out| <= room
      && FieldsFit(Abs(), inbuf[pos..])
      && Decode(start, inbuf, room) == After(pos, out, Decode(Abs(), inbuf[pos..], room - |out|))
    }

    /** Where a turn leaves the call: further on, or at a verdict. */
    ghost predicate Turned(inbuf: seq<Byte>, room: nat, start: Decoder, v: Verdict, pos: nat, out: seq<Byte>)
      reads this, hdrBuf
      requires ValidDecoder(start)
    {
      if v == More then Remains(inbuf, room, start, pos, out)
      else Valid() && Decode(start, inbuf, room) == Result(Abs(), pos, out, v)
    }

    /** A turn in a size field; at its end nothing is consumed. */
    method TurnHeader(inbuf: seq<Byte>, pos: nat, ghost room: nat, ghost start: Decoder, ghost out: seq<Byte>)
      returns (v: Verdict, pos': nat)
      requires ValidDecoder(start) && pos < |inbuf| && |out| < room && Remains(inbuf, room, start, pos, out)
      requires status == READING_CHUNK_HEADER
      modifies this, hdrBuf
      ensures pos <= pos' <= |inbuf| && Turned(inbuf, room, start, v, pos', out)
      ensures v == More ==> pos' > pos || status != READING_CHUNK_HEADER
    {
      ghost var d, rest := Abs(), inbuf[pos..];
      var c := inbuf[pos];
      assert rest[0] == c && rest[1..] == inbuf[pos + 1..];
      v, pos' := More, pos;
      if IsHexByte(c) || c == 32 {
        assert OneByte(d, c) == Step(d.(hdr := d.hdr + [c]), [], More);
        FitsHere(d.(hdr := d.hdr + [c]), rest[1..]);
        CollectDigit(c);
        pos' := pos + 1;
        AfterByte(d, rest, room - |out|, pos, out);
      } else if hdrLen > 0 {
        ConvertField();
        SameNextByte(d, Abs(), rest, room - |out|);
      } else {
        v := Failed;
        assert OneByte(d, c) == Step(d, [], Failed);
        StopsHere(d, rest, room - |out|, pos, out);
      }
    }

    method TurnCrlf(inbuf: seq<Byte>, pos: nat, ghost room: nat, ghost start: Decoder, ghost out: seq<Byte>)
      returns (v: Verdict, pos': nat)
      requires ValidDecoder(start) && pos < |inbuf| && |out| < room && Remains(inbuf, room, start, pos, out)
      requires status == READING_CRLF_1 || status == READING_CRLF_2
      modifies this`status, this`crlfPos
      ensures pos <= pos' <= |inbuf| && Turned(inbuf, room, start, v, pos', out)
      ensures v == More ==> pos' > pos
    {
      ghost var d, rest := Abs(), inbuf[pos..];
      assert rest[0] == inbuf[pos] && rest[1..] == inbuf[pos + 1..];
      v := CrlfChar(inbuf[pos]);
      assert OneByte(d, rest[0]) == Step(Abs(), [], v);
      pos' := if v == Failed then pos else pos + 1;
      if v == More {
        AfterByte(d, rest, room - |out|, pos, out);
      } else {
        StopsHere(d, rest, room - |out|, pos, out);
      }
    }

    method TurnContent(inbuf: seq<Byte>, pos: nat, outbuf: array<Byte>, bw: nat, ghost start: Decoder) returns (n: nat)
      requires ValidDecoder(start) && outbuf != hdrBuf && pos < |inbuf| && bw < outbuf.Length
      requires Remains(inbuf, outbuf.Length, start, pos, outbuf[..bw]) && status == READING_CONTENT
      modifies this`status, this`chunkLeft, outbuf
      ensures 1 <= n && bw + n <= outbuf.Length
      ensures Remains(inbuf, outbuf.Length, start, pos + n, outbuf[..bw + n])
    {
      ghost var d, rest, out := Abs(), inbuf[pos..], outbuf[..bw];
      n := CopyContent(inbuf, pos, outbuf, bw);
      assert rest[..n] == inbuf[pos..pos + n];
      DropDrop(inbuf, pos, n);
      AfterCopy(d, rest, outbuf.Length - bw, n, pos, out);
    }

    /** One turn of the loop of `convert`. */
    method Turn(inbuf: seq<Byte>, pos: nat, outbuf: array<Byte>, bw: nat, ghost start: Decoder)
      returns (v: Verdict, pos': nat, bw': nat)
      requires ValidDecoder(start) && outbuf != hdrBuf && pos < |inbuf| && bw < outbuf.Length
      requires Remains(inbuf, outbuf.Length, start, pos, outbuf[..bw])
      modifies this, hdrBuf, outbuf
      ensures pos <= pos' <= |inbuf| && bw <= bw' <= outbuf.Length
      ensures Turned(inbuf, outbuf.Length, start, v, pos', outbuf[..bw'])
      ensures v == More ==> pos' > pos || (old(status) == READING_CHUNK_HEADER && status != READING_CHUNK_HEADER)
    {
      v, pos', bw' := More, pos, bw;
      match status {
        case READING_CHUNK_HEADER => v, pos' := TurnHeader(inbuf, pos, outbuf.Length, start, outbuf[..bw]);
        case READING_CONTENT =>
          var n := TurnContent(inbuf, pos, outbuf, bw, start);
          pos', bw' := pos + n, bw + n;
        case _ => v, pos' := TurnCrlf(inbuf, pos, outbuf.Length, start, outbuf[..bw]);
      }
    }

    /** `convert`: it terminates, and refines the automaton for every input and every output size. */
    method Convert(inbuf: seq<Byte>, outbuf: array<Byte>, flush: bool)
      returns (result: ConverterResult, bytesRead: nat, bytesWritten: nat)
      requires Valid() && outbuf != hdrBuf && FieldsFit(Abs(), inbuf)
      modifies this, hdrBuf, outbuf
      ensures Valid() && bytesWritten <= outbuf.Length
      ensures Converts(old(Abs()), inbuf, outbuf.Length, Abs(), bytesRead, outbuf[..bytesWritten], result, flush)
    {
      ghost var start := Abs();
      var v := More;
      bytesRead, bytesWritten := 0, 0;
      assert Remains(inbuf, outbuf.Length, start, 0, outbuf[..0]) by {
        assert inbuf[0..] == inbuf && outbuf[..0] == [];
        assert [] + Decode(start, inbuf, outbuf.Length).out == Decode(start, inbuf, outbuf.Length).out;
      }
      while v == More && bytesRead < |inbuf| && bytesWritten < outbuf.Length
        invariant bytesRead <= |inbuf| && bytesWritten <= outbuf.Length
        invariant Turned(inbuf, outbuf.Length, start, v, bytesRead, outbuf[..bytesWritten])
        decreases v == More, |inbuf| - bytesRead, status == READING_CHUNK_HEADER
      {
        v, bytesRead, bytesWritten := Turn(inbuf, bytesRead, outbuf, bytesWritten, start);
      }
      if v == More {
        NothingLeft(start, inbuf, outbuf.Length, Abs(), bytesRead, outbuf[..bytesWritten]);
      }
      result := ResultOf(v, flush);
    }
  }

  ghost predicate Converts(d: Decoder, inbuf: seq<Byte>, room: nat, d': Decoder, used: nat, out: seq<Byte>,
                           result: ConverterResult, flush: bool)
    requires ValidDecoder(d)
  {
    exists v: Verdict :: Decode(d, inbuf, room) == Result(d', used, out, v) && result == ResultOf(v, flush)
  }

  lemma AfterByte(d: Decoder, s: seq<Byte>, room: nat, pos: nat, out: seq<Byte>)
    requires ValidDecoder(d) && s != [] && room > 0 && OneByte(d, s[0]).verdict == More && OneByte(d, s[0]).out == []
    requires FieldsFit(d, s)
    ensures var e := OneByte(d, s[0]).d;
            && ValidDecoder(e) && FieldsFit(e, s[1..])
            && After(pos, out, Decode(d, s, room)) == After(pos + 1, out, Decode(e, s[1..], room))
  {
    OneByteValid(d, s[0]);
  }

  lemma StopsHere(d: Decoder, s: seq<Byte>, room: nat, pos: nat, out: seq<Byte>)
    requires ValidDecoder(d) && s != [] && room > 0 && OneByte(d, s[0]).verdict != More
    ensures var b := OneByte(d, s[0]);
            After(pos, out, Decode(d, s, room)) ==
            Result(b.d, if b.verdict == Failed then pos else pos + 1, out, b.verdict)
  {
    assert out + [] == out;
  }

  lemma FitsHere(d: Decoder, s: seq<Byte>)
    requires ValidDecoder(d) && FieldsFit(d, s)
    ensures |d.hdr| < HDR_BUF_SIZE
  {
  }

  /** Converting the size field changes nothing in what follows. */
  lemma SameNextByte(d: Decoder, e: Decoder, s: seq<Byte>, room: nat)
    requires ValidDecoder(d) && d.status == READING_CHUNK_HEADER && d.hdr != [] && e == FieldRead(d)
    requires s != [] && !IsHeaderByte(s[0]) && FieldsFit(d, s) && room > 0
    ensures ValidDecoder(e) && Decode(e, s, room) == Decode(d, s, room) && FieldsFit(e, s)
  {
    assert OneByte(e, s[0]) == OneByte(d, s[0]);
  }

  lemma AfterCopy(d: Decoder, s: seq<Byte>, room: nat, n: nat, pos: nat, out: seq<Byte>)
    requires ValidDecoder(d) && d.status == READING_CONTENT && FieldsFit(d, s)
    requires 1 <= n <= d.left && n <= |s| && n <= room
    ensures ValidDecoder(Taken(d, n)) && FieldsFit(Taken(d, n), s[n..])
    ensures After(pos, out, Decode(d, s, room)) == After(pos + n, out + s[..n], Decode(Taken(d, n), s[n..], room - n))
  {
    BulkCopy(d, s, room, n);
    FitsAfterCopy(d, s, n);
    Assoc(out, s[..n], Decode(Taken(d, n), s[n..], room - n).out);
  }

  lemma NothingLeft(start: Decoder, inbuf: seq<Byte>, room: nat, d: Decoder, pos: nat, out: seq<Byte>)
    requires ValidDecoder(start) && ValidDecoder(d) && pos <= |inbuf| && |out| <= room
    requires pos == |inbuf| || |out| == room
    requires Decode(start, inbuf, room) == After(pos, out, Decode(d, inbuf[pos..], room - |out|))
    ensures Decode(start, inbuf, room) == Result(d, pos, out, More)
  {
    assert out + [] == out;
  }

  const OUTBUF_SIZE := 1024

  /**
    The chunked branch of `evd_http_connection_process_read_content`: the loop that empties one block into the
    body through a fixed output buffer.  `done` is also raised by an error; the boolean it returns is always
    true, because the function's own result is shadowed inside the branch.
   */
  method ProcessChunkedBlock(decoder: Converter, block: seq<Byte>, body: seq<Byte>)
    returns (body': seq<Byte>, done: bool, ok: bool)
    requires decoder.Valid() && block != [] && FieldsFit(decoder.Abs(), block)
    modifies decoder, decoder.hdrBuf
    ensures decoder.Valid() && ok
    ensures BlockDone(old(decoder.Abs()), block, decoder.Abs(), body, body', done)
  {
    var outbuf := new Byte[OUTBUF_SIZE](i => 0);
    ghost var start := decoder.Abs();
    body' := body;
    var total: nat := 0;
    var result := CONVERTER_CONVERTED;
    var first := true;
    ghost var out: seq<Byte> := [];
    assert block[0..] == block;
    assert [] + DecodeAll(start, block).out == DecodeAll(start, block).out;
    while first || (result != CONVERTER_ERROR && result != CONVERTER_FINISHED && total < |block|)
      invariant decoder.Valid() && fresh(outbuf) && outbuf.Length == OUTBUF_SIZE
      invariant total <= |block| && (first ==> total < |block| && result == CONVERTER_CONVERTED)
      invariant body' == body + out
      invariant Emptied(start, block, decoder.Abs(), total, out, result)
      decreases first, result == CONVERTER_CONVERTED, |block| - total
    {
      first := false;
      ghost var d := decoder.Abs();
      var n, w;
      result, n, w := decoder.Convert(block[total..], outbuf, false);
      LoopTurn(start, block, d, total, out, decoder.Abs(), n, outbuf[..w], result);
      Assoc(body, out, outbuf[..w]);
      body' := body' + outbuf[..w];
      total := total + n;
      out := out + outbuf[..w];
    }
    ok, done := true, false;
    if result == CONVERTER_FINISHED {
      decoder.Reset();
      done := true;
    } else if result == CONVERTER_ERROR {
      decoder.Reset();
      done := true;
    } else {
      AllRead(start, block, decoder.Abs(), out);
    }
  }

  ghost predicate BlockDone(d: Decoder, block: seq<Byte>, d': Decoder, body: seq<Byte>, body': seq<Byte>, done: bool)
    requires ValidDecoder(d)
  {
    var r := DecodeAll(d, block);
    && body' == body + r.out
    && (done <==> r.verdict != More)
    && d' == if done then FRESH else r.d
  }

  /** The loop has used so much of the block and written out; it goes on, or decoding has come to a verdict. */
  ghost predicate Emptied(start: Decoder, block: seq<Byte>, d: Decoder, total: nat, out: seq<Byte>,
                          result: ConverterResult)
  {
    && ValidDecoder(start) && ValidDecoder(d) && total <= |block| && result != CONVERTER_FLUSHED
    && (result == CONVERTER_CONVERTED ==>
          PartOf(start, block, Result(d, total, out, More)) && FieldsFit(d, block[total..]))
    && (result != CONVERTER_CONVERTED ==>
          DecodeAll(start, block).verdict != More && DecodeAll(start, block).out == out)
  }

  lemma LoopTurn(start: Decoder, block: seq<Byte>, d: Decoder, total: nat, out: seq<Byte>, d': Decoder, n: nat,
                 w: seq<Byte>, result: ConverterResult)
    requires Emptied(start, block, d, total, out, CONVERTER_CONVERTED) && total < |block| && ValidDecoder(d')
    requires Converts(d, block[total..], OUTBUF_SIZE, d', n, w, result, false)
    ensures Emptied(start, block, d', total + n, out + w, result) && (result == CONVERTER_CONVERTED ==> n >= 1)
  {
    var rest := block[total..];
    var q := Decode(d, rest, OUTBUF_SIZE);
    DecodeValid(d, rest, OUTBUF_SIZE);
    DecodeIsPart(d, rest, OUTBUF_SIZE);
    PartThenPart(start, block, Result(d, total, out, More), q);
    if q.verdict == More {
      FitsAfterDecode(d, rest, OUTBUF_SIZE);
      DropDrop(block, total, q.used);
    }
  }

  lemma AllRead(start: Decoder, block: seq<Byte>, d: Decoder, out: seq<Byte>)
    requires ValidDecoder(start) && PartOf(start, block, Result(d, |block|, out, More))
    ensures DecodeAll(start, block) == Result(d, |block|, out, More)
  {
    assert block[|block|..] == [] && out + [] == out;
  }

  // ---- a whole body

  /** What was read decodes to the body so far, and decoding goes on. */
  ghost predicate Decoded(start: Decoder, read: seq<Byte>, d: Decoder, body: seq<Byte>) {
    ValidDecoder(start) && ValidDecoder(d) && DecodeAll(start, read) == Result(d, |read|, body, More)
  }

  lemma NextBlock(start: Decoder, read: seq<Byte>, d: Decoder, body: seq<Byte>, block: seq<Byte>, rest: seq<Byte>)
    requires Decoded(start, read, d, body) && FieldsFit(d, block + rest)
    ensures FieldsFit(d, block)
    ensures var r := DecodeAll(d, block);
            if r.verdict == More then Decoded(start, read + block, r.d, body + r.out) && FieldsFit(r.d, rest)
            else
              var all := DecodeAll(start, read + block + rest);
              all.verdict == r.verdict && all.out == body + r.out
  {
    FitsSplit(d, block, rest);
    DecodeConcat(start, read, block);
    DecodeConcat(start, read + block, rest);
    DecodeAllValid(d, block);
  }

  /** Blocks of any sizes, up to the one that ends the content: the body is what the whole input decodes to. */
  method ReadBody(decoder: Converter, blocks: seq<seq<Byte>>) returns (body: seq<Byte>, done: bool)
    requires decoder.Valid() && decoder.Abs() == FRESH
    requires FieldsFit(FRESH, Concat(blocks)) && forall i :: 0 <= i < |blocks| ==> blocks[i] != []
    modifies decoder, decoder.hdrBuf
    ensures decoder.Valid()
    ensures var r := DecodeAll(FRESH, Concat(blocks));
            body == r.out && (done <==> r.verdict != More) && decoder.Abs() == if done then FRESH else r.d
  {
    body, done := [], false;
    var i: nat := 0;
    ghost var read: seq<Byte> := [];
    while i < |blocks| && !done
      invariant i <= |blocks| && decoder.Valid()
      invariant !done ==> Concat(blocks) == read + Concat(blocks[i..])
      invariant !done ==> Decoded(FRESH, read, decoder.Abs(), body) && FieldsFit(decoder.Abs(), Concat(blocks[i..]))
      invariant done ==>
          && decoder.Abs() == FRESH
          && body == DecodeAll(FRESH, Concat(blocks)).out && DecodeAll(FRESH, Concat(blocks)).verdict != More
    {
      ghost var d, rest := decoder.Abs(), Concat(blocks[i + 1..]);
      assert blocks[i..][1..] == blocks[i + 1..];
      Assoc(read, blocks[i], rest);
      NextBlock(FRESH, read, d, body, blocks[i], rest);
      var b, finished, _ := ProcessChunkedBlock(decoder, blocks[i], body);
      body, done := b, finished;
      read := read + blocks[i];
      i := i + 1;
    }
    assert !done ==> read == Concat(blocks);
  }

  /** In particular the content of any chunked body with size fields that the header buffer holds. */
  method ReadChunkedBody(decoder: Converter, blocks: seq<seq<Byte>>, ghost cs: seq<Chunk>, ghost last: seq<Byte>)
    returns (body: seq<Byte>, done: bool)
    requires decoder.Valid() && decoder.Abs() == FRESH && forall i :: 0 <= i < |blocks| ==> blocks[i] != []
    requires ValidBody(cs, last) && ShortFields(cs, last) && BodyText(cs, last) <= Concat(blocks)
    modifies decoder, decoder.hdrBuf
    ensures decoder.Valid() && decoder.Abs() == FRESH && done && body == Content(cs)
  {
    ghost var t := Concat(blocks)[|BodyText(cs, last)|..];
    assert Concat(blocks) == BodyText(cs, last) + t;
    BodyFits(cs, last, t);
    BodyRead(cs, last, t);
    body, done := ReadBody(decoder, blocks);
  }

  /** And what a run of writes put on the wire. */
  method ReadWritten(decoder: Converter, blocks: seq<seq<Byte>>, ghost parts: seq<seq<Byte>>)
    returns (body: seq<Byte>, done: bool)
    requires decoder.Valid() && decoder.Abs() == FRESH && forall i :: 0 <= i < |blocks| ==> blocks[i] != []
    requires parts != [] && forall i :: 0 <= i < |parts| ==> |parts[i]| < TWO32
    requires Concat(blocks) == EncodeRun(parts)
    modifies decoder, decoder.hdrBuf
    ensures decoder.Valid() && decoder.Abs() == FRESH && done && body == Concat(parts)
  {
    RunDecodes(parts);
    body, done := ReadBody(decoder, blocks);
  }

  // ---- the writer

  datatype Encoding = ENCODING_CHUNKED | ENCODING_EOF

  /** A write on the output stream: how much it was given, and took or -1. */
  datatype Write = Write(size: nat, count: int)

  /** A failure is told exactly when a write was not taken whole, and ends the writing. */
  ghost predicate WritesTell(before: seq<Write>, after: seq<Write>, ok: bool) {
    && before <= after && (ok || |before| < |after|)
    && (forall i :: |before| <= i < |after| ==> (after[i].count == after[i].size <==> ok || i < |after| - 1))
  }

  lemma WritesThen(a: seq<Write>, b: seq<Write>, c: seq<Write>, ok: bool)
    requires WritesTell(a, b, true) && WritesTell(b, c, ok)
    ensures WritesTell(a, c, ok)
  {
  }

  /** The writing side of a connection; `wire` is what its output stream has accepted. */
  class Writer {
    var encoding: Encoding
    var wire: seq<Byte>
    var writes: seq<Write> // history

    constructor ()
      ensures encoding == ENCODING_CHUNKED && wire == [] && writes == []
    {
      encoding, wire, writes := ENCODING_CHUNKED, [], [];
    }

    /** The output stream may take all, some or none of the bytes, or fail. */
    method StreamWrite(b: seq<Byte>) returns (n: int)
      modifies this`wire, this`writes
      ensures -1 <= n <= |b| && writes == old(writes) + [Write(|b|, n)]
      ensures wire == old(wire) + if n < 0 then [] else b[..n]
    {
      n :| -1 <= n <= |b|;
      writes := writes + [Write(|b|, n)];
      if n >= 0 {
        wire := wire + b[..n];
      } else {
        assert wire + [] == wire;
      }
    }

    ghost predicate Wrote(before: seq<Byte>, text: seq<Byte>, ok: bool)
      reads this
    {
      if ok then wire == before + text else before <= wire <= before + text
    }

    /** `write_content` outside chunked mode: anything but a full write is a failure. */
    method WritePlain(b: seq<Byte>) returns (ok: bool)
      modifies this`wire, this`writes
      ensures Wrote(old(wire), b, ok)
      ensures WritesTell(old(writes), writes, ok)
    {
      var n := StreamWrite(b);
      ok := n == |b|;
      if ok { assert b[..n] == b; }
    }

    method WriteChunk(b: seq<Byte>) returns (ok: bool)
      requires encoding == ENCODING_CHUNKED
      modifies this
      ensures encoding == ENCODING_CHUNKED && Wrote(old(wire), EncodeChunk(b), ok)
      ensures WritesTell(old(writes), writes, ok)
    {
      ghost var before := wire;
      encoding := ENCODING_EOF;
      var hdr := Print(|b| % TWO32) + CRLF;
      ok := WritePlain(hdr);
      if ok && |b| > 0 {
        Assoc(before, hdr, b);
        ghost var w := writes;
        ok := WritePlain(b);
        WritesThen(old(writes), w, writes, ok);
      }
      assert ok ==> wire == before + (hdr + b) by { assert b == [] ==> hdr + b == hdr; }
      assert !ok ==> before <= wire <= before + (hdr + b);
      Assoc(before, hdr + b, CRLF);
      if ok {
        ghost var w := writes;
        ok := WritePlain(CRLF);
        WritesThen(old(writes), w, writes, ok);
      }
      encoding := ENCODING_CHUNKED;
    }

    /** `write_content` in chunked mode: all of the encoding goes out, or a prefix of it and a failure. */
    method WriteContent(b: seq<Byte>, more: bool) returns (ok: bool)
      requires encoding == ENCODING_CHUNKED
      modifies this
      ensures encoding == ENCODING_CHUNKED && Wrote(old(wire), EncodeContent(b, more), ok)
      ensures WritesTell(old(writes), writes, ok)
    {
      ghost var before := wire;
      var head := if b == [] then [] else EncodeChunk(b);
      ok := true;
      if |b| > 0 {
        ok := WriteChunk(b);
      }
      assert Wrote(before, head, ok) by { assert before + [] == before; }
      var tail := if more then [] else EncodeChunk([]);
      Assoc(before, head, tail);
      if ok && !more {
        ghost var w := writes;
        ok := WriteChunk([]);
        WritesThen(old(writes), w, writes, ok);
      }
      assert more ==> head + tail == head;
    }

    /** A run of calls, all successful, ended by one without more: the wire holds the encoded run. */
    method WriteRun(parts: seq<seq<Byte>>) returns (ok: bool)
      requires encoding == ENCODING_CHUNKED && parts != []
      modifies this
      ensures encoding == ENCODING_CHUNKED && (ok ==> wire == old(wire) + EncodeRun(parts))
      ensures WritesTell(old(writes), writes, ok)
    {
      ghost var before := wire;
      var i := 0;
      ok := true;
      assert parts[0..] == parts;
      while i < |parts| && ok
        invariant 0 <= i <= |parts| && encoding == ENCODING_CHUNKED
        invariant WritesTell(old(writes), writes, ok)
        invariant ok && i < |parts| ==> before + EncodeRun(parts) == wire + EncodeRun(parts[i..])
        invariant ok && i == |parts| ==> before + EncodeRun(parts) == wire
      {
        var last := i + 1 == |parts|;
        ghost var w, told := wire, writes;
        ok := WriteContent(parts[i], !last);
        WritesThen(old(writes), told, writes, ok);
        if !last {
          assert parts[i..][1..] == parts[i + 1..];
          Assoc(w, EncodeContent(parts[i], true), EncodeRun(parts[i + 1..]));
        }
        i := i + 1;
      }
    }
  }
}
