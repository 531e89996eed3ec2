/** The decoder finishes with a content exactly on the inputs that begin with a chunked body for it. */
module ChunkedEquivalence {
  import opened Prelude
  import opened Hex
  import opened ChunkedDecoder
  import opened ChunkedEncoder
  import opened ChunkedGrammar

  // ---- size fields

  lemma FieldByteIff(c: Byte)
    ensures IsFieldByte(c) <==> IsHeaderByte(c)
  {
    if IsHexByte(c) {
      DigitIff(c, DigitValue(c));
    }
    forall d: nat | d < 16
      ensures IsDigitOf(c, d) ==> IsHexByte(c)
    {
      DigitIff(c, d);
    }
  }

  ghost predicate IsField(f: seq<Byte>) { forall i :: 0 <= i < |f| ==> IsHeaderByte(f[i]) }

  /** The decoder that has collected a size field. */
  function Collected(f: seq<Byte>): Decoder { FRESH.(hdr := f) }

  lemma {:induction false} SkipSplits(f: seq<Byte>) returns (k: nat)
    requires IsField(f)
    ensures k <= |f| && SkipSpaces(f) == f[k..]
    ensures (forall i :: 0 <= i < k ==> f[i] == 32) && (k < |f| ==> IsHexByte(f[k]))
    decreases |f|
  {
    if f != [] && f[0] == 32 {
      var j := SkipSplits(f[1..]);
      k := j + 1;
      DropDrop(f, 1, j);
      assert forall i :: 0 < i < k ==> f[i] == f[1..][i - 1];
    } else {
      k := 0;
    }
  }

  /** Behind the blanks come a numeral and what follows it. */
  lemma NumeralSplits(r: seq<Byte>) returns (b: seq<Byte>, t: seq<Byte>)
    requires IsField(r) && (r != [] ==> IsHexByte(r[0]))
    ensures r == b + t && b == HexPrefix(r, |r|) && Spells(b, Value(b))
    ensures (r != [] ==> b != []) && (t != [] ==> t[0] == 32) && forall i :: 0 <= i < |t| ==> IsFieldByte(t[i])
  {
    b := HexPrefix(r, |r|);
    t := r[|b|..];
    SpellsIff(b, Value(b));
    forall i | 0 <= i < |t|
      ensures IsFieldByte(t[i])
    {
      FieldByteIff(r[|b| + i]);
    }
  }

  lemma PrefixLimit(r: seq<Byte>, limit: nat)
    requires |r| <= limit
    ensures HexPrefix(r, limit) == HexPrefix(r, |r|)
  {
  }

  /** Every field says what the decoder reads. */
  lemma FieldTells(f: seq<Byte>)
    requires f != [] && IsField(f)
    ensures FieldSays(f, FieldValue(Collected(f)))
  {
    var k := SkipSplits(f);
    var b, t := NumeralSplits(f[k..]);
    PrefixLimit(f[k..], |f|);
    Assoc(f[..k], b, t);
    assert FieldParts(f, f[..k], b, t, Value(b));
  }

  lemma {:induction false} SkipBlanks(a: seq<Byte>, r: seq<Byte>)
    requires (forall i :: 0 <= i < |a| ==> a[i] == 32) && (r == [] || !IsSpaceByte(r[0]))
    ensures SkipSpaces(a + r) == r
    decreases |a|
  {
    if a == [] {
      assert a + r == r;
    } else {
      assert (a + r)[1..] == a[1..] + r;
      SkipBlanks(a[1..], r);
    }
  }

  /** What a field says is what the decoder reads. */
  lemma FieldIsRead(f: seq<Byte>, n: nat)
    requires FieldSays(f, n)
    ensures IsField(f) && FieldValue(Collected(f)) == n
  {
    var a, b, t, m: nat :| FieldParts(f, a, b, t, m) && n == m % TWO32;
    SpellsIff(b, m);
    forall i | 0 <= i < |f|
      ensures IsHeaderByte(f[i])
    {
      if i >= |a| + |b| {
        assert f[i] == t[i - |a| - |b|];
        FieldByteIff(f[i]);
      }
    }
    Assoc(a, b, t);
    SkipBlanks(a, b + t);
    if b != [] {
      PrefixIs(b, t, |f|);
    }
  }

  // ---- the decoder, stage by stage

  function InContent(n: nat): Decoder { Decoder(READING_CONTENT, n, [], 0) }

  /** The longest beginning that can be a size field. */
  function FieldRun(s: seq<Byte>): (f: seq<Byte>)
    ensures f <= s && IsField(f) && (|f| < |s| ==> !IsHeaderByte(s[|f|]))
    decreases |s|
  {
    if s == [] || !IsHeaderByte(s[0]) then []
    else
      assert s == [s[0]] + s[1..];
      [s[0]] + FieldRun(s[1..])
  }

  lemma AfterField(f: seq<Byte>, t: seq<Byte>)
    requires IsField(f)
    ensures ValidDecoder(Collected(f)) && DecodeAll(FRESH, f + t) == After(|f|, [], DecodeAll(Collected(f), t))
  {
    HeaderDigits(FRESH, f);
    assert [] + f == f;
    DecodeConcat(FRESH, f, t);
  }

  /** After a size field the decoder wants a line end, and then goes on with the content or is finished. */
  lemma SizeLineEnds(f: seq<Byte>, t: seq<Byte>)
    requires IsField(f) && f != []
    ensures ValidDecoder(Collected(f))
    ensures var n := FieldValue(Collected(f));
            var r := DecodeAll(Collected(f), CRLF + t);
            if n == 0 then r.verdict == Finished && r.used == 2 && r.out == []
            else r == After(2, [], DecodeAll(InContent(n), t))
  {
    var d, s := Collected(f), CRLF + t;
    var n := FieldValue(d);
    var e := Decoder(READING_CRLF_1, n, [], 1);
    assert s[0] == CR && s[1..][0] == LF && s[1..][1..] == t;
    assert OneByte(d, CR) == Step(e, [], More);
    assert DecodeAll(d, s) == After(1, [], DecodeAll(e, s[1..]));
  }

  /** Anything else after it fails or is too short. */
  lemma SizeLineOnly(f: seq<Byte>, t: seq<Byte>)
    requires IsField(f) && (t == [] || !IsHeaderByte(t[0]))
    requires ValidDecoder(Collected(f)) && DecodeAll(Collected(f), t).verdict == Finished
    ensures f != [] && |t| >= 2 && t == CRLF + t[2..]
  {
    var d := Collected(f);
    var b := OneByte(d, t[0]);
    assert b.verdict == More && t[0] == CR && f != [];
    var u := t[1..];
    assert DecodeAll(b.d, u).verdict == Finished;
    assert u != [] && u[0] == LF;
    assert t == CRLF + t[2..];
  }

  /** In the content the decoder copies what it was told, if it is there. */
  lemma ContentCopied(n: nat, t: seq<Byte>)
    requires n > 0
    ensures if |t| < n then DecodeAll(InContent(n), t).verdict == More
            else DecodeAll(InContent(n), t) == After(n, t[..n], DecodeAll(CHUNK_READ, t[n..]))
  {
    var d := InContent(n);
    if |t| < n {
      BulkCopyAll(d, t);
    } else {
      BulkCopyAll(d, t[..n]);
      assert t == t[..n] + t[n..];
      DecodeConcat(d, t[..n], t[n..]);
    }
  }

  lemma ChunkEnds(t: seq<Byte>)
    ensures DecodeAll(CHUNK_READ, CRLF + t) == After(2, [], DecodeAll(FRESH, t))
  {
    ChunkEnd();
    DecodeConcat(CHUNK_READ, CRLF, t);
  }

  lemma ChunkEndOnly(t: seq<Byte>)
    requires DecodeAll(CHUNK_READ, t).verdict == Finished
    ensures |t| >= 2 && t == CRLF + t[2..]
  {
    var b := OneByte(CHUNK_READ, t[0]);
    assert b.verdict == More && t[0] == CR;
    assert DecodeAll(b.d, t[1..]).verdict == Finished;
    assert t[1..] != [] && t[1..][0] == LF;
  }

  /** A whole chunk. */
  lemma ChunkRead(c: Chunk, t: seq<Byte>)
    requires IsField(c.field) && c.field != [] && c.data != [] && FieldValue(Collected(c.field)) == |c.data|
    ensures DecodeAll(FRESH, ChunkText(c) + t) == After(|ChunkText(c)|, c.data, DecodeAll(FRESH, t))
  {
    var f, n := c.field, |c.data|;
    var rest := c.data + (CRLF + t);
    assert ChunkText(c) + t == f + (CRLF + rest);
    AfterField(f, CRLF + rest);
    SizeLineEnds(f, rest);
    ContentCopied(n, rest);
    assert rest[..n] == c.data && rest[n..] == CRLF + t;
    ChunkEnds(t);
    AfterFour(|f|, n, c.data, DecodeAll(FRESH, t));
  }

  lemma AfterFour(k: nat, n: nat, data: seq<Byte>, r: Result)
    ensures After(k, [], After(2, [], After(n, data, After(2, [], r)))) == After(k + 2 + n + 2, data, r)
  {
    assert [] + ([] + (data + ([] + r.out))) == data + r.out;
  }

  // ---- every body is decoded

  lemma LineRead(last: seq<Byte>, t: seq<Byte>)
    requires FieldSays(last, 0)
    ensures var r := DecodeAll(FRESH, last + CRLF + t); r.verdict == Finished && r.used == |last| + 2 && r.out == []
  {
    FieldIsRead(last, 0);
    Assoc(last, CRLF, t);
    AfterField(last, CRLF + t);
    SizeLineEnds(last, t);
  }

  lemma {:induction false} BodyRead(cs: seq<Chunk>, last: seq<Byte>, t: seq<Byte>)
    requires ValidBody(cs, last)
    ensures var r := DecodeAll(FRESH, BodyText(cs, last) + t);
            r.verdict == Finished && r.used == |BodyText(cs, last)| && r.out == Content(cs)
    decreases |cs|
  {
    if cs == [] {
      LineRead(last, t);
    } else {
      assert ValidChunk(cs[0]);
      FieldIsRead(cs[0].field, |cs[0].data|);
      Assoc(ChunkText(cs[0]), BodyText(cs[1..], last), t);
      BodyRead(cs[1..], last, t);
      ChunkRead(cs[0], BodyText(cs[1..], last) + t);
    }
  }

  // ---- only bodies are

  /** A decoder that finishes was shown a size line first. */
  lemma LineFound(s: seq<Byte>) returns (f: seq<Byte>, t: seq<Byte>)
    requires DecodeAll(FRESH, s).verdict == Finished
    ensures IsField(f) && f != [] && s == f + (CRLF + t)
    ensures var n := FieldValue(Collected(f));
            FieldSays(f, n) && (n > 0 ==> DecodeAll(InContent(n), t).verdict == Finished)
  {
    f := FieldRun(s);
    var u := s[|f|..];
    assert s == f + u;
    AfterField(f, u);
    SizeLineOnly(f, u);
    t := u[2..];
    SizeLineEnds(f, t);
    FieldTells(f);
  }

  lemma {:induction false} BodyFound(s: seq<Byte>) returns (cs: seq<Chunk>, last: seq<Byte>)
    requires DecodeAll(FRESH, s).verdict == Finished
    ensures ValidBody(cs, last) && BodyText(cs, last) <= s
    decreases |s|
  {
    var f, t := LineFound(s);
    if FieldValue(Collected(f)) == 0 {
      cs, last := [], f;
      Assoc(f, CRLF, t);
    } else {
      var c, rest := ChunkFound(f, t);
      ChunkRead(c, rest);
      cs, last := BodyFound(rest);
      cs := [c] + cs;
    }
  }

  lemma ChunkFound(f: seq<Byte>, t: seq<Byte>) returns (c: Chunk, rest: seq<Byte>)
    requires IsField(f) && f != [] && FieldValue(Collected(f)) > 0
    requires DecodeAll(InContent(FieldValue(Collected(f))), t).verdict == Finished
    ensures c.field == f && |c.data| == FieldValue(Collected(f)) && f + (CRLF + t) == ChunkText(c) + rest
  {
    var n := FieldValue(Collected(f));
    ContentCopied(n, t);
    ChunkEndOnly(t[n..]);
    c, rest := Chunk(f, t[..n]), t[n..][2..];
    assert t == t[..n] + (CRLF + rest);
  }

  /** The decoder finishes with this content after so many bytes if and only if the input begins with such a body. */
  lemma DecodesIff(s: seq<Byte>, content: seq<Byte>, used: nat)
    ensures var r := DecodeAll(FRESH, s);
            r.verdict == Finished && r.out == content && r.used == used <==> BeginsWithBody(s, content, used)
  {
    if BeginsWithBody(s, content, used) {
      var cs, last :| ValidBody(cs, last) && BodyText(cs, last) <= s && Content(cs) == content
                      && |BodyText(cs, last)| == used;
      assert s == BodyText(cs, last) + s[used..];
      BodyRead(cs, last, s[used..]);
    }
    if DecodeAll(FRESH, s).verdict == Finished {
      var cs, last := BodyFound(s);
      var n := |BodyText(cs, last)|;
      assert s == BodyText(cs, last) + s[n..];
      BodyRead(cs, last, s[n..]);
    }
  }

  // ---- a failure is never premature and never late

  lemma ByByte(d: Decoder, c: Byte, t: seq<Byte>)
    requires ValidDecoder(d) && OneByte(d, c).verdict == More
    requires ValidDecoder(OneByte(d, c).d) && DecodeAll(OneByte(d, c).d, t).verdict == Finished
    ensures DecodeAll(d, [c] + t).verdict == Finished
  {
    assert ([c] + t)[1..] == t;
  }

  lemma FinishFresh() returns (t: seq<Byte>)
    ensures DecodeAll(FRESH, t).verdict == Finished
  {
    PrintIs(0);
    assert FieldParts(Print(0), [], Print(0), [], 0);
    LineRead(Print(0), []);
    t := Print(0) + CRLF + [];
  }

  lemma FinishChunk(d: Decoder) returns (t: seq<Byte>)
    requires ValidDecoder(d) && d.status == READING_CRLF_2
    ensures DecodeAll(d, t).verdict == Finished
  {
    t := FinishFresh();
    ByByte(CHUNK_READ.(crlf := 1), LF, t);
    t := [LF] + t;
    if d.crlf == 0 {
      ByByte(d, CR, t);
      t := [CR] + t;
    }
  }

  lemma FinishContent(n: nat) returns (t: seq<Byte>)
    requires n > 0
    ensures DecodeAll(InContent(n), t).verdict == Finished
  {
    var u := FinishChunk(CHUNK_READ);
    var data := seq(n, i => 0);
    t := data + u;
    ContentCopied(n, t);
    assert t[n..] == u;
  }

  lemma FinishLine(d: Decoder) returns (t: seq<Byte>)
    requires ValidDecoder(d) && d.status == READING_CRLF_1
    ensures DecodeAll(d, t).verdict == Finished
  {
    var e := d.(crlf := 1);
    t := [LF];
    if d.left > 0 {
      var u := FinishContent(d.left);
      ByByte(e, LF, u);
      t := [LF] + u;
    }
    if d.crlf == 0 {
      ByByte(d, CR, t);
      t := [CR] + t;
    }
  }

  /** From wherever the decoder is, some input lets it finish. */
  lemma CanFinish(d: Decoder) returns (t: seq<Byte>)
    requires ValidDecoder(d)
    ensures DecodeAll(d, t).verdict == Finished
  {
    match d.status {
      case READING_CHUNK_HEADER =>
        if d.hdr == [] {
          t := FinishFresh();
        } else {
          t := FinishLine(OneByte(d, CR).d);
          ByByte(d, CR, t);
          t := [CR] + t;
        }
      case READING_CONTENT => t := FinishContent(d.left);
      case READING_CRLF_1 => t := FinishLine(d);
      case READING_CRLF_2 => t := FinishChunk(d);
    }
  }

  /** Some input that begins with s begins with a chunked body. */
  ghost predicate CanBecomeBody(s: seq<Byte>) {
    exists t, content, used :: BeginsWithBody(s + t, content, used)
  }

  /** The decoder fails exactly when what it has seen is not the beginning of a body and does not hold one. */
  lemma FailsIff(s: seq<Byte>)
    ensures DecodeAll(FRESH, s).verdict == Failed <==> !CanBecomeBody(s)
  {
    var r := DecodeAll(FRESH, s);
    if CanBecomeBody(s) {
      var t, content, used :| BeginsWithBody(s + t, content, used);
      DecodesIff(s + t, content, used);
      DecodeConcat(FRESH, s, t);
    }
    if r.verdict != Failed {
      DecodeConcat(FRESH, s, []);
      var t := [];
      if r.verdict == More { t := CanFinish(r.d); }
      DecodeConcat(FRESH, s, t);
      var q := DecodeAll(FRESH, s + t);
      DecodesIff(s + t, q.out, q.used);
      assert BeginsWithBody(s + t, q.out, q.used);
    }
  }

  // ---- bodies with short size fields fit the header buffer

  ghost predicate ShortFields(cs: seq<Chunk>, last: seq<Byte>) {
    |last| < HDR_BUF_SIZE && forall i :: 0 <= i < |cs| ==> |cs[i].field| < HDR_BUF_SIZE
  }

  lemma CrlfFits(d: Decoder)
    requires ValidDecoder(d) && |d.hdr| < HDR_BUF_SIZE
    ensures FieldsFit(d, CRLF)
  {
    assert CRLF[1..] == [LF] && [LF][1..] == [];
    var b := OneByte(d, CR);
    if b.verdict == More {
      OneByteValid(d, CR);
      assert FieldsFit(b.d, [LF]) by {
        OneByteValid(b.d, LF);
        if OneByte(b.d, LF).verdict == More { assert FieldsFit(OneByte(b.d, LF).d, []); }
      }
    }
  }

  lemma LineFits(f: seq<Byte>)
    requires IsField(f) && f != [] && |f| < HDR_BUF_SIZE
    ensures FieldsFit(FRESH, f + CRLF)
    ensures var n := FieldValue(Collected(f));
            n > 0 ==> DecodeAll(FRESH, f + CRLF) == Result(InContent(n), |f| + 2, [], More)
    ensures FieldValue(Collected(f)) == 0 ==> DecodeAll(FRESH, f + CRLF).verdict == Finished
  {
    HeaderDigits(FRESH, f);
    assert [] + f == f;
    CrlfFits(Collected(f));
    FitsConcat(FRESH, f, CRLF);
    AfterField(f, CRLF);
    SizeLineEnds(f, []);
    assert CRLF + [] == CRLF;
  }

  lemma ChunkFits(c: Chunk)
    requires ValidChunk(c) && |c.field| < HDR_BUF_SIZE
    ensures FieldsFit(FRESH, ChunkText(c))
    ensures DecodeAll(FRESH, ChunkText(c)) == Result(FRESH, |ChunkText(c)|, c.data, More)
  {
    var f, n := c.field, |c.data|;
    FieldIsRead(f, n);
    LineFits(f);
    ContentFits(InContent(n), c.data);
    FitsConcat(FRESH, f + CRLF, c.data);
    DecodeConcat(FRESH, f + CRLF, c.data);
    BulkCopyAll(InContent(n), c.data);
    assert [] + c.data == c.data;
    CrlfFits(CHUNK_READ);
    FitsConcat(FRESH, f + CRLF + c.data, CRLF);
    ChunkRead(c, []);
    assert ChunkText(c) + [] == ChunkText(c) && c.data + [] == c.data;
  }

  lemma {:induction false} BodyFits(cs: seq<Chunk>, last: seq<Byte>, t: seq<Byte>)
    requires ValidBody(cs, last) && ShortFields(cs, last)
    ensures FieldsFit(FRESH, BodyText(cs, last) + t)
    decreases |cs|
  {
    if cs == [] {
      FieldIsRead(last, 0);
      LineFits(last);
      FitsConcat(FRESH, last + CRLF, t);
    } else {
      assert ValidChunk(cs[0]);
      ChunkFits(cs[0]);
      BodyFits(cs[1..], last, t);
      Assoc(ChunkText(cs[0]), BodyText(cs[1..], last), t);
      FitsConcat(FRESH, ChunkText(cs[0]), BodyText(cs[1..], last) + t);
    }
  }
}
