/** The frames of the long-polling transport (evd/evd-longpolling-server.c). */
module LongPolling {
  import opened Prelude
  import opened Hex
  import opened ChunkedEncoder

  // ---- writing

  function Repeat(c: Byte, n: nat): (r: seq<Byte>)
    ensures |r| == n && forall i :: 0 <= i < n ==> r[i] == c
  {
    if n == 0 then [] else [c] + Repeat(c, n - 1)
  }

  /** printf "%0<width>x" or "%<width>x" of a 32-bit number, cut to the width. */
  function Field(n: nat, width: nat, fill: Byte): (r: seq<Byte>)
    requires n < TWO32
    ensures |r| == width
  {
    var p := Print(n);
    if |p| <= width then Repeat(fill, width - |p|) + p else p[..width]
  }

  /** The header in front of a frame: one byte, or a mark and the length as text. */
  function Header(size: nat): (r: seq<Byte>)
    ensures |r| == HeaderLength(size)
  {
    if size <= 0x7D then [size]
    else if size <= 0xFFFF then [0x7E] + Field(size, 4, 48 /* 0 */)
    else [0x7F] + Field(size % TWO32, 16, 32 /* space */)
  }

  function HeaderLength(size: nat): nat {
    if size <= 0x7D then 1 else if size <= 0xFFFF then 5 else 17
  }

  function Frame(data: seq<Byte>): seq<Byte> { Header(|data|) + data }

  function Wire(frames: seq<seq<Byte>>): seq<Byte> {
    if frames == [] then [] else Frame(frames[0]) + Wire(frames[1..])
  }

  /** The header half of `evd_longpolling_server_write_frame_delivery`. */
  method WriteHeader(hdr: array<Byte>, size: nat) returns (hdrLen: nat)
    requires hdr.Length == 17
    modifies hdr
    ensures hdrLen <= 17 && hdr[..hdrLen] == Header(size)
  {
    if size <= 0x7D {
      hdr[0] := size;
      return 1;
    }
    var text;
    if size <= 0xFFFF {
      hdr[0], hdrLen, text := 0x7E, 5, Field(size, 4, 48);
    } else {
      hdr[0], hdrLen, text := 0x7F, 17, Field(size % TWO32, 16, 32);
    }
    for i := 0 to |text|
      invariant hdr[0] == (if size <= 0xFFFF then 0x7E else 0x7F) && hdr[1..1 + i] == text[..i]
    {
      hdr[1 + i] := text[i];
    }
    assert hdr[..hdrLen] == [hdr[0]] + hdr[1..hdrLen];
  }

  // ---- reading

  /** What the header at the front of buf says; a length that cannot be read leaves the one before. */
  datatype Read = Read(hdrLen: nat, msgLen: nat)

  function ReadHeader(buf: seq<Byte>, before: nat): (r: Read)
    requires buf != []
    ensures r.hdrLen > 0
  {
    var hdr := buf[0] % 128;
    if hdr <= 0x7D then Read(1, hdr)
    else if hdr == 0x7E then Read(5, Number(Scan(buf[1..], 4), before))
    else Read(17, Number(Scan(buf[1..], 16), before))
  }

  /** The number that scanf stores in 32 bits. */
  function Number(n: Option<nat>, before: nat): nat {
    if n.Some? then n.value % TWO32 else before
  }

  /** A message handed on: where it starts and its length, which the header claims and nobody checks. */
  datatype Slice = Slice(from: nat, len: nat)

  function Parse(content: seq<Byte>, i: nat, before: nat): seq<Slice>
    decreases |content| - i
  {
    if i >= |content| then []
    else
      var r := ReadHeader(content[i..], before);
      [Slice(i + r.hdrLen, r.msgLen)] + Parse(content, i + r.hdrLen + r.msgLen, r.msgLen)
  }

  /** The parse loop of `evd_longpolling_server_conn_on_content_read`. */
  method ParseContent(content: seq<Byte>) returns (messages: seq<Slice>)
    ensures messages == Parse(content, 0, 0)
  {
    messages := [];
    var i: nat := 0;
    var msgLen: nat := 0;
    ghost var all := Parse(content, 0, 0);
    assert [] + all == all;
    while i < |content|
      invariant Left(content, i, msgLen, messages, all)
      decreases |content| - i
    {
      messages, i, msgLen := TakeMessage(content, i, msgLen, messages, all);
    }
    NothingLeft(content, i, msgLen, messages, all);
  }

  /** One turn of the loop. */
  method TakeMessage(content: seq<Byte>, i: nat, before: nat, messages: seq<Slice>, ghost all: seq<Slice>)
    returns (messages': seq<Slice>, next: nat, msgLen: nat)
    requires i < |content| && Left(content, i, before, messages, all)
    ensures Left(content, next, msgLen, messages', all) && next > i
  {
    var r := ReadHeader(content[i..], before);
    NextMessage(content, i, before, messages, all);
    messages', next, msgLen := messages + [Slice(i + r.hdrLen, r.msgLen)], i + r.hdrLen + r.msgLen, r.msgLen;
  }

  lemma NothingLeft(content: seq<Byte>, i: nat, before: nat, messages: seq<Slice>, all: seq<Slice>)
    requires i >= |content| && Left(content, i, before, messages, all)
    ensures messages == all
  {
  }

  /** The loop has yet to find what comes after these messages. */
  ghost predicate Left(content: seq<Byte>, i: nat, before: nat, messages: seq<Slice>, all: seq<Slice>) {
    all == messages + Parse(content, i, before)
  }

  lemma NextMessage(content: seq<Byte>, i: nat, before: nat, messages: seq<Slice>, all: seq<Slice>)
    requires i < |content| && Left(content, i, before, messages, all)
    ensures var r := ReadHeader(content[i..], before);
            Left(content, i + r.hdrLen + r.msgLen, r.msgLen, messages + [Slice(i + r.hdrLen, r.msgLen)], all)
  {
    var r := ReadHeader(content[i..], before);
    Assoc(messages, [Slice(i + r.hdrLen, r.msgLen)], Parse(content, i + r.hdrLen + r.msgLen, r.msgLen));
  }

  // ---- the reader undoes the writer

  /** Frames that come through: the long form ends at a byte that cannot be taken for a digit. */
  predicate Safe(data: seq<Byte>) {
    |data| < TWO32 && (|data| <= 0xFFFF || !IsHexByte(data[0]))
  }

  lemma {:induction false} ValueZeros(k: nat, d: seq<Byte>)
    requires AllHex(d)
    ensures AllHex(Repeat(48, k) + d) && Value(Repeat(48, k) + d) == Value(d)
    decreases |d|
  {
    var z := Repeat(48, k);
    if d == [] {
      Zeros(k);
      assert z + d == z;
    } else {
      var l := |d| - 1;
      ValueZeros(k, d[..l]);
      assert (z + d)[..|z + d| - 1] == z + d[..l];
    }
  }

  lemma {:induction false} Zeros(k: nat)
    ensures AllHex(Repeat(48, k)) && Value(Repeat(48, k)) == 0
  {
    var z := Repeat(48, k);
    if k > 0 {
      Zeros(k - 1);
      assert z[..k - 1] == Repeat(48, k - 1);
    }
  }

  lemma {:induction false} SkipFill(k: nat, t: seq<Byte>)
    requires t != [] && !IsSpaceByte(t[0])
    ensures SkipSpaces(Repeat(32, k) + t) == t
  {
    if k == 0 {
      assert Repeat(32, 0) + t == t;
    } else {
      SkipFill(k - 1, t);
      assert (Repeat(32, k) + t)[1..] == Repeat(32, k - 1) + t;
    }
  }

  lemma ScanShort(n: nat, t: seq<Byte>)
    requires n <= 0xFFFF
    ensures Scan(Field(n, 4, 48) + t, 4) == Some(n)
  {
    assert Power16(4) == 65536 by { assert Power16(2) == 256; }
    PrintLength(n, 4);
    var p := Print(n);
    var f := Field(n, 4, 48);
    ValueZeros(4 - |p|, p);
    ValuePrint(n);
    assert IsHexByte(f[0]) && (f + t)[0] == f[0];
    PrefixIs(f, t, 4);
  }

  /** The long form is scanned on into whatever digits follow it. */
  lemma ScanOn(n: nat, t: seq<Byte>)
    requires n < TWO32
    ensures Scan(Field(n, 16, 32) + t, 16) == Some(Value(HexPrefix(Print(n) + t, 16)))
  {
    PrintLength32(n);
    var p := Print(n);
    assert (p + t)[0] == p[0] && IsHexByte(p[0]);
    Assoc(Repeat(32, 16 - |p|), p, t);
    SkipFill(16 - |p|, p + t);
    assert SkipSpaces(p + t) == p + t;
    assert HexPrefix(p + t, 16) != [];
  }

  lemma ScanLong(n: nat, t: seq<Byte>)
    requires n < TWO32 && t != [] && !IsHexByte(t[0])
    ensures Scan(Field(n, 16, 32) + t, 16) == Some(n)
  {
    PrintLength32(n);
    ScanOn(n, t);
    PrefixIs(Print(n), t, 16);
    ValuePrint(n);
  }

  lemma ReadMarked(mark: Byte, text: seq<Byte>, t: seq<Byte>, before: nat)
    requires mark == 0x7E || mark == 0x7F
    ensures ReadHeader([mark] + text + t, before) ==
            if mark == 0x7E then Read(5, Number(Scan(text + t, 4), before))
            else Read(17, Number(Scan(text + t, 16), before))
  {
    assert ([mark] + text + t)[0] == mark && ([mark] + text + t)[1..] == text + t;
  }

  lemma ShortBack(n: nat, t: seq<Byte>, before: nat)
    requires 0x7D < n <= 0xFFFF
    ensures ReadHeader(Header(n) + t, before) == Read(5, n)
  {
    ScanShort(n, t);
    ReadMarked(0x7E, Field(n, 4, 48), t, before);
  }

  lemma LongBack(n: nat, t: seq<Byte>, before: nat)
    requires 0xFFFF < n < TWO32 && t != [] && !IsHexByte(t[0])
    ensures ReadHeader(Header(n) + t, before) == Read(17, n)
  {
    var text := Field(n, 16, 32);
    LongHeaderIs(n);
    ScanLong(n, t);
    ReadMarked(0x7F, text, t, before);
  }

  /** The header of a frame is read back, whatever follows the frame. */
  lemma HeaderBack(data: seq<Byte>, rest: seq<Byte>, before: nat)
    requires Safe(data)
    ensures Frame(data) + rest != []
    ensures ReadHeader(Frame(data) + rest, before) == Read(HeaderLength(|data|), |data|)
  {
    var n := |data|;
    Assoc(Header(n), data, rest);
    if 0xFFFF < n { LongBack(n, data + rest, before); }
    else if 0x7D < n { ShortBack(n, data + rest, before); }
  }

  /** The first message is the frame, and the frame is there. */
  ghost predicate TileAt(content: seq<Byte>, at: nat, slices: seq<Slice>, f: seq<Byte>) {
    var from := at + HeaderLength(|f|);
    && slices != [] && slices[0] == Slice(from, |f|)
    && from + |f| <= |content| && content[from..from + |f|] == f
  }

  /** The slices are where the frames are, one after the other, up to the end of the content. */
  ghost predicate Tiles(content: seq<Byte>, at: nat, slices: seq<Slice>, frames: seq<seq<Byte>>)
    decreases |frames|
  {
    if frames == [] then slices == [] && at == |content|
    else
      var next := at + HeaderLength(|frames[0]|) + |frames[0]|;
      TileAt(content, at, slices, frames[0]) && Tiles(content, next, slices[1..], frames[1..])
  }

  /** At every frame's place there is a header that says its length, and then the frame. */
  ghost predicate Framed(content: seq<Byte>, at: nat, before: nat, frames: seq<seq<Byte>>)
    decreases |frames|
  {
    if frames == [] then at == |content|
    else
      var f := frames[0];
      FrameAt(content, at, before, f) && Framed(content, at + HeaderLength(|f|) + |f|, |f|, frames[1..])
  }

  ghost predicate FrameAt(content: seq<Byte>, at: nat, before: nat, f: seq<Byte>) {
    var from := at + HeaderLength(|f|);
    && at < |content| && ReadHeader(content[at..], before) == Read(HeaderLength(|f|), |f|)
    && from + |f| <= |content| && content[from..from + |f|] == f
  }

  lemma {:induction false} FramedIffTiles(content: seq<Byte>, at: nat, before: nat, frames: seq<seq<Byte>>)
    ensures Framed(content, at, before, frames) <==> Tiles(content, at, Parse(content, at, before), frames)
    decreases |frames|
  {
    if frames != [] {
      var f := frames[0];
      var next := at + HeaderLength(|f|) + |f|;
      FramedIffTiles(content, next, |f|, frames[1..]);
      ParseOne(content, at, before, f);
      OneMore(content, at, before, frames, Parse(content, at, before), Parse(content, next, |f|));
    } else {
      NoFrames(content, at, before);
    }
  }

  lemma NoFrames(content: seq<Byte>, at: nat, before: nat)
    ensures at == |content| ==> Parse(content, at, before) == []
  {
  }

  lemma OneMore(content: seq<Byte>, at: nat, before: nat, frames: seq<seq<Byte>>, slices: seq<Slice>, rest: seq<Slice>)
    requires frames != []
    requires TileAt(content, at, slices, frames[0]) <==> FrameAt(content, at, before, frames[0])
    requires FrameAt(content, at, before, frames[0]) ==> slices[1..] == rest
    requires var next := at + HeaderLength(|frames[0]|) + |frames[0]|;
             Framed(content, next, |frames[0]|, frames[1..]) <==> Tiles(content, next, rest, frames[1..])
    ensures Framed(content, at, before, frames) <==> Tiles(content, at, slices, frames)
  {
  }

  /** The first message is the frame exactly when the frame is there behind a header that says so. */
  lemma ParseOne(content: seq<Byte>, at: nat, before: nat, f: seq<Byte>)
    ensures var slices := Parse(content, at, before);
            && (TileAt(content, at, slices, f) <==> FrameAt(content, at, before, f))
            && (FrameAt(content, at, before, f) ==>
                  slices[1..] == Parse(content, at + HeaderLength(|f|) + |f|, |f|))
  {
  }

  lemma FirstFrame(pre: seq<Byte>, f: seq<Byte>, rest: seq<Byte>, before: nat)
    requires before < TWO32
    ensures FrameAt(pre + Frame(f) + rest, |pre|, before, f) <==> LengthSurvives(f, rest)
  {
    HeaderBackIff(f, rest, before);
    InPlace(pre, Header(|f|), f, rest);
  }

  lemma InPlace(pre: seq<Byte>, h: seq<Byte>, f: seq<Byte>, rest: seq<Byte>)
    ensures var content, from := pre + (h + f) + rest, |pre| + |h|;
            && content[|pre|..] == h + f + rest
            && from + |f| <= |content| && content[from..from + |f|] == f
  {
  }

  lemma FramedMore(pre: seq<Byte>, x: seq<Byte>, rest: seq<Byte>, before: nat, frames: seq<seq<Byte>>)
    requires frames != [] && |pre + x| == |pre| + HeaderLength(|frames[0]|) + |frames[0]|
    ensures Framed(pre + x + rest, |pre|, before, frames) <==>
              FrameAt(pre + x + rest, |pre|, before, frames[0])
              && Framed(pre + x + rest, |pre + x|, |frames[0]|, frames[1..])
  {
  }

  lemma FrameLength(pre: seq<Byte>, f: seq<Byte>)
    ensures |pre + Frame(f)| == |pre| + HeaderLength(|f|) + |f|
  {
  }

  /** The length of each frame survives what is written after it. */
  predicate AllSurvive(frames: seq<seq<Byte>>) {
    frames == [] || (LengthSurvives(frames[0], Wire(frames[1..])) && AllSurvive(frames[1..]))
  }

  lemma {:induction false} WireFramedIff(pre: seq<Byte>, frames: seq<seq<Byte>>, before: nat)
    requires before < TWO32
    ensures Framed(pre + Wire(frames), |pre|, before, frames) <==> AllSurvive(frames)
    decreases |frames|
  {
    if frames != [] {
      var f, rest := frames[0], Wire(frames[1..]);
      Assoc(pre, Frame(f), rest);
      FirstFrame(pre, f, rest, before);
      FrameLength(pre, f);
      FramedMore(pre, Frame(f), rest, before, frames);
      if LengthSurvives(f, rest) {
        WireFramedIff(pre + Frame(f), frames[1..], |f|);
      }
    }
  }

  /** The parse loop finds exactly the frames written, in order, and uses up all bytes, iff their lengths survive. */
  lemma FramesBackIff(frames: seq<seq<Byte>>)
    ensures Tiles(Wire(frames), 0, Parse(Wire(frames), 0, 0), frames) <==> AllSurvive(frames)
  {
    WireFramedIff([], frames, 0);
    assert [] + Wire(frames) == Wire(frames);
    FramedIffTiles(Wire(frames), 0, 0, frames);
  }

  lemma {:induction false} SafeSurvive(frames: seq<seq<Byte>>)
    requires forall i :: 0 <= i < |frames| ==> Safe(frames[i])
    ensures AllSurvive(frames)
    decreases |frames|
  {
    if frames != [] {
      HeaderBack(frames[0], Wire(frames[1..]), 0);
      HeaderBackIff(frames[0], Wire(frames[1..]), 0);
      SafeSurvive(frames[1..]);
    }
  }

  /** In particular they survive for every sequence of frames of at most 0xFFFF bytes. */
  lemma FramesBack(frames: seq<seq<Byte>>)
    requires forall i :: 0 <= i < |frames| ==> Safe(frames[i])
    ensures Tiles(Wire(frames), 0, Parse(Wire(frames), 0, 0), frames)
  {
    SafeSurvive(frames);
    FramesBackIff(frames);
  }

  /** Exactly when the length of a frame is read back: the digits that follow a long one must not change it. */
  lemma HeaderBackIff(data: seq<Byte>, rest: seq<Byte>, before: nat)
    requires before < TWO32
    ensures Frame(data) + rest != []
    ensures ReadHeader(Frame(data) + rest, before) == Read(HeaderLength(|data|), |data|) <==> LengthSurvives(data, rest)
  {
    if |data| <= 0xFFFF {
      HeaderBack(data, rest, before);
    } else {
      var m := |data| % TWO32;
      LongRead(data, m, rest, before);
      SurvivesLong(data, m, rest);
    }
  }

  predicate LengthSurvives(data: seq<Byte>, rest: seq<Byte>) {
    |data| <= 0xFFFF || (|data| < TWO32 && ScannedOn(|data|, data + rest) == |data|)
  }

  /** The number that a long header of length n tells when t comes after it. */
  function ScannedOn(n: nat, t: seq<Byte>): (r: nat)
    ensures r < TWO32
  {
    Value(HexPrefix(Print(n) + t, 16)) % TWO32
  }

  lemma SurvivesLong(data: seq<Byte>, m: nat, rest: seq<Byte>)
    requires 0xFFFF < |data| && m == |data| % TWO32
    ensures LengthSurvives(data, rest) <==> ScannedOn(m, data + rest) == |data|
  {
    if |data| < TWO32 {
      assert m == |data|;
    }
  }

  lemma LongRead(data: seq<Byte>, m: nat, rest: seq<Byte>, before: nat)
    requires 0xFFFF < |data| && m == |data| % TWO32
    ensures ReadHeader(Frame(data) + rest, before) == Read(17, ScannedOn(m, data + rest))
  {
    var text := Field(m, 16, 32);
    Assoc([0x7F] + text, data, rest);
    ScanOn(m, data + rest);
    ReadMarked(0x7F, text, data + rest, before);
  }

  /** In particular every long frame of less than 2^28 bytes that starts with exactly one digit is misread. */
  lemma LongFrameOfDigits(data: seq<Byte>, rest: seq<Byte>, before: nat)
    requires 0xFFFF < |data| < 0x1000_0000 && IsHexByte(data[0]) && !IsHexByte(data[1])
    ensures ReadHeader(Frame(data) + rest, before) == Read(17, 16 * |data| + DigitValue(data[0]))
  {
    var t := data[1..] + rest;
    assert data + rest == [data[0]] + t;
    OneDigit(|data|, data[0], t);
    LongRead(data, |data|, rest, before);
  }

  lemma OneDigit(n: nat, c: Byte, t: seq<Byte>)
    requires n < 0x1000_0000 && IsHexByte(c) && (t == [] || !IsHexByte(t[0]))
    ensures ScannedOn(n, [c] + t) == 16 * n + DigitValue(c)
  {
    var p := Print(n);
    var d := p + [c];
    PrintLength32(n);
    Assoc(p, [c], t);
    PrefixIs(d, t, 16);
    ValuePrint(n);
    assert d[..|d| - 1] == p;
  }

  // ---- the format, said without the conversions

  /** A header is the length in one byte; or a mark and four digits; or a mark and blanks and digits, sixteen in all. */
  ghost predicate Says(header: seq<Byte>, size: nat) {
    || (header == [size] && size <= 0x7D)
    || (|header| == 5 && header[0] == 0x7E && Spells(header[1..], size))
    || (|header| == 17 && header[0] == 0x7F
        && exists k :: 1 <= k < 17 && (forall i :: 1 <= i < k ==> header[i] == 32) && Spells(header[k..], size))
  }

  lemma HeaderSays(size: nat)
    requires size < TWO32
    ensures Says(Header(size), size) && |Header(size)| == HeaderLength(size)
  {
    if 0xFFFF < size {
      LongSays(size);
    } else if 0x7D < size {
      FieldSpells(size);
      assert Header(size)[1..] == Field(size, 4, 48);
    }
  }

  lemma FieldSpells(size: nat)
    requires size <= 0xFFFF
    ensures Spells(Field(size, 4, 48), size)
  {
    var p := Print(size);
    assert Power16(4) == 65536 by { assert Power16(2) == 256; }
    PrintLength(size, 4);
    ValuePrint(size);
    ValueZeros(4 - |p|, p);
    SpellsIff(Repeat(48, 4 - |p|) + p, size);
  }

  lemma FieldIs(n: nat, width: nat, fill: Byte)
    requires n < TWO32 && |Print(n)| <= width
    ensures Field(n, width, fill) == Repeat(fill, width - |Print(n)|) + Print(n)
  {
  }

  lemma LongHeaderIs(size: nat)
    requires 0xFFFF < size < TWO32
    ensures Header(size) == [0x7F] + Field(size, 16, 32)
  {
    assert size % TWO32 == size;
  }

  lemma LongHeader(size: nat)
    requires 0xFFFF < size < TWO32
    ensures |Print(size)| <= 8 && Header(size) == [0x7F] + (Repeat(32, 16 - |Print(size)|) + Print(size))
  {
    PrintLength32(size);
    FieldIs(size, 16, 32);
    LongHeaderIs(size);
  }

  lemma LongSays(size: nat)
    requires 0xFFFF < size < TWO32
    ensures Says(Header(size), size)
  {
    var p := Print(size);
    PrintIs(size);
    LongHeader(size);
    Blanked(Repeat(32, 16 - |p|), p, size);
  }

  lemma Blanked(a: seq<Byte>, p: seq<Byte>, size: nat)
    requires |a| + |p| == 16 && p != [] && (forall i :: 0 <= i < |a| ==> a[i] == 32) && Spells(p, size)
    ensures Says([0x7F] + (a + p), size)
  {
    var h, k := [0x7F] + (a + p), 1 + |a|;
    assert h[k..] == p;
    assert forall i :: 1 <= i < k ==> h[i] == a[i - 1];
  }

  lemma ReadFirst(first: Byte, rest: seq<Byte>, before: nat)
    ensures ReadHeader([first] + rest, before) ==
            if first % 128 <= 0x7D then Read(1, first % 128)
            else if first % 128 == 0x7E then Read(5, Number(Scan(rest, 4), before))
            else Read(17, Number(Scan(rest, 16), before))
  {
    assert ([first] + rest)[0] == first && ([first] + rest)[1..] == rest;
  }

  /** The first byte with or without the bit that would announce more fragments. */
  function First(mark: Byte, more: bool): Byte
    requires mark < 128
  {
    if more then mark + 128 else mark
  }

  /** The reader takes any spelling, and ignores that bit. */
  lemma ReadsWhatIsSaid(header: seq<Byte>, more: bool, size: nat, t: seq<Byte>, before: nat)
    requires Says(header, size) && size < TWO32
    requires |header| == 17 ==> t == [] || !IsHexByte(t[0])
    ensures ReadHeader([First(header[0], more)] + (header[1..] + t), before) == Read(|header|, size)
  {
    if |header| == 5 {
      ReadsFour(First(header[0], more), header[1..], size, t, before);
    } else if |header| == 17 {
      ReadsSixteen(First(header[0], more), header, size, t, before);
    } else {
      ReadFirst(First(header[0], more), header[1..] + t, before);
    }
  }

  /** A header without a number leaves the length as it was for the frame before. */
  lemma NoNumberKeepsLast(first: Byte, t: seq<Byte>, before: nat)
    requires first % 128 > 0x7D && (t == [] || (!IsHexByte(t[0]) && !IsSpaceByte(t[0])))
    ensures ReadHeader([first] + t, before).msgLen == before
  {
    ReadFirst(first, t, before);
  }

  lemma ReadsFour(first: Byte, d: seq<Byte>, size: nat, t: seq<Byte>, before: nat)
    requires first % 128 == 0x7E && |d| == 4 && Spells(d, size) && size < TWO32
    ensures ReadHeader([first] + (d + t), before) == Read(5, size)
  {
    SpellsIff(d, size);
    FourDigits(d, size, t);
    ReadFirst(first, d + t, before);
  }

  lemma ReadsSixteen(first: Byte, header: seq<Byte>, size: nat, t: seq<Byte>, before: nat)
    requires first % 128 == 0x7F && Says(header, size) && size < TWO32 && |header| == 17
    requires t == [] || !IsHexByte(t[0])
    ensures ReadHeader([first] + (header[1..] + t), before) == Read(17, size)
  {
    SixteenSaid(header, size, t);
    ReadFirst(first, header[1..] + t, before);
  }

  lemma SixteenSaid(header: seq<Byte>, size: nat, t: seq<Byte>)
    requires Says(header, size) && |header| == 17 && (t == [] || !IsHexByte(t[0]))
    ensures Scan(header[1..] + t, 16) == Some(size)
  {
    var k :| 1 <= k < 17 && (forall i :: 1 <= i < k ==> header[i] == 32) && Spells(header[k..], size);
    assert header[1..] == header[1..k] + header[k..];
    Sixteen(header[1..k], header[k..], size, t);
  }

  lemma FourDigits(d: seq<Byte>, size: nat, t: seq<Byte>)
    requires |d| == 4 && AllHex(d) && Value(d) == size
    ensures Scan(d + t, 4) == Some(size)
  {
    assert (d + t)[0] == d[0] && !IsSpaceByte(d[0]);
    PrefixIs(d, t, 4);
  }

  lemma Sixteen(a: seq<Byte>, d: seq<Byte>, size: nat, t: seq<Byte>)
    requires |a| + |d| == 16 && d != [] && (forall i :: 0 <= i < |a| ==> a[i] == 32) && Spells(d, size)
    requires t == [] || !IsHexByte(t[0])
    ensures Scan(a + d + t, 16) == Some(size)
  {
    SpellsIff(d, size);
    assert a == Repeat(32, |a|);
    assert (d + t)[0] == d[0] && !IsSpaceByte(d[0]);
    Assoc(a, d, t);
    SkipFill(|a|, d + t);
    PrefixIs(d, t, 16);
  }

  // ---- over a chunked response

  /** The pieces in which the frames are written, with the empty one that ends the content. */
  function Pieces(frames: seq<seq<Byte>>): (r: seq<seq<Byte>>)
    ensures r != []
  {
    if frames == [] then [[]] else [Header(|frames[0]|), frames[0]] + Pieces(frames[1..])
  }

  lemma {:induction false} PiecesAre(frames: seq<seq<Byte>>)
    requires forall i :: 0 <= i < |frames| ==> Safe(frames[i])
    ensures Concat(Pieces(frames)) == Wire(frames)
    ensures forall i :: 0 <= i < |Pieces(frames)| ==> |Pieces(frames)[i]| < TWO32
  {
    if frames == [] {
      assert Concat([[]]) == [] + Concat<Byte>([]);
    } else {
      var h, f, rest := Header(|frames[0]|), frames[0], Pieces(frames[1..]);
      PiecesAre(frames[1..]);
      var r := [h, f] + rest;
      assert r[1..] == [f] + rest;
      assert ([f] + rest)[1..] == rest;
      Assoc(h, f, Concat(rest));
    }
  }

  /** Frames sent in a chunked response arrive: decoding and parsing undo framing and chunking. */
  lemma FramesOverChunks(frames: seq<seq<Byte>>)
    requires forall i :: 0 <= i < |frames| ==> Safe(frames[i])
    ensures DecodesTo(EncodeRun(Pieces(frames)), Wire(frames))
    ensures Tiles(Wire(frames), 0, Parse(Wire(frames), 0, 0), frames)
  {
    PiecesAre(frames);
    RunDecodes(Pieces(frames));
    FramesBack(frames);
  }
}
