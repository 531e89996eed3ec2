/**
  The chunked transfer decoder of evd/evd-http-chunked-decoder.c: an automaton that takes one byte at a time,
  and `convert`, which copies chunk contents in bulk into an output buffer of any size.
 */
module ChunkedDecoder {
  import opened Prelude
  import opened Hex

  const HDR_BUF_SIZE := 10

  datatype Status = READING_CHUNK_HEADER | READING_CONTENT | READING_CRLF_1 | READING_CRLF_2

  datatype Decoder = Decoder(status: Status, left: nat, hdr: seq<Byte>, crlf: nat)

  const FRESH := Decoder(READING_CHUNK_HEADER, 0, [], 0)

  /** What holds of every decoder, whatever it was fed: this is what makes `convert` terminate. */
  predicate ValidDecoder(d: Decoder) {
    && d.crlf <= 1
    && (d.status == READING_CONTENT ==> d.left > 0 && d.crlf == 0)
    && (d.status == READING_CHUNK_HEADER ==> d.left == 0 && d.crlf == 0)
    && (d.hdr != [] ==> d.status == READING_CHUNK_HEADER)
    && (d.status == READING_CRLF_2 ==> d.left == 0)
  }

  datatype Verdict = More | Finished | Failed

  /** One byte: the next decoder, the content, and whether decoding goes on.  A failed byte is not consumed. */
  datatype Step = Step(d: Decoder, out: seq<Byte>, verdict: Verdict)

  predicate IsHeaderByte(c: Byte) { IsHexByte(c) || c == 32 }

  /** The size field; without a digit the conversion leaves the old value, and the target holds 32 bits. */
  function FieldValue(d: Decoder): nat {
    match Scan(d.hdr, |d.hdr|)
    case None => d.left
    case Some(n) => n % TWO32
  }

  function CrlfByte(d: Decoder, c: Byte): Step {
    if d.crlf == 0 then
      if c == CR then Step(d.(crlf := 1), [], More) else Step(d, [], Failed)
    else if c != LF then Step(d, [], Failed)
    else if d.status == READING_CRLF_2 then Step(d.(crlf := 0, status := READING_CHUNK_HEADER), [], More)
    else if d.left == 0 then Step(d.(crlf := 0), [], Finished)
    else Step(d.(crlf := 0, status := READING_CONTENT), [], More)
  }

  /** The decoder once its size field has been converted. */
  function FieldRead(d: Decoder): Decoder {
    Decoder(READING_CRLF_1, FieldValue(d), [], d.crlf)
  }

  function OneByte(d: Decoder, c: Byte): Step
    requires ValidDecoder(d)
  {
    match d.status
    case READING_CHUNK_HEADER =>
      if IsHeaderByte(c) then Step(d.(hdr := d.hdr + [c]), [], More)
      else if d.hdr != [] then CrlfByte(FieldRead(d), c)
      else Step(d, [], Failed)
    case READING_CONTENT => Step(Taken(d, 1), [c], More)
    case _ => CrlfByte(d, c)
  }

  /** The decoder after n bytes of chunk content. */
  function Taken(d: Decoder, n: nat): Decoder
    requires n <= d.left
  {
    d.(left := d.left - n, status := if d.left == n then READING_CRLF_2 else d.status)
  }

  lemma OneByteValid(d: Decoder, c: Byte)
    requires ValidDecoder(d)
    ensures ValidDecoder(OneByte(d, c).d) && |OneByte(d, c).out| <= 1
  {
  }

  /** What a whole input does: final decoder, bytes consumed, content, verdict. */
  datatype Result = Result(d: Decoder, used: nat, out: seq<Byte>, verdict: Verdict)

  function After(used: nat, out: seq<Byte>, r: Result): Result {
    Result(r.d, used + r.used, out + r.out, r.verdict)
  }

  /** The automaton over an input, until it is exhausted or a verdict is reached. */
  function DecodeAll(d: Decoder, s: seq<Byte>): Result
    requires ValidDecoder(d)
    decreases |s|
  {
    if s == [] then Result(d, 0, [], More)
    else
      var b := OneByte(d, s[0]);
      match b.verdict
      case Failed => Result(b.d, 0, [], Failed)
      case Finished => Result(b.d, 1, [], Finished)
      case More => OneByteValid(d, s[0]); After(1, b.out, DecodeAll(b.d, s[1..]))
  }

  /** The same, but also stopping before a byte for which there is no room in the output. */
  function Decode(d: Decoder, s: seq<Byte>, room: nat): Result
    requires ValidDecoder(d)
    decreases |s|
  {
    if s == [] || room == 0 then Result(d, 0, [], More)
    else
      var b := OneByte(d, s[0]);
      match b.verdict
      case Failed => Result(b.d, 0, [], Failed)
      case Finished => Result(b.d, 1, [], Finished)
      case More => OneByteValid(d, s[0]); After(1, b.out, Decode(b.d, s[1..], room - |b.out|))
  }

  /** What a bounded run stays within; with input and room it makes progress. */
  predicate Bounded(r: Result, s: seq<Byte>, room: nat) {
    && ValidDecoder(r.d) && r.used <= |s| && |r.out| <= room
    && (s != [] && room > 0 && r.verdict == More ==> r.used >= 1)
  }

  lemma BoundedMore(b: Step, s: seq<Byte>, room: nat, r: Result)
    requires s != [] && room > 0 && |b.out| <= 1 && Bounded(r, s[1..], room - |b.out|)
    ensures Bounded(After(1, b.out, r), s, room)
  {
  }

  lemma {:induction false} DecodeValid(d: Decoder, s: seq<Byte>, room: nat)
    requires ValidDecoder(d)
    ensures Bounded(Decode(d, s, room), s, room)
    decreases |s|
  {
    if s != [] && room > 0 {
      var b := OneByte(d, s[0]);
      OneByteValid(d, s[0]);
      if b.verdict == More {
        DecodeValid(b.d, s[1..], room - |b.out|);
        BoundedMore(b, s, room, Decode(b.d, s[1..], room - |b.out|));
      }
    }
  }

  /** r is the beginning of the run of d over s: all of it, or what comes before the rest of the run. */
  ghost predicate PartOf(d: Decoder, s: seq<Byte>, r: Result)
    requires ValidDecoder(d)
  {
    && ValidDecoder(r.d) && r.used <= |s|
    && DecodeAll(d, s) == if r.verdict == More then After(r.used, r.out, DecodeAll(r.d, s[r.used..])) else r
  }

  lemma PartThenPart(d: Decoder, s: seq<Byte>, r: Result, q: Result)
    requires ValidDecoder(d) && PartOf(d, s, r) && r.verdict == More && PartOf(r.d, s[r.used..], q)
    ensures PartOf(d, s, After(r.used, r.out, q))
  {
    if q.verdict == More {
      DropDrop(s, r.used, q.used);
      Assoc(r.out, q.out, DecodeAll(q.d, s[r.used + q.used..]).out);
    }
  }

  /** One byte is the beginning of a run. */
  lemma FirstByte(d: Decoder, s: seq<Byte>)
    requires ValidDecoder(d) && s != [] && OneByte(d, s[0]).verdict == More
    ensures PartOf(d, s, Result(OneByte(d, s[0]).d, 1, OneByte(d, s[0]).out, More))
  {
    OneByteValid(d, s[0]);
  }

  /** A bounded run is the beginning of the whole run. */
  lemma {:induction false} DecodeIsPart(d: Decoder, s: seq<Byte>, room: nat)
    requires ValidDecoder(d)
    ensures PartOf(d, s, Decode(d, s, room))
    decreases |s|
  {
    if s == [] || room == 0 {
      assert s[0..] == s;
      assert [] + DecodeAll(d, s).out == DecodeAll(d, s).out;
    } else {
      var b := OneByte(d, s[0]);
      OneByteValid(d, s[0]);
      if b.verdict == More {
        DecodeIsPart(b.d, s[1..], room - |b.out|);
        FirstByte(d, s);
        PartThenPart(d, s, Result(b.d, 1, b.out, More), Decode(b.d, s[1..], room - |b.out|));
      }
    }
  }

  lemma {:induction false} DecodeAllValid(d: Decoder, s: seq<Byte>)
    requires ValidDecoder(d)
    ensures var r := DecodeAll(d, s); ValidDecoder(r.d) && r.used <= |s| && (r.verdict == More ==> r.used == |s|)
    decreases |s|
  {
    if s != [] {
      OneByteValid(d, s[0]);
      if OneByte(d, s[0]).verdict == More { DecodeAllValid(OneByte(d, s[0]).d, s[1..]); }
    }
  }

  /** Decoding a concatenation is decoding its parts in turn. */
  lemma {:induction false} DecodeConcat(d: Decoder, s: seq<Byte>, t: seq<Byte>)
    requires ValidDecoder(d)
    ensures var r := DecodeAll(d, s);
            && ValidDecoder(r.d)
            && DecodeAll(d, s + t) == if r.verdict == More then After(r.used, r.out, DecodeAll(r.d, t)) else r
    decreases |s|
  {
    if s == [] {
      assert s + t == t;
      assert [] + DecodeAll(d, t).out == DecodeAll(d, t).out;
    } else {
      assert (s + t)[0] == s[0] && (s + t)[1..] == s[1..] + t;
      var b := OneByte(d, s[0]);
      OneByteValid(d, s[0]);
      if b.verdict == More {
        DecodeConcat(b.d, s[1..], t);
        var r := DecodeAll(b.d, s[1..]);
        if r.verdict == More {
          Assoc(b.out, r.out, DecodeAll(r.d, t).out);
        }
      }
    }
  }

  // ---- the bulk copy

  /** The run g(k) copies the byte at k and goes on as g(k + 1). */
  ghost predicate Copies(g: nat -> Result, s: seq<Byte>, k: nat)
    requires k < |s|
  {
    g(k) == After(1, [s[k]], g(k + 1))
  }

  lemma {:induction false} CopiesAll(g: nat -> Result, s: seq<Byte>, n: nat)
    requires n <= |s| && forall k: nat :: k < n ==> Copies(g, s, k)
    ensures g(0) == After(n, s[..n], g(n))
  {
    if n == 0 {
      assert [] + g(0).out == g(0).out;
    } else {
      CopiesAll(g, s, n - 1);
      assert Copies(g, s, n - 1);
      assert s[..n] == s[..n - 1] + [s[n - 1]];
      Assoc(s[..n - 1], [s[n - 1]], g(n).out);
    }
  }

  /** Copying n bytes at once is copying them one by one. */
  lemma BulkCopy(d: Decoder, s: seq<Byte>, room: nat, n: nat)
    requires ValidDecoder(d) && d.status == READING_CONTENT
    requires n <= d.left && n <= |s| && n <= room
    ensures ValidDecoder(Taken(d, n))
    ensures Decode(d, s, room) == After(n, s[..n], Decode(Taken(d, n), s[n..], room - n))
  {
    AllCopy(d, s, room, n);
    CopiesAll(Runs(d, s, room, n), s, n);
    RunsEnds(d, s, room, n);
  }

  /** The runs after each of the first n bytes of content. */
  ghost function Runs(d: Decoder, s: seq<Byte>, room: nat, n: nat): nat -> Result
    requires ValidDecoder(d) && d.status == READING_CONTENT && n <= d.left && n <= |s| && n <= room
  {
    (k: nat) => if k <= n then Decode(Taken(d, k), s[k..], room - k) else Result(d, 0, [], More)
  }

  lemma RunsEnds(d: Decoder, s: seq<Byte>, room: nat, n: nat)
    requires ValidDecoder(d) && d.status == READING_CONTENT && n <= d.left && n <= |s| && n <= room
    ensures var g := Runs(d, s, room, n);
            g(0) == Decode(d, s, room) && ValidDecoder(Taken(d, n)) && g(n) == Decode(Taken(d, n), s[n..], room - n)
  {
    assert s[0..] == s && Taken(d, 0) == d;
  }

  lemma AllCopy(d: Decoder, s: seq<Byte>, room: nat, n: nat)
    requires ValidDecoder(d) && d.status == READING_CONTENT && n <= d.left && n <= |s| && n <= room
    ensures forall k: nat :: k < n ==> Copies(Runs(d, s, room, n), s, k)
  {
    forall k: nat | k < n
      ensures Copies(Runs(d, s, room, n), s, k)
    {
      CopyAt(d, s, room, k);
    }
  }

  lemma CopyAt(d: Decoder, s: seq<Byte>, room: nat, k: nat)
    requires ValidDecoder(d) && d.status == READING_CONTENT
    requires k < d.left && k < |s| && k < room
    ensures ValidDecoder(Taken(d, k)) && ValidDecoder(Taken(d, k + 1))
    ensures Decode(Taken(d, k), s[k..], room - k) ==
            After(1, [s[k]], Decode(Taken(d, k + 1), s[k + 1..], room - k - 1))
  {
    var e, t := Taken(d, k), s[k..];
    assert t[0] == s[k] && Taken(e, 1) == Taken(d, k + 1);
    DropDrop(s, k, 1);
    CopyOne(e, t, room - k);
  }

  lemma CopyOne(d: Decoder, s: seq<Byte>, room: nat)
    requires ValidDecoder(d) && d.status == READING_CONTENT && s != [] && room > 0
    ensures ValidDecoder(Taken(d, 1))
    ensures Decode(d, s, room) == After(1, [s[0]], Decode(Taken(d, 1), s[1..], room - 1))
  {
    assert OneByte(d, s[0]) == Step(Taken(d, 1), [s[0]], More);
    OneByteValid(d, s[0]);
  }

  lemma CopyOneOfAll(d: Decoder, s: seq<Byte>)
    requires ValidDecoder(d) && d.status == READING_CONTENT && s != []
    ensures ValidDecoder(Taken(d, 1))
    ensures DecodeAll(d, s) == After(1, [s[0]], DecodeAll(Taken(d, 1), s[1..]))
  {
    assert OneByte(d, s[0]) == Step(Taken(d, 1), [s[0]], More);
    OneByteValid(d, s[0]);
  }

  lemma {:induction false} BulkCopyAll(d: Decoder, s: seq<Byte>)
    requires ValidDecoder(d) && d.status == READING_CONTENT && |s| <= d.left
    ensures DecodeAll(d, s) == Result(Taken(d, |s|), |s|, s, More)
    decreases |s|
  {
    if s != [] {
      CopyOneOfAll(d, s);
      if |s| > 1 {
        BulkCopyAll(Taken(d, 1), s[1..]);
      }
      assert [s[0]] + s[1..] == s;
    }
  }

  // ---- size fields

  /** No size field met while decoding s outgrows the header buffer and its terminator. */
  ghost predicate FieldsFit(d: Decoder, s: seq<Byte>)
    requires ValidDecoder(d)
    decreases |s|
  {
    && |d.hdr| < HDR_BUF_SIZE
    && (s != [] && OneByte(d, s[0]).verdict == More ==> (OneByteValid(d, s[0]); FieldsFit(OneByte(d, s[0]).d, s[1..])))
  }

  lemma {:induction false} FitsAfterCopy(d: Decoder, s: seq<Byte>, n: nat)
    requires ValidDecoder(d) && d.status == READING_CONTENT && FieldsFit(d, s)
    requires 1 <= n <= d.left && n <= |s|
    ensures ValidDecoder(Taken(d, n)) && FieldsFit(Taken(d, n), s[n..])
    decreases n
  {
    if n > 1 {
      FitsAfterCopy(Taken(d, 1), s[1..], n - 1);
      assert Taken(Taken(d, 1), n - 1) == Taken(d, n);
      assert s[1..][n - 1..] == s[n..];
    }
  }

  lemma {:induction false} FitsAfterDecode(d: Decoder, s: seq<Byte>, room: nat)
    requires ValidDecoder(d) && FieldsFit(d, s) && Decode(d, s, room).verdict == More
    ensures var r := Decode(d, s, room); ValidDecoder(r.d) && r.used <= |s| && FieldsFit(r.d, s[r.used..])
    decreases |s|
  {
    if s == [] || room == 0 {
      assert s[0..] == s;
    } else {
      var b := OneByte(d, s[0]);
      OneByteValid(d, s[0]);
      FitsAfterDecode(b.d, s[1..], room - |b.out|);
      var r := Decode(b.d, s[1..], room - |b.out|);
      DropDrop(s, 1, r.used);
    }
  }

  lemma {:induction false} FitsConcat(d: Decoder, s: seq<Byte>, t: seq<Byte>)
    requires ValidDecoder(d) && FieldsFit(d, s)
    requires DecodeAll(d, s).verdict == More ==> (DecodeAllValid(d, s); FieldsFit(DecodeAll(d, s).d, t))
    ensures FieldsFit(d, s + t)
    decreases |s|
  {
    if s == [] {
      assert s + t == t;
    } else {
      assert (s + t)[0] == s[0] && (s + t)[1..] == s[1..] + t;
      if OneByte(d, s[0]).verdict == More {
        OneByteValid(d, s[0]);
        DecodeAllValid(OneByte(d, s[0]).d, s[1..]);
        FitsConcat(OneByte(d, s[0]).d, s[1..], t);
      }
    }
  }

  lemma {:induction false} FitsSplit(d: Decoder, s: seq<Byte>, t: seq<Byte>)
    requires ValidDecoder(d) && FieldsFit(d, s + t)
    ensures FieldsFit(d, s)
    ensures DecodeAll(d, s).verdict == More ==> (DecodeAllValid(d, s); FieldsFit(DecodeAll(d, s).d, t))
    decreases |s|
  {
    if s == [] {
      assert s + t == t;
    } else {
      assert (s + t)[0] == s[0] && (s + t)[1..] == s[1..] + t;
      if OneByte(d, s[0]).verdict == More {
        OneByteValid(d, s[0]);
        FitsSplit(OneByte(d, s[0]).d, s[1..], t);
      }
    }
  }

  // ---- any division of the input, any sizes of the output buffer

  /** A call of the converter: how many of the remaining bytes it is shown, and the room it is given. */
  datatype Call = Call(shown: nat, room: nat)

  /** The calls made one after another on a stream, each resuming where the last one stopped, until a verdict. */
  function Session(d: Decoder, s: seq<Byte>, calls: seq<Call>): (r: Result)
    requires ValidDecoder(d)
    decreases |calls|
  {
    if calls == [] then Result(d, 0, [], More)
    else
      var n := Min(calls[0].shown, |s|);
      var r := Decode(d, s[..n], calls[0].room);
      if r.verdict != More then r
      else
        DecodeValid(d, s[..n], calls[0].room);
        After(r.used, r.out, Session(r.d, s[r.used..], calls[1..]))
  }

  /** The beginning of a run over the first n bytes is the beginning of the run over all of them. */
  lemma PartOfPrefix(d: Decoder, s: seq<Byte>, n: nat, r: Result)
    requires ValidDecoder(d) && n <= |s| && PartOf(d, s[..n], r)
    ensures PartOf(d, s, r)
  {
    assert s == s[..n] + s[n..];
    DecodeConcat(d, s[..n], s[n..]);
    if r.verdict == More {
      var rest := s[..n][r.used..];
      assert s[r.used..] == rest + s[n..];
      DecodeConcat(r.d, rest, s[n..]);
      var q := DecodeAll(r.d, rest);
      if q.verdict == More {
        Assoc(r.out, q.out, DecodeAll(q.d, s[n..]).out);
      }
    }
  }

  /** Whatever the division, a session is the beginning of the undivided run. */
  lemma {:induction false} SessionIsPart(d: Decoder, s: seq<Byte>, calls: seq<Call>)
    requires ValidDecoder(d)
    ensures PartOf(d, s, Session(d, s, calls))
    decreases |calls|
  {
    if calls == [] {
      assert s[0..] == s;
      assert [] + DecodeAll(d, s).out == DecodeAll(d, s).out;
    } else {
      var n := Min(calls[0].shown, |s|);
      var r := Decode(d, s[..n], calls[0].room);
      DecodeIsPart(d, s[..n], calls[0].room);
      PartOfPrefix(d, s, n, r);
      if r.verdict == More {
        var q := Session(r.d, s[r.used..], calls[1..]);
        SessionIsPart(r.d, s[r.used..], calls[1..]);
        PartThenPart(d, s, r, q);
      }
    }
  }

  /** Calls that each show a byte and leave room for one: enough of them reach the end or a verdict. */
  lemma {:induction false} SessionEnds(d: Decoder, s: seq<Byte>, calls: seq<Call>)
    requires ValidDecoder(d) && |calls| >= |s|
    requires forall i :: 0 <= i < |calls| ==> calls[i].shown >= 1 && calls[i].room >= 1
    ensures Session(d, s, calls) == DecodeAll(d, s)
    decreases |calls|
  {
    SessionIsPart(d, s, calls);
    if s == [] {
      EmptySession(d, calls);
    } else {
      var n := Min(calls[0].shown, |s|);
      var r := Decode(d, s[..n], calls[0].room);
      DecodeValid(d, s[..n], calls[0].room);
      if r.verdict == More {
        SessionEnds(r.d, s[r.used..], calls[1..]);
        DecodeIsPart(d, s[..n], calls[0].room);
        PartOfPrefix(d, s, n, r);
      }
    }
  }

  lemma {:induction false} EmptySession(d: Decoder, calls: seq<Call>)
    requires ValidDecoder(d)
    ensures Session(d, [], calls) == Result(d, 0, [], More)
    decreases |calls|
  {
    if calls != [] {
      assert Min(calls[0].shown, 0) == 0;
      EmptySession(d, calls[1..]);
    }
  }
}
