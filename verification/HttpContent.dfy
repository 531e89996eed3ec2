/** Reading a whole body that is not chunked, block by block (evd/evd-http-connection.c). */
module HttpContent {
  import opened Prelude

  const CONTENT_BLOCK_SIZE := 4096

  /** How the end of the body is known (section 3.3 of RFC 7230): by its length, or by the end of the connection. */
  datatype Encoding = ContentLength(len: nat) | UntilEof

  /** A read of the connection: what was asked for, what came (none at the end, -1 for an error), and if it is open. */
  datatype Answer = Answer(asked: nat, count: int, open: bool)

  function Total(answers: seq<Answer>): nat {
    if answers == [] then 0 else Total(answers[..|answers| - 1]) + Max(answers[|answers| - 1].count, 0)
  }

  function BlockAfter(encoding: Encoding, read: nat): int {
    if encoding.ContentLength? then Min(encoding.len - read, CONTENT_BLOCK_SIZE) else CONTENT_BLOCK_SIZE
  }

  /** Reading is over: nothing more came, the connection is closed, or the length is reached. */
  predicate Over(encoding: Encoding, answers: seq<Answer>) {
    && answers != []
    && var last := answers[|answers| - 1];
       last.count <= 0 || !last.open || encoding == ContentLength(Total(answers))
  }

  /** Each read asks for the rest of the body, up to a block, and follows one after which reading is not over. */
  ghost predicate Regular(encoding: Encoding, answers: seq<Answer>) {
    forall i {:trigger answers[..i]} :: 0 <= i < |answers| ==>
      !Over(encoding, answers[..i]) && answers[i].asked == BlockAfter(encoding, Total(answers[..i]))
  }

  lemma RegularMore(encoding: Encoding, answers: seq<Answer>, a: Answer)
    requires Regular(encoding, answers) && !Over(encoding, answers) && a.asked == BlockAfter(encoding, Total(answers))
    ensures Regular(encoding, answers + [a]) && Total(answers + [a]) == Total(answers) + Max(a.count, 0)
    ensures Over(encoding, answers + [a]) <==>
              a.count <= 0 || !a.open || encoding == ContentLength(Total(answers) + Max(a.count, 0))
  {
    var more := answers + [a];
    assert more[..|more| - 1] == answers;
    forall i | 0 <= i < |more|
      ensures !Over(encoding, more[..i]) && more[i].asked == BlockAfter(encoding, Total(more[..i]))
    {
      if i < |answers| {
        assert more[..i] == answers[..i];
      }
    }
  }

  lemma FrontGrows(s: seq<Byte>, k: nat, n: nat)
    requires k + n <= |s|
    ensures s[..k + n] == s[..k] + s[k..k + n]
  {
  }

  class ContentReader {
    const encoding: Encoding
    var buf: seq<Byte>
    var contentRead: nat
    var source: seq<Byte>    // what the connection has still to give
    var got: seq<Byte>       // history: what it gave
    ghost var answers: seq<Answer> // history: what it was asked and answered

    /** Between blocks: what was read is at the front, and the buffer is no longer than the next block asks for. */
    ghost predicate Valid()
      reads this
    {
      && contentRead == |got| == Total(answers) <= |buf| && buf[..contentRead] == got
      && (encoding.ContentLength? ==> contentRead <= encoding.len)
      && |buf| <= contentRead + BlockAfter(encoding, contentRead)
      && Regular(encoding, answers)
    }

    constructor (encoding: Encoding, source: seq<Byte>)
      ensures Valid() && got == [] && this.source == source && this.encoding == encoding
    {
      this.encoding, this.source := encoding, source;
      buf, contentRead, got, answers := [], 0, [], [];
    }

    /** `evd_http_connection_read_next_content_block`: the block begins exactly where the last one's data ended. */
    method ReadNextContentBlock(filler: Byte) returns (offset: int, size: nat)
      requires Valid() && (encoding.ContentLength? ==> contentRead < encoding.len)
      modifies this`buf
      ensures Valid() && offset == contentRead && |buf| == contentRead + size
      ensures size == BlockAfter(encoding, contentRead) > 0
    {
      size := CONTENT_BLOCK_SIZE;
      if encoding.ContentLength? { size := Min(encoding.len - contentRead, CONTENT_BLOCK_SIZE); }
      if |buf| < contentRead + size {
        buf := buf + seq(contentRead + size - |buf|, i => filler);
      }
      offset := |buf| - size;
    }

    /** The connection puts any number of bytes into the block: none at its end, fewer than none for an error. */
    method Receive(offset: nat, size: nat) returns (n: int, open: bool)
      requires offset + size == |buf|
      modifies this`buf, this`source, this`got, this`answers
      ensures answers == old(answers) + [Answer(size, n, open)]
      ensures -1 <= n <= size && n <= |old(source)| && |buf| == |old(buf)| && buf[..offset] == old(buf)[..offset]
      ensures var data := old(source)[..Max(n, 0)];
              source == old(source)[|data|..] && got == old(got) + data && buf[offset..offset + |data|] == data
    {
      n := *;
      open := *;
      if n < 0 || n > size || n > |source| { n := -1; }
      answers := answers + [Answer(size, n, open)];
      if n > 0 {
        buf := buf[..offset] + source[..n] + buf[offset + n..];
        got, source := got + source[..n], source[n..];
      }
    }

    /** One block: its data follows what was read before, with no gap and no overlap. */
    method ReadBlock(filler: Byte) returns (done: bool)
      requires Valid() && !Over(encoding, answers) && (encoding.ContentLength? ==> contentRead < encoding.len)
      modifies this
      ensures Valid() && |answers| == |old(answers)| + 1 && old(answers) <= answers
      ensures done <==> Over(encoding, answers)
      ensures got + source == old(got) + old(source) && old(got) <= got && (done || |source| < |old(source)|)
    {
      var offset, size := ReadNextContentBlock(filler);
      var n, open := Receive(offset, size);
      RegularMore(encoding, old(answers), Answer(size, n, open));
      done := n <= 0;
      if n > 0 {
        FrontGrows(buf, offset, n);
        contentRead := contentRead + n;
        if !open || (encoding.ContentLength? && contentRead >= encoding.len) { done := true; }
      }
    }

    /**
      `evd_http_connection_read_all_content`: the buffer ends up holding the bytes read, in order, and reading ends
      exactly when it is over.  For an empty body nothing is read and nothing changes.
     */
    method ReadAllContent(filler: Byte)
      modifies this
      ensures encoding == ContentLength(0) ==>
                && buf == old(buf) && contentRead == old(contentRead) && got == old(got) && source == old(source)
                && answers == old(answers)
      ensures encoding != ContentLength(0) ==>
                && buf == got && contentRead == |buf| == Total(answers) && old(source) == got + source
                && Regular(encoding, answers) && Over(encoding, answers)
      ensures encoding.ContentLength? && encoding.len > 0 ==> |buf| <= encoding.len
    {
      if encoding == ContentLength(0) { return; }
      buf, contentRead, got, answers := [], 0, [], [];
      var done := false;
      while !done
        invariant Valid() && old(source) == got + source
        invariant done <==> Over(encoding, answers)
        invariant !done && encoding.ContentLength? ==> contentRead < encoding.len
        decreases !done, |source|
      {
        done := ReadBlock(filler);
      }
      buf := buf[..contentRead];
    }
  }
}
