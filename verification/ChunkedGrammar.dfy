/**
  Chunked bodies as the decoder of evd/evd-http-chunked-decoder.c takes them (section 4.1 of RFC 7230, without
  extensions and trailers), said without the decoder and without its conversion of sizes.
 */
module ChunkedGrammar {
  import opened Prelude
  import opened Hex

  ghost predicate IsFieldByte(c: Byte) { c == 32 || exists d :: 0 <= d < 16 && IsDigitOf(c, d) }

  /** Blanks, a numeral, and after a further blank anything that a size field may hold. */
  ghost predicate FieldParts(f: seq<Byte>, a: seq<Byte>, b: seq<Byte>, t: seq<Byte>, n: nat) {
    && f != [] && f == a + b + t && (b == [] ==> t == [])
    && (forall i :: 0 <= i < |a| ==> a[i] == 32)
    && Spells(b, n)
    && (t != [] ==> t[0] == 32) && (forall i :: 0 <= i < |t| ==> IsFieldByte(t[i]))
  }

  /** The field says n: its numeral denotes n, as far as 32 bits hold it; no numeral says 0. */
  ghost predicate FieldSays(f: seq<Byte>, n: nat) {
    exists a, b, t, m: nat :: FieldParts(f, a, b, t, m) && n == m % TWO32
  }

  datatype Chunk = Chunk(field: seq<Byte>, data: seq<Byte>)

  function ChunkText(c: Chunk): seq<Byte> { c.field + CRLF + c.data + CRLF }

  /** The chunks and the line that ends them. */
  function BodyText(cs: seq<Chunk>, last: seq<Byte>): seq<Byte> {
    if cs == [] then last + CRLF else ChunkText(cs[0]) + BodyText(cs[1..], last)
  }

  function Content(cs: seq<Chunk>): seq<Byte> {
    if cs == [] then [] else cs[0].data + Content(cs[1..])
  }

  ghost predicate ValidChunk(c: Chunk) { c.data != [] && FieldSays(c.field, |c.data|) }

  ghost predicate ValidBody(cs: seq<Chunk>, last: seq<Byte>) {
    (forall i :: 0 <= i < |cs| ==> ValidChunk(cs[i])) && FieldSays(last, 0)
  }

  /** The input begins with a chunked body for this content, of this length. */
  ghost predicate BeginsWithBody(s: seq<Byte>, content: seq<Byte>, used: nat) {
    exists cs, last :: ValidBody(cs, last) && BodyText(cs, last) <= s && Content(cs) == content
                       && |BodyText(cs, last)| == used
  }
}
