/** A socket input stream reads one byte ahead to see whether more is there (evd/evd-socket-input-stream.c). */
module SocketInput {
  import opened Prelude

  /** A receive: how much was asked for, and how much came, or -1. */
  datatype Answer = Answer(asked: nat, count: int)

  /**
    What a read tells: the held byte and what came behind it, but for a new byte to hold if all came that was asked
    for; an error only if nothing was held; and that the socket is drained if less came than was asked for.
   */
  predicate ReadTells(held: nat, a: Answer, blocks: bool, r: int, drained: bool) {
    && r == (if a.count < 0 then (if held == 0 then -1 else held)
             else if a.count < a.asked then held + a.count
             else held + a.count - 1)
    && (drained <==> if a.count < 0 then blocks else a.count < a.asked)
  }

  class Stream {
    var bag: Byte
    var hasBag: bool

    // history: what the socket gave and what readers were given
    var received: seq<Byte>
    var delivered: seq<Byte>
    ghost var answers: seq<Answer> // history: how much the socket was asked for, and gave or -1

    ghost function Held(): seq<Byte>
      reads this
    {
      if hasBag then [bag] else []
    }

    ghost predicate Valid()
      reads this
    {
      received == delivered + Held()
    }

    constructor ()
      ensures Valid() && received == []
    {
      bag, hasBag, received, delivered, answers := 0, false, [], [], [];
    }

    /** The socket writes up to size bytes at an offset of the buffer, or fails; it tells when nothing is there. */
    method Receive(buffer: array<Byte>, offset: nat, size: nat, data: seq<Byte>) returns (n: int)
      requires offset + size <= buffer.Length
      modifies buffer, this`received, this`answers
      ensures answers == old(answers) + [Answer(size, n)]
      ensures -1 <= n <= size
      ensures n >= 0 ==> received == old(received) + buffer[offset..offset + n]
      ensures n < 0 ==> received == old(received)
      ensures forall i :: 0 <= i < buffer.Length && !(offset <= i < offset + n) ==> buffer[i] == old(buffer[i])
    {
      n := *;
      if n < 0 || n > size || n > |data| { n := -1; }
      answers := answers + [Answer(size, n)];
      if n < 0 { return; }
      for i := 0 to n
        invariant received == old(received) && answers == old(answers) + [Answer(size, n)]
        invariant buffer[offset..offset + i] == data[..i]
        invariant forall j :: 0 <= j < buffer.Length && !(offset <= j < offset + i) ==> buffer[j] == old(buffer[j])
      {
        buffer[offset + i] := data[i];
      }
      assert data[..n] == buffer[offset..offset + n];
      received := received + data[..n];
    }

    /** What becomes of n bytes received behind the held one: a full buffer gives its last byte to the bag. */
    method Settle(buffer: array<Byte>, bagSize: nat, want: nat, n: int, blocks: bool) returns (r: int, drained: bool)
      requires -1 <= n <= want && 0 < bagSize + want <= buffer.Length && bagSize == if hasBag then 1 else 0
      requires received == delivered + buffer[..bagSize + Max(n, 0)]
      modifies buffer, this`bag, this`hasBag, this`delivered
      ensures Valid() && ReadTells(bagSize, Answer(want, n), blocks, r, drained)
      ensures delivered == old(delivered) + buffer[..Max(r, 0)]
      ensures hasBag <==> n == want
      ensures forall i :: 0 <= i < buffer.Length ==>
                buffer[i] == if hasBag && i == bagSize + want - 1 then 0 else old(buffer[i])
    {
      drained := false;
      r := n;
      if n < 0 {
        drained := blocks;
        if bagSize > 0 { r, hasBag := 0, false; }
      } else if n < want {
        hasBag, drained := false, true;
      } else {
        ghost var all := buffer[..bagSize + n];
        bag := buffer[bagSize + n - 1];
        buffer[bagSize + n - 1] := 0;
        assert all == buffer[..bagSize + n - 1] + [bag];
        r, hasBag := n - 1, true;
      }
      r := r + bagSize;
      delivered := delivered + buffer[..Max(r, 0)];
    }

    /**
      `evd_socket_input_stream_read`, whatever the socket has or does not have: nothing received is lost or given
      twice.  The buffer must have room for one byte more than is asked for.
     */
    method Read(buffer: array<Byte>, size: nat, available: seq<Byte>, blocks: bool) returns (r: int, drained: bool)
      requires Valid() && size < buffer.Length
      modifies buffer, this
      ensures Valid() && -1 <= r <= Max(size, 1)
      ensures delivered == old(delivered) + buffer[..Max(r, 0)]
      ensures old(received) <= received
      // one byte ahead: with the held byte that makes one more than the caller wants
      ensures |answers| == |old(answers)| + 1 && old(answers) <= answers
      ensures var a := answers[|old(answers)|];
              && a.asked == (if old(hasBag) then size else size + 1)
              && ReadTells(|old(Held())|, a, blocks, r, drained) && (hasBag <==> a.count == a.asked)
      ensures hasBag ==> r == size
      // beyond what was asked for only one byte is written to, and only when there was more: it ends as zero
      ensures forall i :: size < i < buffer.Length ==> buffer[i] == old(buffer[i])
      ensures hasBag ==> buffer[size] == 0
      ensures !hasBag && size > 0 ==> buffer[size] == old(buffer[size])
    {
      var want, bagSize := size, 0;
      if hasBag {
        buffer[0] := bag;
        bagSize := 1;
      } else {
        want := size + 1;
      }
      ghost var room := buffer[..bagSize];
      assert room == Held();
      var n := Receive(buffer, bagSize, want, available);
      ghost var got := buffer[bagSize..bagSize + Max(n, 0)];
      assert buffer[..bagSize + Max(n, 0)] == room + got;
      Assoc(delivered, room, got);
      assert received == delivered + room + got;
      r, drained := Settle(buffer, bagSize, want, n, blocks);
    }
  }
}
