/** An input stream with a buffer in front of a base stream (evd/evd-buffered-input-stream.c). */
module BufferedInput {
  import opened Prelude

  /** What a read gives: the buffer first, and of the base stream exactly what it answered for what the buffer lacks. */
  ghost predicate ReadTells(frozen: bool, buffered: nat, size: nat, answers: seq<int>, n: int) {
    if frozen then answers == [] && n == -1
    else if size <= buffered then answers == [] && n == size
    else |answers| == 1 && n == if answers[0] < 0 && buffered == 0 then -1 else buffered + Max(answers[0], 0)
  }

  class Stream {
    const capacity: nat
    var buffer: seq<Byte>
    var frozen: bool
    var base: seq<Byte> // what the base stream has still to give
    ghost var answers: seq<int> // history: how much each read of it gave, or -1

    /** The one stream that readers see. */
    ghost function Logical(): seq<Byte>
      reads this
    {
      buffer + base
    }

    ghost predicate Valid()
      reads this
    {
      |buffer| <= capacity
    }

    constructor (capacity: nat, base: seq<Byte>)
      ensures Valid() && Logical() == base && !frozen
    {
      this.capacity, this.base := capacity, base;
      buffer, frozen, answers := [], false, [];
    }

    /** The base stream gives as much as it likes, or fails. */
    method BaseRead(size: nat) returns (n: int, data: seq<Byte>)
      modifies this`base, this`answers
      ensures answers == old(answers) + [n]
      ensures -1 <= n <= size && |data| == Max(n, 0) && old(base) == data + base
    {
      n := *;
      if n < 0 || n > size || n > |base| { n := -1; }
      answers := answers + [n];
      data, base := base[..Max(n, 0)], base[Max(n, 0)..];
    }

    /** `evd_buffered_input_stream_read`: pops from the front of the logical stream, or does nothing. */
    method Read(size: nat) returns (n: int, data: seq<Byte>)
      requires Valid()
      modifies this`buffer, this`base, this`answers
      ensures Valid() && -1 <= n <= size && |data| == Max(n, 0)
      ensures old(Logical()) == data + Logical()
      ensures buffer == old(buffer)[Min(|data|, |old(buffer)|)..]
      ensures old(answers) <= answers && ReadTells(frozen, |old(buffer)|, size, answers[|old(answers)|..], n)
    {
      if frozen { return -1, []; }
      var fromBuffer: nat := 0;
      if |buffer| > 0 { fromBuffer := Min(|buffer|, size); }
      var fromStream, more := 0, [];
      if size - fromBuffer > 0 {
        fromStream, more := BaseRead(size - fromBuffer);
        if fromStream < 0 {
          if fromBuffer == 0 { return -1, []; }
          fromStream := 0;
        }
      }
      data := buffer[..fromBuffer] + more;
      buffer := buffer[fromBuffer..];
      n := fromStream + fromBuffer;
    }

    /** `evd_buffered_input_stream_unread`: pushes back to the front exactly when there is room. */
    method Unread(data: seq<Byte>) returns (n: int)
      requires Valid()
      modifies this`buffer
      ensures Valid() && n == if data == [] || |old(buffer)| + |data| <= capacity then |data| else -1
      ensures Logical() == if n >= 0 then data + old(Logical()) else old(Logical())
    {
      if data == [] { return 0; }
      if |buffer| + |data| > capacity { return -1; }
      buffer := data + buffer;
      n := |data|;
    }

    /** Putting back what was just read always works for requests within the capacity, and undoes the read. */
    method Peek(size: nat) returns (n: int, data: seq<Byte>)
      requires Valid() && size <= capacity
      modifies this`buffer, this`base, this`answers
      ensures Valid() && -1 <= n <= size && Logical() == old(Logical()) && |data| == Max(n, 0) && data <= Logical()
      ensures old(answers) <= answers && ReadTells(frozen, |old(buffer)|, size, answers[|old(answers)|..], n)
    {
      n, data := Read(size);
      if n >= 0 {
        var m := Unread(data);
        assert m == n;
      }
    }
  }
}
