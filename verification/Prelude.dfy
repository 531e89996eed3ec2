/** Small shared vocabulary. */
module Prelude {

  type Byte = b: int | 0 <= b < 256

  const CR: Byte := 13
  const LF: Byte := 10
  const CRLF: seq<Byte> := [CR, LF]

  /** The code of a character; negative for bytes above 127 where plain char is signed. */
  type Ch = int

  const TWO32 := 0x1_0000_0000

  datatype Option<+T> = None | Some(value: T)

  function Min(a: int, b: int): int {
    if a < b then a else b
  }

  function Max(a: int, b: int): int {
    if a > b then a else b
  }

  /** The concatenation of a sequence of sequences. */
  function Concat<T>(xs: seq<seq<T>>): seq<T> {
    if xs == [] then [] else xs[0] + Concat(xs[1..])
  }

  lemma {:induction false} ConcatSnoc<T>(xs: seq<seq<T>>, x: seq<T>)
    ensures Concat(xs + [x]) == Concat(xs) + x
  {
    if xs == [] {
      assert xs + [x] == [x];
      assert [x][1..] == [];
    } else {
      assert (xs + [x])[1..] == xs[1..] + [x];
      ConcatSnoc(xs[1..], x);
    }
  }

  lemma {:induction false} ConcatBoth<T>(xs: seq<seq<T>>, ys: seq<seq<T>>)
    ensures Concat(xs + ys) == Concat(xs) + Concat(ys)
  {
    if xs == [] {
      assert xs + ys == ys;
    } else {
      assert (xs + ys)[1..] == xs[1..] + ys;
      ConcatBoth(xs[1..], ys);
      Assoc(xs[0], Concat(xs[1..]), Concat(ys));
    }
  }

  lemma Assoc<T>(a: seq<T>, b: seq<T>, c: seq<T>)
    ensures a + b + c == a + (b + c)
  {
  }

  lemma DropDrop<T>(s: seq<T>, a: nat, b: nat)
    requires a + b <= |s|
    ensures s[a..][b..] == s[a + b..]
  {
  }

  /** Each event of a log may follow those before it. */
  ghost predicate Lawfully<E>(lawful: (seq<E>, E) -> bool, log: seq<E>) {
    forall k: nat {:trigger log[..k]} :: k < |log| ==> lawful(log[..k], log[k])
  }

  lemma Append<E>(lawful: (seq<E>, E) -> bool, log: seq<E>, e: E)
    requires Lawfully(lawful, log) && lawful(log, e)
    ensures Lawfully(lawful, log + [e])
  {
    var more := log + [e];
    forall k: nat | k < |more|
      ensures lawful(more[..k], more[k])
    {
      if k < |log| {
        assert more[..k] == log[..k];
      } else {
        assert more[..k] == log;
      }
    }
  }

  lemma Past<E>(log: seq<E>, j: nat)
    requires j <= |log|
    ensures forall i: nat :: i < j ==> log[i] in log[..j]
  {
    forall i: nat | i < j
      ensures log[i] in log[..j]
    {
      assert log[..j][i] == log[i];
    }
  }
}
