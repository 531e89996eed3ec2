/** Reading the header section of an HTTP message block by block (evd/evd-http-connection.c). */
module HttpHeaders {
  import opened Prelude

  const HEADER_BLOCK_SIZE := 256
  const MAX_HEADERS_SIZE := 16 * 1024

  predicate Text(c: Byte) { c != CR && c != LF }

  /** The byte at i of a string buffer, which has a NUL after its last byte. */
  function At(b: seq<Byte>, i: nat): Byte
    requires i <= |b|
  {
    if i < |b| then b[i] else 0
  }

  predicate Mark(b: seq<Byte>, i: nat) {
    i + 4 <= |b| && b[i] == CR && b[i + 1] == LF && b[i + 2] == CR && b[i + 3] == LF
  }

  /** The naive search: the first CRLFCRLF at or after from, or -1. */
  function FirstMark(b: seq<Byte>, from: nat): (r: int)
    ensures r == -1 || (from <= r && Mark(b, r))
    ensures forall i: nat :: from <= i && (r == -1 || i < r) ==> !Mark(b, i)
    decreases |b| - from
  {
    if from >= |b| then -1
    else if Mark(b, from) then from
    else FirstMark(b, from + 1)
  }

  /** What the naive search gives: the position after the blank line, or -1. */
  function EndOfHeaders(b: seq<Byte>): int {
    var p := FirstMark(b, 0);
    if p == -1 then -1 else p + 4
  }

  /** A line ends at i: two text bytes and a carriage return, at least three bytes into the buffer. */
  predicate LineEnd(b: seq<Byte>, i: nat) {
    3 <= i < |b| && b[i] == CR && Text(b[i - 1]) && Text(b[i - 2])
  }

  predicate BlankLine(b: seq<Byte>, i: nat) {
    2 <= i < |b| && b[i] == CR && b[i - 1] == LF && b[i - 2] == CR
  }

  /**
    The form of a header section (section 3.2 of RFC 7230) up to h: CR and LF only as CRLF, lines of at least two
    characters, the first of at least three, and no CR or LF right after the section.
   */
  ghost predicate Form(b: seq<Byte>, h: nat) {
    && h <= |b|
    && (forall i: nat {:trigger Proper(b, h, i)} :: i < h ==> Proper(b, h, i))
    && (h < |b| ==> Text(b[h]))
  }

  predicate Proper(b: seq<Byte>, h: nat, i: nat)
    requires i < h <= |b|
  {
    && (b[i] == CR ==> (LineEnd(b, i) || BlankLine(b, i)) && (i + 1 < |b| ==> i + 1 < h && b[i + 1] == LF))
    && (b[i] == LF ==> i > 0 && b[i - 1] == CR)
  }

  ghost function SectionEnd(b: seq<Byte>): nat {
    var p := FirstMark(b, 0);
    if p == -1 then |b| else p + 4
  }

  ghost predicate WellFormed(b: seq<Byte>) { Form(b, SectionEnd(b)) }

  // ---- why the index, which moves both ways, gets somewhere

  /** The position the search is bound to reach next, and how many moves away it is. */
  ghost function Goal(b: seq<Byte>, i: nat): int
    requires i < |b|
  {
    if Text(b[i]) then i + 4
    else if Near(b, i) != -1 then Near(b, i) + 4
    else if i + 1 == |b| && b[i] == CR then (if i >= 3 && b[i - 3] == LF then i - 2 else i + 1)
    else if b[i] == CR then i + 3
    else if i + 1 == |b| || Text(b[i + 1]) then i + 1
    else i + 2
  }

  ghost function Moves(b: seq<Byte>, i: nat): nat
    requires i < |b|
  {
    if Text(b[i]) then 0
    else if Near(b, i) != -1 then (if i == Near(b, i) then 0 else if i == Near(b, i) + 2 then 2 else 1)
    else if i + 1 == |b| && b[i] == CR then 2
    else if b[i] == CR || i + 1 == |b| || Text(b[i + 1]) then 1
    else 2
  }

  /** The blank line that i lies in, if it is complete. */
  ghost function Near(b: seq<Byte>, i: nat): int
    requires i < |b|
  {
    if Mark(b, i) then i
    else if i >= 1 && Mark(b, i - 1) then i - 1
    else if i >= 2 && Mark(b, i - 2) then i - 2
    else if i >= 3 && Mark(b, i - 3) then i - 3
    else -1
  }

  ghost predicate Nearer(b: seq<Byte>, i: nat, j: nat)
    requires i < |b|
  {
    j >= |b| || Goal(b, j) > Goal(b, i) || (Goal(b, j) == Goal(b, i) && Moves(b, j) < Moves(b, i))
  }

  /** The search stays at or before the end of the blank line. */
  ghost predicate Within(b: seq<Byte>, i: int) {
    var p := FirstMark(b, 0);
    p != -1 ==> i <= p + 3
  }

  lemma JumpForward(b: seq<Byte>, i: nat)
    requires WellFormed(b) && i < |b| && Within(b, i) && Text(b[i])
    ensures Within(b, i + 4) && Nearer(b, i, i + 4)
  {
    var h := SectionEnd(b);
    if i + 1 < h { assert Proper(b, h, i + 1); }
    if i + 2 < h { assert Proper(b, h, i + 2); }
    if i + 3 < h { assert Proper(b, h, i + 3); }
    if i + 4 < h { assert Proper(b, h, i + 4); }
  }

  lemma JumpBack(b: seq<Byte>, i: nat)
    requires WellFormed(b) && i < |b| && Within(b, i) && !Text(b[i]) && Text(At(b, i + 1))
    ensures i >= 3 && Within(b, i - 3) && Nearer(b, i, i - 3)
  {
    var h := SectionEnd(b);
    assert Proper(b, h, i);
    if b[i] == LF {
      assert Proper(b, h, i - 1);
    } else if BlankLine(b, i) {
      assert Proper(b, h, i - 2);
    } else {
      assert Proper(b, h, i - 3);
      if b[i - 3] == LF { assert Proper(b, h, i - 4); }
    }
  }

  /** Two control bytes that do not open the blank line: they are a line end, or lie in the blank line. */
  lemma StepBack(b: seq<Byte>, i: nat)
    requires WellFormed(b) && i < |b| && Within(b, i) && !Text(b[i]) && !Text(At(b, i + 1))
    requires !(i + 3 <= |b| && At(b, i + 2) == CR && At(b, i + 3) == LF)
    ensures i >= 1 && Within(b, i - 1) && Nearer(b, i, i - 1)
  {
    var h := SectionEnd(b);
    assert Proper(b, h, i);
    if i + 1 < h { assert Proper(b, h, i + 1); }
  }

  /** Four control bytes open the blank line. */
  lemma FourControls(b: seq<Byte>, i: nat)
    requires WellFormed(b) && i < |b| && Within(b, i) && !Text(b[i]) && !Text(At(b, i + 1))
    requires i + 3 <= |b| && At(b, i + 2) == CR && At(b, i + 3) == LF
    ensures b[i] == CR && b[i + 1] == LF && i + 4 == EndOfHeaders(b)
  {
    var h := SectionEnd(b);
    assert Proper(b, h, i);
    if i + 1 < h { assert Proper(b, h, i + 1); }
    assert Mark(b, i);
  }

  datatype Next = Found(pos: nat) | Goto(i: int)

  /** One turn of the search loop. */
  function Turn(b: seq<Byte>, i: nat): Next
    requires i < |b|
  {
    if b[i] != CR && b[i] != LF then Goto(i + 4)
    else if At(b, i + 1) != CR && At(b, i + 1) != LF then Goto(i - 3)
    else if At(b, i + 2) == CR && At(b, i + 3) == LF then
      if b[i] == CR && b[i + 1] == LF then Found(i + 4) else Goto(i + 4)
    else Goto(i - 1)
  }

  /** Every turn on a header section either finds its end or gets nearer to it. */
  lemma TurnAdvances(b: seq<Byte>, i: nat)
    requires WellFormed(b) && i < |b| && Within(b, i)
    ensures match Turn(b, i) {
              case Found(pos) => pos == EndOfHeaders(b)
              case Goto(j) => j >= 0 && Within(b, j) && Nearer(b, i, j)
            }
  {
    if Text(b[i]) { JumpForward(b, i); }
    else if Text(At(b, i + 1)) { JumpBack(b, i); }
    else if At(b, i + 2) == CR && At(b, i + 3) == LF { FourControls(b, i); }
    else { StepBack(b, i); }
  }

  // ---- the search on any buffer

  /** The search after so many turns: ended with an answer, or still going. */
  datatype Walked = Ended(pos: int) | Going(i: nat)

  /** A negative index is past the end, because it is compared as an unsigned number. */
  function Walk(b: seq<Byte>, i: int, n: nat): (w: Walked)
    ensures w.Going? ==> w.i < |b|
    ensures w.Ended? ==> w.pos == -1 || 4 <= w.pos <= |b|
    decreases n
  {
    if i < 0 || i >= |b| then Ended(-1)
    else if n == 0 then Going(i)
    else
      match Turn(b, i)
      case Found(p) => Ended(p)
      case Goto(j) => Walk(b, j, n - 1)
  }

  lemma {:induction false} WalkMore(b: seq<Byte>, i: int, n: nat, m: nat)
    requires Walk(b, i, n).Ended? && n <= m
    ensures Walk(b, i, m) == Walk(b, i, n)
    decreases n
  {
    if 0 <= i < |b| && Turn(b, i).Goto? {
      WalkMore(b, Turn(b, i).i, n - 1, m - 1);
    }
  }

  lemma {:induction false} WalkOn(b: seq<Byte>, i: int, n: nat, m: nat)
    requires Walk(b, i, n).Going?
    ensures Walk(b, i, n + m) == Walk(b, Walk(b, i, n).i, m)
    decreases n
  {
    if n > 0 {
      WalkOn(b, Turn(b, i).i, n - 1, m);
    }
  }

  /** A search that comes back to a position goes on for ever. */
  lemma {:induction false} Circle(b: seq<Byte>, i: int, a: nat, c: nat, n: nat)
    requires a < c && Walk(b, i, a).Going? && Walk(b, i, c) == Walk(b, i, a)
    ensures Walk(b, i, n).Going?
    decreases n
  {
    if n <= c {
      if Walk(b, i, n).Ended? { WalkMore(b, i, n, c); }
    } else {
      Circle(b, i, a, c, a + (n - c));
      WalkOn(b, i, a, n - c);
      WalkOn(b, i, c, n - c);
    }
  }

  /** Among more than m numbers below m two are equal. */
  lemma {:induction false} Pigeons(ps: seq<nat>, m: nat) returns (a: nat, c: nat)
    requires |ps| > m && forall k :: 0 <= k < |ps| ==> ps[k] < m
    ensures a < c < |ps| && ps[a] == ps[c]
    decreases m
  {
    var n := |ps| - 1;
    var last := ps[n];
    if k: nat :| k < n && ps[k] == last {
      a, c := k, n;
    } else {
      var qs := seq(n, k requires 0 <= k < n => if ps[k] == m - 1 then last else ps[k]);
      a, c := Pigeons(qs, m - 1);
    }
  }

  datatype Searched = Stops(pos: int) | Circles

  /** The search: as many turns as there are bytes decide it. */
  function Search(b: seq<Byte>, i: int): (r: Searched)
    ensures r.Stops? ==> r.pos == -1 || 4 <= r.pos <= |b|
  {
    match Walk(b, i, |b|)
    case Ended(p) => Stops(p)
    case Going(_) => Circles
  }

  /** A search that ever ends has ended by then. */
  lemma SearchExact(b: seq<Byte>, i: int, n: nat)
    requires Walk(b, i, n).Ended?
    ensures Search(b, i) == Stops(Walk(b, i, n).pos)
  {
    var m := |b|;
    if Walk(b, i, m).Ended? {
      WalkMore(b, i, Min(n, m), Max(n, m));
    } else {
      forall k: nat | k <= m
        ensures Walk(b, i, k).Going?
      {
        if Walk(b, i, k).Ended? { WalkMore(b, i, k, m); }
      }
      var ps := seq(m + 1, k requires 0 <= k <= m => Walk(b, i, k).i);
      var a, c := Pigeons(ps, m);
      Circle(b, i, a, c, n);
    }
  }

  /** On a header section the search ends. */
  lemma {:induction false} Arrives(b: seq<Byte>, i: nat) returns (n: nat)
    requires WellFormed(b) && Within(b, i)
    ensures Walk(b, i, n) == Ended(EndOfHeaders(b))
    decreases if i < |b| then |b| + 8 - Goal(b, i) else 0, if i < |b| then Moves(b, i) else 0
  {
    n := 0;
    if i < |b| {
      TurnAdvances(b, i);
      match Turn(b, i) {
        case Found(_) => n := 1;
        case Goto(j) =>
          GoalBound(b, i, j);
          n := Arrives(b, j);
          n := n + 1;
      }
    }
  }

  lemma GoalBound(b: seq<Byte>, i: nat, j: nat)
    requires i < |b|
    ensures Goal(b, i) < |b| + 8
    ensures j < |b| ==> Goal(b, j) < |b| + 8
  {
  }

  /** On a header section, from anywhere up to the blank line, the search agrees with the naive one. */
  lemma SearchFinds(b: seq<Byte>, i: int)
    requires WellFormed(b) && Within(b, i)
    ensures Search(b, i) == Stops(if i < 0 then -1 else EndOfHeaders(b))
  {
    if i >= 0 {
      var n := Arrives(b, i);
      SearchExact(b, i, n);
    }
  }

  /** In a buffer that holds just the section it is found from exactly the positions in the buffer. */
  lemma SectionAlone(b: seq<Byte>, i: int)
    requires WellFormed(b) && EndOfHeaders(b) == |b|
    ensures Search(b, i) == Stops(|b|) <==> 0 <= i < |b|
  {
    if i < |b| { SearchFinds(b, i); }
  }

  /**
    `evd_http_connection_find_end_headers_mark` on any buffer.  The loop of the code has no bound; one that has not
    ended after as many turns as there are bytes never ends.
   */
  method FindEndHeadersMark(buf: seq<Byte>, lastPos: int) returns (r: Searched)
    ensures r == Search(buf, lastPos)
    ensures WellFormed(buf) && Within(buf, lastPos) ==> r == Stops(if lastPos < 0 then -1 else EndOfHeaders(buf))
  {
    var i := lastPos;
    var turns: nat := 0;
    if WellFormed(buf) && Within(buf, lastPos) { SearchFinds(buf, lastPos); }
    while 0 <= i < |buf| && turns < |buf|
      invariant turns <= |buf| && Walk(buf, lastPos, |buf|) == Walk(buf, i, |buf| - turns)
      decreases |buf| - turns
    {
      match Turn(buf, i) {
        case Found(p) => return Stops(p);
        case Goto(j) => i, turns := j, turns + 1;
      }
    }
    r := if 0 <= i < |buf| then Circles else Stops(-1);
  }

  // ---- resuming after each block

  lemma {:induction false} FirstMarkOfPrefix(s: seq<Byte>, n: nat)
    requires n <= |s|
    ensures var p := FirstMark(s, 0);
            FirstMark(s[..n], 0) == if p != -1 && p + 4 <= n then p else -1
  {
    var p, q := FirstMark(s, 0), FirstMark(s[..n], 0);
    assert forall i: nat :: Mark(s[..n], i) <==> Mark(s, i) && i + 4 <= n;
    if q != -1 {
      assert Mark(s[..n], q);
    }
    if p != -1 && p + 4 <= n {
      assert Mark(s[..n], p);
    }
  }

  lemma PrefixWellFormed(s: seq<Byte>, n: nat)
    requires WellFormed(s) && n <= |s|
    ensures WellFormed(s[..n])
  {
    FirstMarkOfPrefix(s, n);
    var b := s[..n];
    var h, g := SectionEnd(b), SectionEnd(s);
    assert h <= g;
    forall i: nat | i < h
      ensures Proper(b, h, i)
    {
      assert Proper(s, g, i);
    }
  }

  /** An unfinished section leaves its mark, if it has one, no earlier than three bytes before the end. */
  lemma ResumePoint(s: seq<Byte>, n: nat)
    requires n <= |s| && FirstMark(s[..n], 0) == -1
    ensures Within(s, n - 3)
  {
    FirstMarkOfPrefix(s, n);
  }

  lemma WithinPrefix(s: seq<Byte>, n: nat, i: int)
    requires n <= |s| && Within(s, i)
    ensures Within(s[..n], i)
  {
    FirstMarkOfPrefix(s, n);
  }

  // ---- reading block by block

  /** How many blocks it takes to complete the section: all of them, if they do not. */
  function Completing(blocks: seq<seq<Byte>>): (k: nat)
    ensures k <= |blocks|
    ensures forall j: nat :: j < k ==> EndOfHeaders(Concat(blocks[..j])) == -1
    ensures k < |blocks| ==> EndOfHeaders(Concat(blocks[..k])) != -1
  {
    CompletingFrom(blocks, 0)
  }

  function CompletingFrom(blocks: seq<seq<Byte>>, i: nat): (k: nat)
    requires i <= |blocks|
    ensures i <= k <= |blocks|
    ensures forall j: nat :: i <= j < k ==> EndOfHeaders(Concat(blocks[..j])) == -1
    ensures k < |blocks| ==> EndOfHeaders(Concat(blocks[..k])) != -1
    decreases |blocks| - i
  {
    if i == |blocks| || EndOfHeaders(Concat(blocks[..i])) != -1 then i else CompletingFrom(blocks, i + 1)
  }

  /** The block that completes the section is searched: it is the first one, or three bytes came before it. */
  predicate InTime(blocks: seq<seq<Byte>>) {
    var k := Completing(blocks);
    EndOfHeaders(Concat(blocks[..k])) == -1 || k <= 1 || |Concat(blocks[..k - 1])| >= 3
  }

  lemma BlocksSplit(blocks: seq<seq<Byte>>, i: nat)
    requires i <= |blocks|
    ensures Concat(blocks) == Concat(blocks[..i]) + Concat(blocks[i..])
    ensures i < |blocks| ==> Concat(blocks[..i + 1]) == Concat(blocks[..i]) + blocks[i]
  {
    assert blocks == blocks[..i] + blocks[i..];
    ConcatBoth(blocks[..i], blocks[i..]);
    if i < |blocks| {
      assert blocks[..i + 1] == blocks[..i] + [blocks[i]];
      ConcatSnoc(blocks[..i], blocks[i]);
    }
  }

  /** The blocks after the one that completes the section do not matter to where it ends. */
  lemma CompletingIsEnough(blocks: seq<seq<Byte>>)
    ensures EndOfHeaders(Concat(blocks[..Completing(blocks)])) == EndOfHeaders(Concat(blocks))
  {
    var k := Completing(blocks);
    var s, n := Concat(blocks), |Concat(blocks[..k])|;
    BlocksSplit(blocks, k);
    if k == |blocks| {
      assert blocks[..k] == blocks;
    } else {
      assert s[..n] == Concat(blocks[..k]);
      FirstMarkOfPrefix(s, n);
    }
  }

  /** Where the next search starts once the first i blocks are read. */
  function ResumeAfter(blocks: seq<seq<Byte>>, i: nat): int
    requires i <= |blocks|
  {
    if i == 0 then 12 else |Concat(blocks[..i])| - 3
  }

  /** What comes of reading: how the search went, and how many blocks were read. */
  datatype Outcome = Outcome(found: Searched, used: nat)

  /** Reading on after i blocks: each further block is searched from where the search resumes, until one answers. */
  function ReadOn(blocks: seq<seq<Byte>>, i: nat): (o: Outcome)
    requires i <= |blocks|
    ensures i <= o.used <= |blocks| && (o.found == Stops(-1) ==> o.used == |blocks|)
    ensures o.found.Stops? && o.found.pos != -1 ==> 4 <= o.found.pos <= |Concat(blocks[..o.used])|
    decreases |blocks| - i
  {
    if i == |blocks| then Outcome(Stops(-1), i)
    else
      var r := Search(Concat(blocks[..i + 1]), ResumeAfter(blocks, i));
      if r == Stops(-1) then ReadOn(blocks, i + 1) else Outcome(r, i + 1)
  }

  /** A block is searched rightly when the search resumes no later than in the blank line. */
  lemma BlockSearched(blocks: seq<seq<Byte>>, i: nat)
    requires i < |blocks| && WellFormed(Concat(blocks)) && Within(Concat(blocks), ResumeAfter(blocks, i))
    ensures Search(Concat(blocks[..i + 1]), ResumeAfter(blocks, i)) ==
            Stops(if ResumeAfter(blocks, i) < 0 then -1 else EndOfHeaders(Concat(blocks[..i + 1])))
  {
    var s, n := Concat(blocks), |Concat(blocks[..i + 1])|;
    BlocksSplit(blocks, i + 1);
    assert s[..n] == Concat(blocks[..i + 1]);
    PrefixWellFormed(s, n);
    WithinPrefix(s, n, ResumeAfter(blocks, i));
    SearchFinds(s[..n], ResumeAfter(blocks, i));
  }

  /** Up to the block that completes the section the search resumes in time. */
  lemma ResumesWithin(blocks: seq<seq<Byte>>, i: nat)
    requires i < Completing(blocks) && Within(Concat(blocks), 12)
    ensures Within(Concat(blocks), ResumeAfter(blocks, i))
  {
    var n := |Concat(blocks[..i])|;
    BlocksSplit(blocks, i);
    assert Concat(blocks)[..n] == Concat(blocks[..i]);
    ResumePoint(Concat(blocks), n);
  }

  lemma {:induction false} NothingBefore(blocks: seq<seq<Byte>>, i: nat)
    requires i <= |blocks| && WellFormed(Concat(blocks)) && Within(Concat(blocks), 12)
    requires i < Completing(blocks) || (i == Completing(blocks) && EndOfHeaders(Concat(blocks[..i])) == -1)
    ensures ReadOn(blocks, 0) == ReadOn(blocks, i)
    decreases i
  {
    if i > 0 {
      NothingBefore(blocks, i - 1);
      ResumesWithin(blocks, i - 1);
      BlockSearched(blocks, i - 1);
    }
  }

  /** How far the blocks up to the one that completes the section reach. */
  function Arrived(blocks: seq<seq<Byte>>): nat { |Concat(blocks[..Completing(blocks)])| }

  /** The completing block was not searched, but the search resumes in the blank line with the next one. */
  predicate JustInTime(blocks: seq<seq<Byte>>) {
    Completing(blocks) < |blocks| && Arrived(blocks) <= EndOfHeaders(Concat(blocks)) + 2
  }

  lemma Completes(blocks: seq<seq<Byte>>)
    requires WellFormed(Concat(blocks)) && Within(Concat(blocks), 12) && EndOfHeaders(Concat(blocks)) != -1
    ensures var k := Completing(blocks);
            && k >= 1 && EndOfHeaders(Concat(blocks[..k])) == EndOfHeaders(Concat(blocks)) <= Arrived(blocks)
            && ReadOn(blocks, 0) == if InTime(blocks) then Outcome(Stops(EndOfHeaders(Concat(blocks))), k)
                                    else ReadOn(blocks, k)
  {
    var k := Completing(blocks);
    CompletingIsEnough(blocks);
    assert blocks[..0] == [];
    NothingBefore(blocks, k - 1);
    ResumesWithin(blocks, k - 1);
    BlockSearched(blocks, k - 1);
  }

  lemma NextBlockFinds(blocks: seq<seq<Byte>>)
    requires WellFormed(Concat(blocks)) && EndOfHeaders(Concat(blocks)) != -1 && JustInTime(blocks)
    ensures var k := Completing(blocks);
            k >= 1 ==> ReadOn(blocks, k) == Outcome(Stops(EndOfHeaders(Concat(blocks))), k + 1)
  {
    var k := Completing(blocks);
    var s, n := Concat(blocks), |Concat(blocks[..k + 1])|;
    CompletingIsEnough(blocks);
    if k >= 1 {
      BlocksSplit(blocks, k);
      BlocksSplit(blocks, k + 1);
      assert s[..n] == Concat(blocks[..k + 1]);
      FirstMarkOfPrefix(s, n);
      BlockSearched(blocks, k);
    }
  }

  /**
    Resuming after each block, against one naive search of everything.  With no end to find none is found.  The end
    is found in the block that completes the section if that block is searched; else in the next one, if the search
    resumes in the blank line; and not at all if there is no next one.
   */
  lemma Resuming(blocks: seq<seq<Byte>>)
    requires WellFormed(Concat(blocks)) && Within(Concat(blocks), 12)
    ensures var h, k, o := EndOfHeaders(Concat(blocks)), Completing(blocks), ReadOn(blocks, 0);
            && (h == -1 ==> o == Outcome(Stops(-1), |blocks|))
            && (h != -1 && InTime(blocks) ==> o == Outcome(Stops(h), k))
            && (h != -1 && !InTime(blocks) && JustInTime(blocks) ==> o == Outcome(Stops(h), k + 1))
            && (h != -1 && !InTime(blocks) && k == |blocks| ==> o == Outcome(Stops(-1), k))
  {
    if EndOfHeaders(Concat(blocks)) == -1 {
      NoEnd(blocks);
    } else {
      Completes(blocks);
      if JustInTime(blocks) { NextBlockFinds(blocks); }
    }
  }

  lemma NoEnd(blocks: seq<seq<Byte>>)
    requires WellFormed(Concat(blocks)) && Within(Concat(blocks), 12) && EndOfHeaders(Concat(blocks)) == -1
    ensures ReadOn(blocks, 0) == Outcome(Stops(-1), |blocks|)
  {
    CompletingIsEnough(blocks);
    NothingBefore(blocks, Completing(blocks));
  }

  // ---- when more than two bytes of the body came with a block that was not searched

  ghost predicate TextFrom(s: seq<Byte>, h: nat) { forall i :: h <= i < |s| ==> Text(s[i]) }

  lemma {:induction false} TextWalk(b: seq<Byte>, i: nat) returns (n: nat)
    requires TextFrom(b, i)
    ensures Walk(b, i, n) == Ended(-1)
    decreases |b| - i
  {
    n := 0;
    if i < |b| {
      n := TextWalk(b, i + 4);
      n := n + 1;
    }
  }

  lemma {:induction false} NothingInText(blocks: seq<seq<Byte>>, i: nat, h: nat)
    requires 1 <= i <= |blocks| && TextFrom(Concat(blocks), h) && h + 3 <= |Concat(blocks[..i])|
    ensures ReadOn(blocks, i) == Outcome(Stops(-1), |blocks|)
    decreases |blocks| - i
  {
    if i < |blocks| {
      var b := Concat(blocks[..i + 1]);
      BlocksSplit(blocks, i);
      BlocksSplit(blocks, i + 1);
      assert forall k :: 0 <= k < |b| ==> b[k] == Concat(blocks)[k];
      var n := TextWalk(b, ResumeAfter(blocks, i));
      SearchExact(b, ResumeAfter(blocks, i), n);
      NothingInText(blocks, i + 1, h);
    }
  }

  /** The exact condition for bodies without CR and LF: the end is found in time, just in time, or not there. */
  lemma ResumingIff(blocks: seq<seq<Byte>>)
    requires WellFormed(Concat(blocks)) && Within(Concat(blocks), 12)
    requires var h := EndOfHeaders(Concat(blocks)); h != -1 ==> TextFrom(Concat(blocks), h)
    ensures var h := EndOfHeaders(Concat(blocks));
            ReadOn(blocks, 0).found == Stops(h) <==> h == -1 || InTime(blocks) || JustInTime(blocks)
  {
    var h := EndOfHeaders(Concat(blocks));
    Resuming(blocks);
    if h != -1 && !InTime(blocks) && !JustInTime(blocks) {
      Completes(blocks);
      if Completing(blocks) < |blocks| { NothingInText(blocks, Completing(blocks), h); }
    }
  }

  /** How many bytes of a block are lost to the limit on headers. */
  function Lost(len: nat): nat { Max(len + HEADER_BLOCK_SIZE - MAX_HEADERS_SIZE, 0) }

  function Received(before: seq<Byte>, data: seq<Byte>): seq<Byte>
    requires |before| < MAX_HEADERS_SIZE
  {
    (before + data)[..|before| + |data| - Lost(|before|)]
  }

  /** A block is received whole exactly when it does not start within one block of the limit. */
  lemma ReceivedIff(before: seq<Byte>, data: seq<Byte>)
    requires |before| < MAX_HEADERS_SIZE
    ensures Received(before, data) == before + data <==> |before| + HEADER_BLOCK_SIZE <= MAX_HEADERS_SIZE
  {
    assert |before + data| == |before| + |data|;
  }

  /** The reading side of a connection while it collects a header section. */
  class HeaderReader {
    var buf: seq<Byte>
    var lastHeadersPos: int

    constructor ()
      ensures buf == [] && lastHeadersPos == 12
    {
      buf, lastHeadersPos := [], 12;
    }

    /**
      The buffer after a read: it was enlarged by the block size, which the limit may shorten, and is cut by what
      the read left of a full block.  Near the limit bytes are lost.
     */
    method Receive(data: seq<Byte>, filler: Byte)
      requires |buf| < MAX_HEADERS_SIZE
      requires |data| <= Min(MAX_HEADERS_SIZE, |buf| + HEADER_BLOCK_SIZE) - |buf|
      modifies this`buf
      ensures buf == Received(old(buf), data)
    {
      var newBlockSize := Min(MAX_HEADERS_SIZE, |buf| + HEADER_BLOCK_SIZE) - |buf|;
      ghost var before := buf;
      buf := buf + data + seq(newBlockSize - |data|, i => filler);
      var extra := HEADER_BLOCK_SIZE - |data|;
      if extra > 0 {
        buf := buf[..|buf| - extra];
      }
      assert |buf| == |before| + |data| - Lost(|before|);
    }

    /**
      `on_read_headers_block`: search from where the last search can have left off; otherwise read on.  In a header
      section the block gives the right answer exactly when it is searched or there is nothing to find.
     */
    method OnBlock(data: seq<Byte>, filler: Byte, ghost stream: seq<Byte>) returns (r: Searched, tooLong: bool)
      requires |buf| < MAX_HEADERS_SIZE
      requires |data| <= Min(MAX_HEADERS_SIZE, |buf| + HEADER_BLOCK_SIZE) - |buf|
      modifies this
      ensures buf == Received(old(buf), data) && r == Search(buf, old(lastHeadersPos))
      ensures WellFormed(stream) && old(buf) + data <= stream && Within(stream, old(lastHeadersPos)) ==>
                && r == Stops(if old(lastHeadersPos) < 0 then -1 else EndOfHeaders(buf))
                && (r == Stops(EndOfHeaders(buf)) <==> old(lastHeadersPos) >= 0 || EndOfHeaders(buf) == -1)
      ensures tooLong <==> r == Stops(-1) && |buf| == MAX_HEADERS_SIZE
      ensures lastHeadersPos == if r == Stops(-1) && !tooLong then |buf| - 3 else old(lastHeadersPos)
    {
      Receive(data, filler);
      if WellFormed(stream) && old(buf) + data <= stream && Within(stream, lastHeadersPos) {
        assert buf == stream[..|buf|];
        PrefixWellFormed(stream, |buf|);
        WithinPrefix(stream, |buf|, lastHeadersPos);
      }
      r := FindEndHeadersMark(buf, lastHeadersPos);
      tooLong := false;
      if r == Stops(-1) {
        if |buf| < MAX_HEADERS_SIZE { lastHeadersPos := |buf| - 3; } else { tooLong := true; }
      }
    }

    /** Any blocks that do not start within one block of the limit: read until a search answers. */
    method ReadHeaders(blocks: seq<seq<Byte>>, filler: Byte) returns (o: Outcome, unread: seq<Byte>)
      requires buf == [] && lastHeadersPos == 12
      requires forall i :: 0 <= i < |blocks| ==> |blocks[i]| <= HEADER_BLOCK_SIZE
      requires forall i: nat :: i < |blocks| ==> |Concat(blocks[..i])| + HEADER_BLOCK_SIZE <= MAX_HEADERS_SIZE
      modifies this
      ensures o == ReadOn(blocks, 0)
      ensures var arrived := Concat(blocks[..o.used]);
              if o.found.Circles? || o.found.pos == -1 then buf == arrived && unread == []
              else buf == arrived[..o.found.pos] && unread == arrived[o.found.pos..]
    {
      var i: nat := 0;
      unread := [];
      assert blocks[..0] == [];
      while i < |blocks|
        invariant i <= |blocks| && buf == Concat(blocks[..i]) && ReadOn(blocks, 0) == ReadOn(blocks, i)
        invariant i < |blocks| ==> lastHeadersPos == ResumeAfter(blocks, i)
      {
        BlocksSplit(blocks, i);
        ReceivedIff(buf, blocks[i]);
        var r, _ := OnBlock(blocks[i], filler, []);
        i := i + 1;
        if r != Stops(-1) {
          o := Outcome(r, i);
          if r.Stops? {
            unread := buf[r.pos..];
            buf := buf[..r.pos];
          }
          return;
        }
      }
      o := Outcome(Stops(-1), i);
    }
  }

  /** A section of one line whose first two bytes, or fewer, come by themselves is not found when it is complete. */
  lemma ShortFirstBlock(line: seq<Byte>, n: nat)
    requires |line| >= 9 && n <= 2 && forall i :: 0 <= i < |line| ==> Text(line[i])
    ensures var blocks := [line[..n], line[n..] + [CR, LF, CR, LF]];
            && WellFormed(Concat(blocks)) && Within(Concat(blocks), 12)
            && EndOfHeaders(Concat(blocks)) == |line| + 4 && !InTime(blocks)
            && ReadOn(blocks, 0).found == Stops(-1)
  {
    var x, y := line[..n], line[n..] + [CR, LF, CR, LF];
    var blocks := [x, y];
    var b := line + [CR, LF, CR, LF];
    assert Concat(blocks) == b by { TwoBlocks(x, y); }
    OneLine(line);
    assert blocks[..2] == blocks && blocks[..1] == [x] && blocks[..0] == [];
    OneBlock(x);
    NothingIn(x);
    assert EndOfHeaders(Concat(blocks[..0])) == -1;
    assert Completing(blocks) == 2;
    Resuming(blocks);
  }

  lemma OneBlock(x: seq<Byte>)
    ensures Concat([x]) == x
  {
    assert [x] == [] + [x];
    ConcatSnoc([], x);
  }

  lemma TwoBlocks(x: seq<Byte>, y: seq<Byte>)
    ensures Concat([x, y]) == x + y
  {
    assert [x, y] == [x] + [y];
    OneBlock(x);
    ConcatSnoc([x], y);
  }

  lemma NothingIn(x: seq<Byte>)
    requires |x| < 4
    ensures EndOfHeaders(x) == -1
  {
  }

  lemma OneLine(line: seq<Byte>)
    requires |line| >= 9 && forall i :: 0 <= i < |line| ==> Text(line[i])
    ensures var b := line + [CR, LF, CR, LF]; FirstMark(b, 0) == |line| && WellFormed(b)
  {
    var b := line + [CR, LF, CR, LF];
    var n := |line|;
    assert b[n] == CR && b[n + 1] == LF && b[n + 2] == CR && b[n + 3] == LF;
    assert Mark(b, n);
    assert forall i: nat :: i < n ==> b[i] == line[i] && Text(b[i]);
    assert FirstMark(b, 0) == n;
    var h := |b|;
    forall i: nat | i < h
      ensures Proper(b, h, i)
    {
    }
  }

  /**
    The byte after the blank line matters.  When the body starts with CRLF, a search that arrives in the first half
    of the blank line ends there, and one that arrives in the second half reports a section two bytes too long.
   */
  lemma BodyStartingWithBlankLine(b: seq<Byte>, p: nat)
    requires Mark(b, p) && Mark(b, p + 2)
    ensures Turn(b, p) == Found(p + 4) && Turn(b, p + 1) == Goto(p)
    ensures Turn(b, p + 2) == Found(p + 6) && Turn(b, p + 3) == Goto(p + 2)
  {
  }

  /** There are such arrivals: text two bytes before the blank line is enough. */
  lemma ArrivalInSecondHalf(b: seq<Byte>, p: nat)
    requires p >= 2 && Mark(b, p) && Mark(b, p + 2) && Text(b[p - 2]) && FirstMark(b, 0) == p
    ensures Turn(b, p - 2) == Goto(p + 2) && EndOfHeaders(b) == p + 4 && Turn(b, p + 2) == Found(p + 6)
  {
  }

  /** Six line feeds after a text byte make the search run in a circle: why the form wants CR and LF only as CRLF. */
  lemma SearchCycles(b: seq<Byte>, i: nat)
    requires i + 6 < |b| && Text(b[i]) && forall k :: i < k <= i + 6 ==> b[k] == LF
    ensures Turn(b, i) == Goto(i + 4) && Turn(b, i + 4) == Goto(i + 3) && Turn(b, i + 3) == Goto(i + 2)
    ensures Turn(b, i + 2) == Goto(i + 1) && Turn(b, i + 1) == Goto(i)
  {
  }
}
