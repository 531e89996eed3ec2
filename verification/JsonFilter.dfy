/** The filter object of evd/evd-json-filter.c, refining the one-character-at-a-time splitter. */
module JsonFilter {
  import opened Prelude
  import opened JsonAutomaton
  import opened JsonStream

  class Filter {
    var state: State
    var top: int
    const stack: array<Mode>
    var contentStart: int
    var cache: seq<Ch>

    /** The automaton's configuration. */
    ghost function Now(): Config
      reads this, stack
      requires -1 <= top < stack.Length
    {
      Config(state, stack[..top + 1])
    }

    ghost predicate Shape()
      reads this, stack
    {
      stack.Length == MAX_DEPTH && 0 <= top < MAX_DEPTH && Inv(Now()) && (state != GO ==> top >= 1)
    }

    /** Between feeds: content has started, the cache holds something, the state is not GO, all three together. */
    ghost predicate Valid()
      reads this, stack
    {
      && Shape()
      && (contentStart == 0 || contentStart == -1)
      && (contentStart == 0 <==> state != GO)
      && (cache != [] <==> state != GO)
    }

    ghost function Abs(): (p: Splitter)
      reads this, stack
      requires Valid()
      ensures ValidSplitter(p)
    {
      Splitter(Now(), cache)
    }

    constructor ()
      ensures Valid() && fresh(stack)
      ensures Abs() == FRESH
    {
      var st := new Mode[MAX_DEPTH](i => M_ARRAY);
      st[0] := M_DONE;
      stack := st;
      state, top, contentStart, cache := GO, 0, -1, [];
    }

    method Push(mode: Mode) returns (ok: bool)
      requires stack.Length == MAX_DEPTH && -1 <= top < MAX_DEPTH
      modifies this`top, stack
      ensures ok <==> JsonAutomaton.Push(old(stack[..top + 1]), mode).Some?
      ensures top == old(top) + 1
      ensures ok ==> top < MAX_DEPTH && stack[..top + 1] == JsonAutomaton.Push(old(stack[..top + 1]), mode).value
    {
      top := top + 1;
      if top >= MAX_DEPTH {
        return false;
      }
      stack[top] := mode;
      return true;
    }

    method Pop(mode: Mode) returns (ok: bool)
      requires stack.Length == MAX_DEPTH && -1 <= top < MAX_DEPTH
      modifies this`top
      ensures ok <==> JsonAutomaton.Pop(stack[..old(top) + 1], mode).Some?
      ensures top == if ok then old(top) - 1 else old(top)
      ensures ok ==> stack[..top + 1] == JsonAutomaton.Pop(stack[..old(top) + 1], mode).value
    {
      if top < 0 || stack[top] != mode {
        return false;
      }
      top := top - 1;
      return true;
    }

    /** Everything but the cache goes back to the start. */
    method Reset()
      requires stack.Length == MAX_DEPTH
      modifies this`state, this`top, this`contentStart, stack
      ensures Shape() && Now() == START && contentStart == -1
    {
      state := GO;
      top := -1;
      contentStart := -1;
      var _ := Push(M_DONE);
      assert stack[..1] == [M_DONE];
    }

    /** The actions of the table; on failure the caller resets. */
    method Perform(cell: Cell) returns (ok: bool)
      requires stack.Length == MAX_DEPTH && 0 <= top < MAX_DEPTH && !cell.To?
      modifies this`state, this`top, stack
      ensures ok <==> Act(old(Now()), cell).Some?
      ensures ok ==> -1 <= top < MAX_DEPTH && Now() == Act(old(Now()), cell).value
    {
      match cell {
        case EndEmpty => ok := Pop(M_KEY); if ok { state := OK; }
        case EndObject => ok := Pop(M_OBJECT); if ok { state := OK; }
        case EndArray => ok := Pop(M_ARRAY); if ok { state := OK; }
        case BeginObject => ok := Push(M_KEY); if ok { state := OB; }
        case BeginArray => ok := Push(M_ARRAY); if ok { state := AR; }
        case Quote =>
          match stack[top] {
            case M_KEY => state, ok := CO, true;
            case M_ARRAY => state, ok := OK, true;
            case M_OBJECT => state, ok := OK, true;
            case M_DONE => ok := false;
          }
        case Comma =>
          match stack[top] {
            case M_OBJECT =>
              ok := Pop(M_OBJECT);
              if ok { ok := Push(M_KEY); }
              if ok { state := KE; }
            case M_ARRAY => state, ok := VA, true;
            case _ => ok := false;
          }
        case Colon =>
          ok := Pop(M_KEY);
          if ok { ok := Push(M_OBJECT); }
          if ok { state := VA; }
        case Bad => ok := false;
      }
    }

    /** `evd_json_filter_process`: one character at a given offset of the buffer. */
    method ProcessChar(c: Ch, offset: nat) returns (ok: bool)
      requires Shape() && (contentStart == -1 <==> state == GO)
      modifies this`state, this`top, this`contentStart, stack
      ensures ok <==> Process(old(Now()), c).Some?
      ensures ok ==> -1 <= top < MAX_DEPTH && Now() == Process(old(Now()), c).value && Inv(Now())
      ensures ok ==> contentStart == (if old(contentStart) == -1 && state != GO then offset else old(contentStart))
      ensures !ok ==> Shape() && Now() == START && contentStart == -1
    {
      ghost var before := Now();
      var class_ := ClassOf(c);
      if class_ == None {
        Reset();
        return false;
      }
      var cell := Transition(state, class_.value);
      if cell.To? {
        state := cell.state;
        ok := true;
      } else {
        if contentStart == -1 { contentStart := offset; }
        ok := Perform(cell);
        if !ok { Reset(); }
      }
      if ok {
        ProcessKeepsInv(before, c);
        if before.state == GO {
          GoActs(before, c);
        }
      }
    }

    /** The splitter this object stands for after the first i characters of a buffer. */
    ghost function During(buffer: seq<Ch>, i: nat): Splitter
      reads this, stack
      requires Shape() && i <= |buffer| && contentStart <= i
    {
      Splitter(Now(), if contentStart < 0 then [] else cache + buffer[contentStart..i])
    }

    ghost predicate Feeding(buffer: seq<Ch>, i: nat)
      reads this, stack
    {
      && Shape() && i <= |buffer| && -1 <= contentStart <= i
      && (contentStart == -1 <==> state == GO)
      && (state == GO ==> cache == [])
      && (cache != [] ==> contentStart == 0)
      && (state != GO && cache == [] ==> contentStart < i)
    }

    ghost predicate At(buffer: seq<Ch>, i: nat, p: Splitter)
      reads this, stack
    {
      Feeding(buffer, i) && During(buffer, i) == p
    }

    ghost predicate IsReset()
      reads this, stack
    {
      Shape() && Now() == START && contentStart == -1
    }

    /** The packet that ends at i: what was stashed with the front of this buffer, or a part of this buffer. */
    method TakePacket(buffer: seq<Ch>, i: nat) returns (packet: seq<Ch>)
      requires 0 <= contentStart <= i < |buffer| && (cache != [] ==> contentStart == 0)
      modifies this`cache
      ensures packet == old(cache) + buffer[contentStart..i + 1] && cache == []
    {
      if |cache| > 0 {
        packet := cache + buffer[..i + 1];
        cache := [];
      } else {
        packet := buffer[contentStart..i + 1];
      }
    }

    /** The body of the feed loop: one character, and the packet it completes, if any. */
    method FeedChar(buffer: seq<Ch>, i: nat, ghost p: Splitter) returns (ok: bool, packets: seq<seq<Ch>>)
      requires i < |buffer| && At(buffer, i, p) && p.config.stack != []
      modifies this, stack
      ensures ok <==> FeedByte(p, buffer[i]).Fed?
      ensures ok ==> At(buffer, i + 1, FeedByte(p, buffer[i]).next) && packets == FeedByte(p, buffer[i]).packets
      ensures !ok ==> packets == [] && IsReset()
      ensures cache == if packets == [] then old(cache) else []
    {
      packets := [];
      ghost var started := contentStart;
      ok := ProcessChar(buffer[i], i);
      if ok {
        packets := Complete(buffer, i, p, started);
      }
    }

    /** After the automaton has moved: the packet that ends here, if its container was closed. */
    method Complete(buffer: seq<Ch>, i: nat, ghost p: Splitter, ghost started: int) returns (packets: seq<seq<Ch>>)
      requires i < |buffer| && stack.Length == MAX_DEPTH && -1 <= top < MAX_DEPTH && Inv(Now())
      requires -1 <= started <= i && (cache != [] ==> started == 0)
      requires contentStart == if started == -1 && state != GO then i else started
      requires state == GO ==> contentStart == -1
      requires p.pending == if started == -1 then [] else cache + buffer[started..i]
      modifies this, stack
      ensures At(buffer, i + 1, Settled(p, buffer[i], old(Now())).next)
      ensures packets == Settled(p, buffer[i], old(Now())).packets
      ensures cache == if packets == [] then old(cache) else []
    {
      packets := [];
      if contentStart >= 0 {
        ghost var from := if started == -1 then i else started;
        ExtendsBy(buffer, from, i);
        assert cache + buffer[contentStart..i + 1] == p.pending + [buffer[i]];
        if stack[top] == M_DONE {
          var packet := TakePacket(buffer, i);
          packets := [packet];
          Reset();
        }
      }
    }

    /** Part of a feed is done: what it emitted and what is still to come make up the whole. */
    ghost predicate Progress(start: Splitter, buffer: seq<Ch>, packets: seq<seq<Ch>>, i: nat)
      reads this, stack
      requires ValidSplitter(start)
    {
      exists p: Splitter :: Remains(start, buffer, packets, i, p)
    }

    ghost predicate Remains(start: Splitter, buffer: seq<Ch>, packets: seq<seq<Ch>>, i: nat, p: Splitter)
      reads this, stack
      requires ValidSplitter(start)
    {
      && i <= |buffer| && At(buffer, i, p) && ValidSplitter(p)
      && FeedAll(start, buffer) == Before(packets, i, FeedAll(p, buffer[i..]))
    }

    method FeedNext(buffer: seq<Ch>, i: nat, packets: seq<seq<Ch>>, ghost start: Splitter)
      returns (ok: bool, packets': seq<seq<Ch>>)
      requires ValidSplitter(start) && i < |buffer| && Progress(start, buffer, packets, i)
      modifies this, stack
      ensures ok ==> Progress(start, buffer, packets', i + 1)
      ensures !ok ==> Feeds(start, buffer, packets', None, i) && IsReset() && packets' == packets
      ensures cache == if packets' == packets then old(cache) else []
      ensures packets <= packets'
    {
      ghost var p :| Remains(start, buffer, packets, i, p);
      FeedFirst(p, buffer, i, packets);
      var more;
      ok, more := FeedChar(buffer, i, p);
      packets' := packets + more;
      if ok {
        assert Remains(start, buffer, packets', i + 1, FeedByte(p, buffer[i]).next);
      }
    }

    /** What is left of an unfinished packet goes to the cache. */
    method Stash(buffer: seq<Ch>, ghost p: Splitter)
      requires At(buffer, |buffer|, p)
      modifies this`cache, this`contentStart
      ensures Valid() && Abs() == p
    {
      if contentStart >= 0 {
        cache := cache + buffer[contentStart..];
        contentStart := 0;
      }
    }

    lemma EndFeed(buffer: seq<Ch>, packets: seq<seq<Ch>>, start: Splitter) returns (p: Splitter)
      requires ValidSplitter(start) && Progress(start, buffer, packets, |buffer|)
      ensures At(buffer, |buffer|, p) && Feeds(start, buffer, packets, Some(p), |buffer|)
    {
      p :| Remains(start, buffer, packets, |buffer|, p);
      assert buffer[|buffer|..] == [] && packets + [] == packets;
    }

    lemma StartFeed(buffer: seq<Ch>)
      requires Valid()
      ensures Progress(Abs(), buffer, [], 0)
    {
      assert buffer[0..] == buffer;
      assert [] + FeedAll(Abs(), buffer).packets == FeedAll(Abs(), buffer).packets;
      if contentStart >= 0 { assert cache + buffer[contentStart..0] == cache; }
      assert Remains(Abs(), buffer, [], 0, Abs());
    }

    /** `evd_json_filter_feed_len`; the packets are those handed to the packet callback, in order. */
    method FeedLen(buffer: seq<Ch>) returns (ok: bool, packets: seq<seq<Ch>>, offset: nat)
      requires Valid()
      modifies this, stack
      ensures ok ==> Valid() && Feeds(old(Abs()), buffer, packets, Some(Abs()), offset)
      ensures !ok ==> Feeds(old(Abs()), buffer, packets, None, offset)
      ensures !ok ==> IsReset() && cache == if packets == [] then old(cache) else []
      // after a rejection the filter is as good as new exactly when no unfinished packet was cached
      ensures !ok ==> (Valid() <==> packets != [] || old(cache) == [])
    {
      ghost var start := Abs();
      StartFeed(buffer);
      ok, packets, offset := FeedLoop(buffer, start);
      if ok {
        ghost var p := EndFeed(buffer, packets, start);
        Stash(buffer, p);
      }
    }

    method FeedLoop(buffer: seq<Ch>, ghost start: Splitter) returns (ok: bool, packets: seq<seq<Ch>>, offset: nat)
      requires ValidSplitter(start) && Progress(start, buffer, [], 0)
      modifies this, stack
      ensures ok ==> offset == |buffer| && Progress(start, buffer, packets, offset)
      ensures !ok ==> IsReset() && Feeds(start, buffer, packets, None, offset)
      ensures cache == if packets == [] then old(cache) else []
    {
      ok, packets, offset := true, [], 0;
      while offset < |buffer|
        invariant offset <= |buffer| && Progress(start, buffer, packets, offset)
        invariant cache == if packets == [] then old(cache) else []
      {
        ok, packets := FeedNext(buffer, offset, packets, start);
        if !ok { return; }
        offset := offset + 1;
      }
      ok := true;
    }

    /** Any division of a byte stream into buffers gives what the undivided stream gives. */
    method FeedDivided(buffers: seq<seq<Ch>>) returns (ok: bool, packets: seq<seq<Ch>>, offset: nat)
      requires Valid()
      modifies this, stack
      ensures ok ==> Valid() && Feeds(old(Abs()), Concat(buffers), packets, Some(Abs()), offset)
      ensures !ok ==> Feeds(old(Abs()), Concat(buffers), packets, None, offset)
    {
      ok, packets, offset := true, [], 0;
      ghost var start := Abs();
      ghost var done: seq<Ch> := [];
      var i := 0;
      while i < |buffers|
        invariant 0 <= i <= |buffers|
        invariant Valid() && Feeds(start, done, packets, Some(Abs()), offset)
        invariant Concat(buffers) == done + Concat(buffers[i..])
      {
        ghost var p, rest := Abs(), Concat(buffers[i + 1..]);
        assert buffers[i..][1..] == buffers[i + 1..];
        Assoc(done, buffers[i], rest);
        var more: seq<seq<Ch>>, n: nat;
        ok, more, n := FeedLen(buffers[i]);
        FeedsMore(start, done, packets, p, offset, buffers[i], more, if ok then Some(Abs()) else None, n);
        packets, offset := packets + more, offset + n;
        done := done + buffers[i];
        if !ok {
          FeedsStop(start, done, packets, offset, rest);
          return;
        }
        i := i + 1;
      }
      assert Concat(buffers) == done;
    }
  }

  /** A feed of s from p emits the packets, and stops after n characters: at the end, or at a rejected one. */
  ghost predicate Feeds(p: Splitter, s: seq<Ch>, packets: seq<seq<Ch>>, rest: Option<Splitter>, n: nat)
    requires ValidSplitter(p)
  {
    FeedAll(p, s) == Outcome(packets, rest, n)
  }

  lemma FeedsMore(p: Splitter, s: seq<Ch>, ps: seq<seq<Ch>>, q: Splitter, n: nat,
                  t: seq<Ch>, qs: seq<seq<Ch>>, rest: Option<Splitter>, m: nat)
    requires ValidSplitter(p) && Feeds(p, s, ps, Some(q), n)
    requires ValidSplitter(q) && Feeds(q, t, qs, rest, m)
    ensures Feeds(p, s + t, ps + qs, rest, n + m)
  {
    FeedConcat(p, s, t);
  }

  lemma FeedsStop(p: Splitter, s: seq<Ch>, ps: seq<seq<Ch>>, n: nat, t: seq<Ch>)
    requires ValidSplitter(p) && Feeds(p, s, ps, None, n)
    ensures Feeds(p, s + t, ps, None, n)
  {
    FeedConcat(p, s, t);
  }

  /** In the start state, a character that only moves keeps the start state, and an action leaves it. */
  lemma GoActs(g: Config, c: Ch)
    requires Inv(g) && g.state == GO && Process(g, c).Some?
    ensures Transition(GO, ClassOf(c).value).To? <==> Process(g, c).value.state == GO
  {
  }

  /** The feed of what is left of a buffer, split after its first character. */
  lemma FeedFirst(p: Splitter, buffer: seq<Ch>, i: nat, packets: seq<seq<Ch>>)
    requires ValidSplitter(p) && i < |buffer|
    ensures var b := FeedByte(p, buffer[i]);
            match b {
              case Rejected => Before(packets, i, FeedAll(p, buffer[i..])) == Outcome(packets, None, i)
              case Fed(q, ps) =>
                && ValidSplitter(q)
                && Before(packets, i, FeedAll(p, buffer[i..])) ==
                   Before(packets + ps, i + 1, FeedAll(q, buffer[i + 1..]))
            }
  {
    assert buffer[i..][0] == buffer[i] && buffer[i..][1..] == buffer[i + 1..];
    var b := FeedByte(p, buffer[i]);
    if b.Fed? {
      FeedByteValid(p, buffer[i]);
      Assoc(packets, b.packets, FeedAll(b.next, buffer[i + 1..]).packets);
    }
  }

  lemma ExtendsBy(buffer: seq<Ch>, from: nat, i: nat)
    requires from <= i < |buffer|
    ensures buffer[from..i + 1] == buffer[from..i] + [buffer[i]]
  {
  }
}
