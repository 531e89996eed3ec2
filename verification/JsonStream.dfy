/** The packet splitter one character at a time, and its equivalence with the grammar. */
module JsonStream {
  import opened Prelude
  import opened JsonAutomaton
  import opened JsonContext
  import opened JsonSoundness
  import opened JsonCompleteness
  import G = JsonGrammar

  /** The automaton with the part of the current packet read so far (nothing between packets). */
  datatype Splitter = Splitter(config: Config, pending: seq<Ch>)

  const FRESH := Splitter(START, [])

  ghost predicate ValidSplitter(p: Splitter) {
    && Inv(p.config)
    && (p.pending == [] <==> p.config.state == GO)
    && (p.config.state != GO ==> |p.config.stack| >= 2)
  }

  datatype Fed = Rejected | Fed(next: Splitter, packets: seq<seq<Ch>>)

  /** One character: a packet leaves as soon as its container is closed. */
  function FeedByte(p: Splitter, c: Ch): Fed
    requires p.config.stack != []
  {
    match Process(p.config, c)
    case None => Rejected
    case Some(h) => Settled(p, c, h)
  }

  /** The splitter once the automaton has moved to h. */
  function Settled(p: Splitter, c: Ch, h: Config): Fed {
    if h.state == GO then Fed(Splitter(h, p.pending), [])
    else if h.stack == [] || Top(h.stack) == M_DONE then Fed(FRESH, [p.pending + [c]])
    else Fed(Splitter(h, p.pending + [c]), [])
  }

  lemma FeedByteValid(p: Splitter, c: Ch)
    requires ValidSplitter(p) && FeedByte(p, c).Fed?
    ensures ValidSplitter(FeedByte(p, c).next)
  {
    ProcessKeepsInv(p.config, c);
  }

  /** What a feed emits, where it stops, and the splitter it leaves unless a character was rejected. */
  datatype Outcome = Outcome(packets: seq<seq<Ch>>, rest: Option<Splitter>, consumed: nat)

  function Before(ps: seq<seq<Ch>>, n: nat, o: Outcome): Outcome {
    Outcome(ps + o.packets, o.rest, n + o.consumed)
  }

  function FeedAll(p: Splitter, s: seq<Ch>): Outcome
    requires ValidSplitter(p)
    decreases |s|
  {
    if s == [] then Outcome([], Some(p), 0)
    else
      match FeedByte(p, s[0])
      case Rejected => Outcome([], None, 0)
      case Fed(q, ps) => FeedByteValid(p, s[0]); Before(ps, 1, FeedAll(q, s[1..]))
  }

  lemma {:induction false} FeedAllValid(p: Splitter, s: seq<Ch>)
    requires ValidSplitter(p)
    ensures FeedAll(p, s).rest.Some? ==> ValidSplitter(FeedAll(p, s).rest.value) && FeedAll(p, s).consumed == |s|
    ensures FeedAll(p, s).rest.None? ==> FeedAll(p, s).consumed < |s|
    decreases |s|
  {
    if s != [] && FeedByte(p, s[0]).Fed? {
      FeedByteValid(p, s[0]);
      FeedAllValid(FeedByte(p, s[0]).next, s[1..]);
    }
  }

  /** Feeding a concatenation is feeding its parts in turn, up to the first rejected character. */
  lemma {:induction false} FeedConcat(p: Splitter, s: seq<Ch>, t: seq<Ch>)
    requires ValidSplitter(p)
    ensures var o := FeedAll(p, s);
            match o.rest {
              case None => FeedAll(p, s + t) == o
              case Some(q) => ValidSplitter(q) && FeedAll(p, s + t) == Before(o.packets, o.consumed, FeedAll(q, t))
            }
    decreases |s|
  {
    if s == [] {
      assert s + t == t;
      assert [] + FeedAll(p, t).packets == FeedAll(p, t).packets;
    } else {
      assert (s + t)[0] == s[0] && (s + t)[1..] == s[1..] + t;
      var b := FeedByte(p, s[0]);
      if b.Fed? {
        FeedByteValid(p, s[0]);
        FeedConcat(b.next, s[1..], t);
        var o := FeedAll(b.next, s[1..]);
        if o.rest.Some? {
          Assoc(b.packets, o.packets, FeedAll(o.rest.value, t).packets);
        }
      }
    }
  }

  lemma FeedOne(p: Splitter, c: Ch)
    requires ValidSplitter(p)
    ensures FeedAll(p, [c]) == match FeedByte(p, c) {
              case Rejected => Outcome([], None, 0)
              case Fed(q, ps) => Outcome(ps, Some(q), 1)
            }
  {
    assert [c][1..] == [];
    if FeedByte(p, c).Fed? { FeedByteValid(p, c); }
  }

  /** The last character of an accepted input. */
  lemma FeedSnoc(p: Splitter, s: seq<Ch>, c: Ch)
    requires ValidSplitter(p) && FeedAll(p, s + [c]).rest.Some?
    ensures var o := FeedAll(p, s);
            && o.rest.Some? && ValidSplitter(o.rest.value) && FeedByte(o.rest.value, c).Fed?
            && FeedAll(p, s + [c]).packets == o.packets + FeedByte(o.rest.value, c).packets
            && FeedAll(p, s + [c]).rest == Some(FeedByte(o.rest.value, c).next)
  {
    FeedConcat(p, s, [c]);
    FeedAllValid(p, s);
    FeedOne(FeedAll(p, s).rest.value, c);
  }

  // ---- from the automaton to the grammar

  /** The splitter is between packets, or inside an unfinished text of the grammar. */
  ghost predicate Backed(p: Splitter) {
    p == FRESH || exists k: Context :: Backs(k, p)
  }

  ghost predicate Backs(k: Context, p: Splitter) {
    k.Open? && ValidContext(k) && ConfigOf(k) == p.config && Text(k) == p.pending
  }

  /** What one accepted character of a backed splitter can be. */
  ghost predicate ByteOk(p: Splitter, c: Ch, q: Splitter, ps: seq<seq<Ch>>) {
    || (p == FRESH && q == FRESH && ps == [] && G.IsBlank(c))
    || (q.pending == p.pending + [c] && ps == [] && exists k: Context :: Backs(k, q))
    || (q == FRESH && ps == [p.pending + [c]] && G.IsText(p.pending + [c]))
  }

  lemma SeenAtGo(c: Ch, h: Config)
    requires Process(START, c) == Some(h)
    ensures || (G.IsBlank(c) && h == START)
            || (c == G.LBRACKET && h == Config(AR, [M_DONE, M_ARRAY]))
            || (c == G.LBRACE && h == Config(OB, [M_DONE, M_KEY]))
  {
  }

  /** The unfinished text that an opening character starts. */
  ghost function Opening(c: Ch): Context {
    Open([], if c == G.LBRACKET then Await(InArr(None, [])) else KeyAwait(None, []))
  }

  lemma OpeningBacks(c: Ch)
    requires c == G.LBRACKET || c == G.LBRACE
    ensures var g := if c == G.LBRACKET then Config(AR, [M_DONE, M_ARRAY]) else Config(OB, [M_DONE, M_KEY]);
            Backs(Opening(c), Splitter(g, [c]))
  {
    assert Modes([]) == [M_DONE];
    assert [M_DONE] + [M_ARRAY] == [M_DONE, M_ARRAY] && [M_DONE] + [M_KEY] == [M_DONE, M_KEY];
    assert OuterText([]) + [c] + [] == [c];
  }

  lemma FirstByte(c: Ch)
    requires FeedByte(FRESH, c).Fed?
    ensures ByteOk(FRESH, c, FeedByte(FRESH, c).next, FeedByte(FRESH, c).packets)
  {
    SeenAtGo(c, Process(START, c).value);
    if !G.IsBlank(c) {
      OpeningBacks(c);
      assert [] + [c] == [c];
    }
  }

  lemma NextByte(k: Context, p: Splitter, c: Ch)
    requires ValidSplitter(p) && Backs(k, p) && FeedByte(p, c).Fed?
    ensures ByteOk(p, c, FeedByte(p, c).next, FeedByte(p, c).packets)
  {
    var h := Process(p.config, c).value;
    ProcessKeepsInv(p.config, c);
    var k' := Advance(k, c, h);
    if k'.Closed? {
      assert G.TextOf(k'.v, p.pending + [c]);
    } else {
      assert Top(h.stack) != M_DONE;
      assert Backs(k', FeedByte(p, c).next);
    }
  }

  lemma ByteIsOk(p: Splitter, c: Ch)
    requires ValidSplitter(p) && Backed(p) && FeedByte(p, c).Fed?
    ensures ByteOk(p, c, FeedByte(p, c).next, FeedByte(p, c).packets)
  {
    if p == FRESH {
      FirstByte(c);
    } else {
      var k: Context :| Backs(k, p);
      NextByte(k, p, c);
    }
  }

  /** Packets with blanks around them. */
  ghost function Weave(gaps: seq<seq<Ch>>, ps: seq<seq<Ch>>): seq<Ch>
    requires |gaps| == |ps| + 1
  {
    if ps == [] then gaps[0]
    else Weave(gaps[..|ps|], ps[..|ps| - 1]) + ps[|ps| - 1] + gaps[|ps|]
  }

  ghost predicate Woven(gaps: seq<seq<Ch>>, ps: seq<seq<Ch>>) {
    && |gaps| == |ps| + 1
    && (forall i :: 0 <= i < |gaps| ==> G.Blanks(gaps[i]))
    && (forall i :: 0 <= i < |ps| ==> G.IsText(ps[i]))
  }

  /** A stream of JSON texts separated by blanks. */
  ghost predicate IsStream(s: seq<Ch>, ps: seq<seq<Ch>>) {
    exists gaps: seq<seq<Ch>> :: Woven(gaps, ps) && s == Weave(gaps, ps)
  }

  lemma WidenGap(gaps: seq<seq<Ch>>, ps: seq<seq<Ch>>, c: Ch) returns (wider: seq<seq<Ch>>)
    requires Woven(gaps, ps) && G.IsBlank(c)
    ensures Woven(wider, ps) && Weave(wider, ps) == Weave(gaps, ps) + [c]
  {
    var n := |ps|;
    wider := gaps[n := gaps[n] + [c]];
    if ps != [] {
      assert wider[..n] == gaps[..n];
      Assoc(Weave(gaps[..n], ps[..n - 1]) + ps[n - 1], gaps[n], [c]);
    }
  }

  lemma AddPacket(gaps: seq<seq<Ch>>, ps: seq<seq<Ch>>, t: seq<Ch>) returns (more: seq<seq<Ch>>)
    requires Woven(gaps, ps) && G.IsText(t)
    ensures Woven(more, ps + [t]) && Weave(more, ps + [t]) == Weave(gaps, ps) + t
  {
    more := gaps + [[]];
    assert (ps + [t])[..|ps|] == ps && more[..|ps| + 1] == gaps;
    assert Weave(more, ps + [t]) == Weave(gaps, ps) + t + [];
  }

  /** What has been read is the emitted packets with blanks around them, then the unfinished packet. */
  ghost predicate Account(s: seq<Ch>, gaps: seq<seq<Ch>>, ps: seq<seq<Ch>>, p: Splitter) {
    ValidSplitter(p) && Backed(p) && Woven(gaps, ps) && s == Weave(gaps, ps) + p.pending
  }

  lemma AccountNext(s: seq<Ch>, gaps: seq<seq<Ch>>, ps: seq<seq<Ch>>, p: Splitter, c: Ch,
                    q: Splitter, out: seq<seq<Ch>>)
    returns (gaps': seq<seq<Ch>>)
    requires Account(s, gaps, ps, p) && ByteOk(p, c, q, out) && ValidSplitter(q)
    ensures Account(s + [c], gaps', ps + out, q)
  {
    var w := Weave(gaps, ps);
    Assoc(w, p.pending, [c]);
    gaps' := gaps;
    if out != [] {
      gaps' := AddPacket(gaps, ps, p.pending + [c]);
      assert w + (p.pending + [c]) == w + (p.pending + [c]) + [];
    } else {
      assert ps + out == ps;
      if q == FRESH {
        gaps' := WidenGap(gaps, ps, c);
        assert s + [c] == w + [c] + [];
      }
    }
  }

  lemma AccountByte(s: seq<Ch>, gaps: seq<seq<Ch>>, ps: seq<seq<Ch>>, p: Splitter, c: Ch) returns (gaps': seq<seq<Ch>>)
    requires Account(s, gaps, ps, p) && FeedByte(p, c).Fed?
    ensures Account(s + [c], gaps', ps + FeedByte(p, c).packets, FeedByte(p, c).next)
  {
    FeedByteValid(p, c);
    ByteIsOk(p, c);
    gaps' := AccountNext(s, gaps, ps, p, c, FeedByte(p, c).next, FeedByte(p, c).packets);
  }

  /** Induction over an input, from its front. */
  lemma {:induction false} SnocInduction(q: seq<Ch> -> bool, s: seq<Ch>)
    requires q([]) && forall t, c {:trigger q(t + [c])} :: q(t) ==> q(t + [c])
    ensures q(s)
    decreases |s|
  {
    if s != [] {
      var t, c := s[..|s| - 1], s[|s| - 1];
      SnocInduction(q, t);
      assert q(t + [c]);
      assert s == t + [c];
    }
  }

  ghost predicate Accounted(p: Splitter, s: seq<Ch>)
    requires ValidSplitter(p)
  {
    var o := FeedAll(p, s);
    o.rest.Some? ==> exists gaps: seq<seq<Ch>> :: Account(s, gaps, o.packets, o.rest.value)
  }

  lemma AccountedMore(p: Splitter, t: seq<Ch>, c: Ch)
    requires ValidSplitter(p) && Accounted(p, t)
    ensures Accounted(p, t + [c])
  {
    if FeedAll(p, t + [c]).rest.Some? {
      FeedSnoc(p, t, c);
      var o := FeedAll(p, t);
      var gaps: seq<seq<Ch>> :| Account(t, gaps, o.packets, o.rest.value);
      gaps := AccountByte(t, gaps, o.packets, o.rest.value, c);
    }
  }

  lemma AllAccounted(p: Splitter, s: seq<Ch>)
    requires Account([], [[]], [], p)
    ensures Accounted(p, s)
  {
    var q := (t: seq<Ch>) => Accounted(p, t);
    forall t, c {:trigger q(t + [c])} | q(t)
      ensures q(t + [c])
    {
      AccountedMore(p, t, c);
    }
    assert Account([], [[]], FeedAll(p, []).packets, p);
    SnocInduction(q, s);
  }

  /** Without a rejection, the input is a stream of the emitted packets followed by the unfinished one. */
  lemma AcceptedIsStream(s: seq<Ch>) returns (gaps: seq<seq<Ch>>)
    requires FeedAll(FRESH, s).rest.Some?
    ensures Account(s, gaps, FeedAll(FRESH, s).packets, FeedAll(FRESH, s).rest.value)
  {
    assert Weave([[]], []) + [] == [];
    AllAccounted(FRESH, s);
    gaps :| Account(s, gaps, FeedAll(FRESH, s).packets, FeedAll(FRESH, s).rest.value);
  }

  // ---- from the grammar to the automaton

  /** Once a text is complete, only blanks can follow it in the automaton. */
  lemma {:induction false} AfterDone(t: seq<Ch>)
    requires Run(Config(OK, [M_DONE]), t).Some?
    ensures G.Blanks(t)
    decreases |t|
  {
    if t != [] {
      SeenAfterValue([M_DONE], t[0], Process(Config(OK, [M_DONE]), t[0]).value);
      AfterDone(t[1..]);
    }
  }

  /** A proper prefix of a text leaves some container open. */
  lemma PrefixIsOpen(s: seq<Ch>, i: nat)
    requires G.IsText(s) && 1 <= i < |s|
    ensures Run(START, s[..i]).Some? && Inv(Run(START, s[..i]).value)
    ensures Run(START, s[..i]).value.state != GO && Top(Run(START, s[..i]).value.stack) != M_DONE
  {
    TextIsAccepted(s);
    assert s == s[..i] + s[i..];
    RunSplit(START, s[..i], s[i..]);
    RunKeepsInv(START, s[..i]);
    var g := Run(START, s[..i]).value;
    FirstIsOpen(s, i);
    assert s[i..][|s| - i - 1] == s[|s| - 1];
    if Top(g.stack) == M_DONE {
      assert g == Config(OK, [M_DONE]);
      AfterDone(s[i..]);
      assert false;
    }
  }

  lemma FirstIsOpen(s: seq<Ch>, i: nat)
    requires 1 <= i < |s| && (s[0] == G.LBRACKET || s[0] == G.LBRACE) && Run(START, s[..i]).Some?
    ensures Run(START, s[..i]).value.state != GO
  {
    var t := s[..i];
    assert t[0] == s[0];
    var h := Process(START, t[0]).value;
    assert h.state != GO;
    ProcessKeepsInv(START, t[0]);
    RunKeepsInv(h, t[1..]);
  }

  /** A path that stays inside a container until its last configuration. */
  ghost predicate OpenPath(p: seq<Config>, s: seq<Ch>) {
    && s != [] && Linked(Follow, Inv, p, s) && p[0].state == GO
    && (forall k :: 1 <= k < |s| ==> p[k].state != GO && Top(p[k].stack) != M_DONE)
  }

  lemma TextPath(s: seq<Ch>) returns (p: seq<Config>)
    requires G.IsText(s)
    ensures OpenPath(p, s) && p[0] == START && p[|s|] == Config(OK, [M_DONE])
  {
    TextIsAccepted(s);
    p :| Path(p, START, s, Config(OK, [M_DONE]));
    forall k | 1 <= k < |s|
      ensures p[k].state != GO && Top(p[k].stack) != M_DONE
    {
      OpenAt(s, p, k);
    }
  }

  lemma OpenAt(s: seq<Ch>, p: seq<Config>, k: nat)
    requires G.IsText(s) && Path(p, START, s, Config(OK, [M_DONE])) && 1 <= k < |s|
    ensures Inv(p[k]) && p[k].state != GO && Top(p[k].stack) != M_DONE
  {
    LinkedTake(Follow, Inv, p, s, k);
    assert Path(p[..k + 1], START, s[..k], p[k]);
    GoesRun(START, s[..k], p[k]);
    PrefixIsOpen(s, k);
  }

  /** Along such a path the splitter only collects. */
  ghost predicate Collects(p: seq<Config>, s: seq<Ch>, i: nat)
    requires |p| == |s| + 1 && i <= |s|
  {
    && ValidSplitter(Splitter(p[0], [])) && ValidSplitter(Splitter(p[i], s[..i]))
    && FeedAll(Splitter(p[0], []), s[..i]) == Outcome([], Some(Splitter(p[i], s[..i])), i)
  }

  lemma CollectsMore(p: seq<Config>, s: seq<Ch>, i: nat, t: seq<Ch>, u: seq<Ch>)
    requires OpenPath(p, s) && 1 <= i < |s| && Collects(p, s, i - 1)
    requires t == s[..i - 1] && u == s[..i] && u == t + [s[i - 1]]
    ensures Collects(p, s, i)
  {
    assert Follow(p[i - 1], s[i - 1]) == Some(p[i]) && Inv(p[i]);
    StaysInside(Splitter(p[0], []), t, p[i - 1], s[i - 1], p[i]);
  }

  ghost predicate Inherits(q: nat -> bool, i: nat) { q(i) ==> q(i + 1) }

  /** Induction up to a number. */
  lemma {:induction false} Climb(q: nat -> bool, n: nat)
    requires q(0) && forall i: nat :: i < n ==> Inherits(q, i)
    ensures q(n)
  {
    if n > 0 {
      Climb(q, n - 1);
      assert Inherits(q, n - 1);
    }
  }

  lemma PrefixFeeds(p: seq<Config>, s: seq<Ch>, i: nat)
    requires OpenPath(p, s) && i < |s|
    ensures Collects(p, s, i)
  {
    var q := (k: nat) => k < |s| && Collects(p, s, k);
    assert Inv(p[0]);
    forall k: nat | k < i
      ensures Inherits(q, k)
    {
      assert s[..k + 1] == s[..k] + [s[k]];
      if q(k) { CollectsMore(p, s, k + 1, s[..k], s[..k + 1]); }
    }
    Climb(q, i);
  }

  lemma StaysInside(p: Splitter, t: seq<Ch>, g: Config, c: Ch, h: Config)
    requires ValidSplitter(p) && ValidSplitter(Splitter(g, t))
    requires FeedAll(p, t) == Outcome([], Some(Splitter(g, t)), |t|)
    requires Process(g, c) == Some(h) && Inv(h) && h.state != GO && Top(h.stack) != M_DONE
    ensures FeedAll(p, t + [c]) == Outcome([], Some(Splitter(h, t + [c])), |t| + 1)
    ensures ValidSplitter(Splitter(h, t + [c]))
  {
    LastFeeds(p, t, Splitter(g, t), c);
    FeedByteValid(Splitter(g, t), c);
  }

  lemma PathFeeds(p: seq<Config>, s: seq<Ch>)
    requires OpenPath(p, s) && p[|s|] == Config(OK, [M_DONE])
    ensures ValidSplitter(Splitter(p[0], [])) && FeedAll(Splitter(p[0], []), s) == Outcome([s], Some(FRESH), |s|)
  {
    var i := |s| - 1;
    PrefixFeeds(p, s, i);
    assert Follow(p[i], s[i]) == Some(p[i + 1]);
    assert s == s[..i] + [s[i]];
    Closes(Splitter(p[0], []), s[..i], p[i], s[i]);
  }

  lemma Closes(p: Splitter, t: seq<Ch>, g: Config, c: Ch)
    requires ValidSplitter(p) && ValidSplitter(Splitter(g, t))
    requires FeedAll(p, t) == Outcome([], Some(Splitter(g, t)), |t|)
    requires Process(g, c) == Some(Config(OK, [M_DONE]))
    ensures FeedAll(p, t + [c]) == Outcome([t + [c]], Some(FRESH), |t| + 1)
  {
    LastFeeds(p, t, Splitter(g, t), c);
  }

  lemma TextFeeds(s: seq<Ch>)
    requires G.IsText(s)
    ensures FeedAll(FRESH, s) == Outcome([s], Some(FRESH), |s|)
  {
    var p := TextPath(s);
    PathFeeds(p, s);
  }

  lemma LastFeeds(p: Splitter, t: seq<Ch>, q: Splitter, c: Ch)
    requires ValidSplitter(p) && ValidSplitter(q) && FeedAll(p, t) == Outcome([], Some(q), |t|) && FeedByte(q, c).Fed?
    ensures FeedAll(p, t + [c]) == Outcome(FeedByte(q, c).packets, Some(FeedByte(q, c).next), |t| + 1)
  {
    FeedConcat(p, t, [c]);
    FeedOne(q, c);
  }

  lemma {:induction false} GapFeeds(w: seq<Ch>)
    requires G.Blanks(w)
    ensures FeedAll(FRESH, w) == Outcome([], Some(FRESH), |w|)
    decreases |w|
  {
    if w != [] {
      BlankMove(GO, w[0]);
      GapFeeds(w[1..]);
    }
  }

  /** Two inputs that each bring the splitter back to where it was. */
  lemma ThenFeeds(p: Splitter, s: seq<Ch>, ps: seq<seq<Ch>>, t: seq<Ch>, qs: seq<seq<Ch>>)
    requires ValidSplitter(p)
    requires FeedAll(p, s) == Outcome(ps, Some(p), |s|) && FeedAll(p, t) == Outcome(qs, Some(p), |t|)
    ensures FeedAll(p, s + t) == Outcome(ps + qs, Some(p), |s + t|)
  {
    FeedConcat(p, s, t);
  }

  lemma ThenBoth(p: Splitter, w: seq<Ch>, ps: seq<seq<Ch>>, t: seq<Ch>, gap: seq<Ch>)
    requires ValidSplitter(p) && FeedAll(p, w) == Outcome(ps, Some(p), |w|)
    requires FeedAll(p, t) == Outcome([t], Some(p), |t|) && FeedAll(p, gap) == Outcome([], Some(p), |gap|)
    ensures FeedAll(p, w + t + gap) == Outcome(ps + [t], Some(p), |w + t + gap|)
  {
    ThenFeeds(p, w, ps, t, [t]);
    ThenFeeds(p, w + t, ps + [t], gap, []);
    assert ps + [t] + [] == ps + [t];
  }

  /** What holds of blanks and goes on to hold after a text and blanks, holds of every stream. */
  lemma {:induction false} StreamInduction(q: (seq<Ch>, seq<seq<Ch>>) -> bool, gaps: seq<seq<Ch>>, ps: seq<seq<Ch>>)
    requires Woven(gaps, ps) && forall gap :: G.Blanks(gap) ==> q(gap, [])
    requires forall w, qs, t, gap {:trigger q(w + t + gap, qs + [t])} ::
               q(w, qs) && G.IsText(t) && G.Blanks(gap) ==> q(w + t + gap, qs + [t])
    ensures q(Weave(gaps, ps), ps)
    decreases |ps|
  {
    var n := |ps|;
    if n > 0 {
      var w := Weave(gaps[..n], ps[..n - 1]);
      StreamInduction(q, gaps[..n], ps[..n - 1]);
      assert q(w + ps[n - 1] + gaps[n], ps[..n - 1] + [ps[n - 1]]);
      assert ps == ps[..n - 1] + [ps[n - 1]];
    }
  }

  lemma StreamIsAccepted(gaps: seq<seq<Ch>>, ps: seq<seq<Ch>>)
    requires Woven(gaps, ps)
    ensures FeedAll(FRESH, Weave(gaps, ps)) == Outcome(ps, Some(FRESH), |Weave(gaps, ps)|)
  {
    var q := (w: seq<Ch>, qs: seq<seq<Ch>>) => FeedAll(FRESH, w) == Outcome(qs, Some(FRESH), |w|);
    forall gap | G.Blanks(gap)
      ensures q(gap, [])
    {
      GapFeeds(gap);
    }
    forall w, qs, t, gap {:trigger q(w + t + gap, qs + [t])} | q(w, qs) && G.IsText(t) && G.Blanks(gap)
      ensures q(w + t + gap, qs + [t])
    {
      TextFeeds(t);
      GapFeeds(gap);
      ThenBoth(FRESH, w, qs, t, gap);
    }
    StreamInduction(q, gaps, ps);
  }

  // ---- the theorems

  /** Exactly the texts of the grammar are emitted as one packet by a fresh filter. */
  lemma OnePacketIffText(s: seq<Ch>)
    ensures FeedAll(FRESH, s) == Outcome([s], Some(FRESH), |s|) <==> G.IsText(s)
  {
    if G.IsText(s) { TextFeeds(s); }
    if FeedAll(FRESH, s) == Outcome([s], Some(FRESH), |s|) {
      var gaps := AcceptedIsStream(s);
      assert G.IsText([s][0]);
    }
  }

  /** A fresh filter ends between packets, having emitted ps, exactly on the streams of ps. */
  lemma PacketsIffStream(s: seq<Ch>, ps: seq<seq<Ch>>)
    ensures FeedAll(FRESH, s) == Outcome(ps, Some(FRESH), |s|) <==> IsStream(s, ps)
  {
    if IsStream(s, ps) {
      var gaps :| Woven(gaps, ps) && s == Weave(gaps, ps);
      StreamIsAccepted(gaps, ps);
    }
    if FeedAll(FRESH, s) == Outcome(ps, Some(FRESH), |s|) {
      var gaps := AcceptedIsStream(s);
      assert s == Weave(gaps, ps) + [];
    }
  }
}
