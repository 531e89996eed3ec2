/**
  Unfinished JSON texts: the stack of containers that are open, what each of them holds so far, and the
  position inside the innermost one.  A context determines both the characters read and the configuration
  the automaton is in.
 */
module JsonContext {
  import opened Prelude
  import opened JsonAutomaton
  import G = JsonGrammar

  /** An open container in the middle of which a value has started: its finished items, and what precedes the value. */
  datatype Frame =
    | InArr(elements: Option<G.Elements>, pre: seq<Ch>)
    | InObj(members: Option<G.Members>, kpre: seq<Ch>, key: seq<G.Unit>, mid: seq<Ch>, pre: seq<Ch>)

  /** A scalar that is not complete yet; `part` is an unfinished escape. */
  datatype Token =
    | TStr(units: seq<G.Unit>, part: seq<Ch>)
    | TNum(number: G.Number)
    | TLit(literal: G.Literal, read: nat)

  datatype Position =
    | Await(frame: Frame)
    | Scalar(frame: Frame, token: Token)
    | After(frame: Frame, v: G.Json, post: seq<Ch>)
    | KeyAwait(members: Option<G.Members>, kpre: seq<Ch>)
    | KeyToken(members: Option<G.Members>, kpre: seq<Ch>, units: seq<G.Unit>, part: seq<Ch>)
    | ColonAwait(members: Option<G.Members>, kpre: seq<Ch>, key: seq<G.Unit>, mid: seq<Ch>)

  datatype Context = Open(outer: seq<Frame>, at: Position) | Closed(v: G.Json)

  // ---- the characters read

  ghost function ArrayHead(es: Option<G.Elements>): seq<Ch> {
    match es
    case None => [G.LBRACKET]
    case Some(e) => [G.LBRACKET] + G.RenderElements(e) + [G.COMMA]
  }

  ghost function ObjectHead(ms: Option<G.Members>): seq<Ch> {
    match ms
    case None => [G.LBRACE]
    case Some(m) => [G.LBRACE] + G.RenderMembers(m) + [G.COMMA]
  }

  ghost function KeyText(kpre: seq<Ch>, key: seq<G.Unit>, mid: seq<Ch>): seq<Ch> {
    kpre + G.RenderString(key) + mid + [G.COLON]
  }

  ghost function FrameText(f: Frame): seq<Ch> {
    match f
    case InArr(es, pre) => ArrayHead(es) + pre
    case InObj(ms, kpre, key, mid, pre) => ObjectHead(ms) + KeyText(kpre, key, mid) + pre
  }

  ghost function TokenText(t: Token): seq<Ch>
    requires ValidToken(t)
  {
    match t
    case TStr(us, part) => [G.QUOTE] + G.RenderUnits(us) + part
    case TNum(n) => G.RenderNumber(n)
    case TLit(l, k) => G.RenderLiteral(l)[..k]
  }

  ghost function PositionText(p: Position): seq<Ch>
    requires p.Scalar? ==> ValidToken(p.token)
  {
    match p
    case Await(f) => FrameText(f)
    case Scalar(f, t) => FrameText(f) + TokenText(t)
    case After(f, v, post) => FrameText(f) + G.Render(v) + post
    case KeyAwait(ms, kpre) => ObjectHead(ms) + kpre
    case KeyToken(ms, kpre, us, part) => ObjectHead(ms) + kpre + ([G.QUOTE] + G.RenderUnits(us) + part)
    case ColonAwait(ms, kpre, key, mid) => ObjectHead(ms) + (kpre + G.RenderString(key) + mid)
  }

  ghost function OuterText(outer: seq<Frame>): seq<Ch> {
    if outer == [] then [] else OuterText(outer[..|outer| - 1]) + FrameText(outer[|outer| - 1])
  }

  ghost function Text(k: Context): seq<Ch>
    requires ValidContext(k)
  {
    match k
    case Open(outer, at) => OuterText(outer) + PositionText(at)
    case Closed(v) => G.Render(v)
  }

  // ---- the configuration

  function FrameMode(f: Frame): Mode { if f.InArr? then M_ARRAY else M_OBJECT }

  ghost function Modes(outer: seq<Frame>): (r: seq<Mode>)
    ensures |r| == |outer| + 1
  {
    if outer == [] then [M_DONE] else Modes(outer[..|outer| - 1]) + [FrameMode(outer[|outer| - 1])]
  }

  function PartState(part: seq<Ch>): State {
    if |part| == 0 then ST else if |part| == 1 then ES else if |part| == 2 then U1
    else if |part| == 3 then U2 else if |part| == 4 then U3 else U4
  }

  function NumberState(n: G.Number): State {
    if n.whole == [] then MI
    else match n.exponent
      case NoExponent => if n.point then FR else if n.whole == [G.ZERO] then ZE else IN
      case Exponent(_, sign, digits) => if digits != [] then E3 else if sign != [] then E2 else E1
  }

  function LiteralState(l: G.Literal, k: nat): State {
    match l
    case True => if k == 1 then T1 else if k == 2 then T2 else T3
    case False => if k == 1 then F1 else if k == 2 then F2 else if k == 3 then F3 else F4
    case Null => if k == 1 then N1 else if k == 2 then N2 else N3
  }

  function TokenState(t: Token): State {
    match t
    case TStr(_, part) => PartState(part)
    case TNum(n) => NumberState(n)
    case TLit(l, k) => LiteralState(l, k)
  }

  function PositionState(p: Position): State {
    match p
    case Await(f) => if f.InArr? && f.elements.None? then AR else VA
    case Scalar(_, t) => TokenState(t)
    case After(_, _, _) => OK
    case KeyAwait(ms, _) => if ms.None? then OB else KE
    case KeyToken(_, _, _, part) => PartState(part)
    case ColonAwait(_, _, _, _) => CO
  }

  function PositionMode(p: Position): Mode {
    match p
    case Await(f) => FrameMode(f)
    case Scalar(f, _) => FrameMode(f)
    case After(f, _, _) => FrameMode(f)
    case _ => M_KEY
  }

  ghost function ConfigOf(k: Context): Config {
    match k
    case Open(outer, at) => Config(PositionState(at), Modes(outer) + [PositionMode(at)])
    case Closed(_) => Config(OK, [M_DONE])
  }

  // ---- well-formed contexts; n is the number of containers around the one in question

  ghost predicate ValidElementsAt(es: Option<G.Elements>, n: nat) {
    es.Some? ==> G.ValidElements(es.value) && n + 1 + G.DepthElements(es.value) <= 127
  }

  ghost predicate ValidMembersAt(ms: Option<G.Members>, n: nat) {
    ms.Some? ==> G.ValidMembers(ms.value) && n + 1 + G.DepthMembers(ms.value) <= 127
  }

  ghost predicate ValidFrame(f: Frame, n: nat) {
    match f
    case InArr(es, pre) => ValidElementsAt(es, n) && G.Blanks(pre)
    case InObj(ms, kpre, key, mid, pre) =>
      ValidMembersAt(ms, n) && G.Blanks(kpre) && G.ValidUnits(key) && G.Blanks(mid) && G.Blanks(pre)
  }

  ghost predicate ValidPart(part: seq<Ch>) {
    && |part| <= 5
    && (|part| >= 1 ==> part[0] == G.BACKSLASH)
    && (|part| >= 2 ==> part[1] == 117 /* u */)
    && (forall i :: 2 <= i < |part| ==> G.IsHex(part[i]))
  }

  ghost predicate PartialExponent(x: G.Exponent) {
    match x
    case NoExponent => true
    case Exponent(e, sign, digits) =>
      (e == 101 /* e */ || e == 69 /* E */) && (sign == [] || sign == [G.PLUS] || sign == [G.MINUS]) && G.Digits(digits)
  }

  ghost predicate PartialNumber(n: G.Number) {
    if n.whole == [] then n.minus && !n.point && n.fraction == [] && n.exponent.NoExponent?
    else
      && G.ValidWhole(n.whole)
      && G.Digits(n.fraction) && (n.fraction != [] ==> n.point)
      && PartialExponent(n.exponent)
      && (n.exponent.Exponent? ==> n.point || n.whole != [G.ZERO])
  }

  ghost predicate ValidToken(t: Token) {
    match t
    case TStr(us, part) => G.ValidUnits(us) && ValidPart(part)
    case TNum(n) => PartialNumber(n)
    case TLit(l, k) => 1 <= k < |G.RenderLiteral(l)|
  }

  ghost predicate ValidPosition(p: Position, n: nat) {
    match p
    case Await(f) => ValidFrame(f, n)
    case Scalar(f, t) => ValidFrame(f, n) && ValidToken(t)
    case After(f, v, post) => ValidFrame(f, n) && G.Valid(v) && n + 1 + G.Depth(v) <= 127 && G.Blanks(post)
    case KeyAwait(ms, kpre) => ValidMembersAt(ms, n) && G.Blanks(kpre)
    case KeyToken(ms, kpre, us, part) => ValidMembersAt(ms, n) && G.Blanks(kpre) && G.ValidUnits(us) && ValidPart(part)
    case ColonAwait(ms, kpre, key, mid) => ValidMembersAt(ms, n) && G.Blanks(kpre) && G.ValidUnits(key) && G.Blanks(mid)
  }

  ghost predicate ValidOuter(outer: seq<Frame>) {
    outer == [] || (ValidOuter(outer[..|outer| - 1]) && ValidFrame(outer[|outer| - 1], |outer| - 1))
  }

  ghost predicate ValidContext(k: Context) {
    match k
    case Open(outer, at) => |outer| <= 126 && ValidOuter(outer) && ValidPosition(at, |outer|)
    case Closed(v) => (v.Arr? || v.Obj?) && G.Valid(v) && G.Depth(v) <= 127
  }

  // ---- moving inside the innermost container

  /** A longer position in the same container is a longer text in the same surroundings. */
  lemma Extend(outer: seq<Frame>, at: Position, next: Position, c: Ch)
    requires ValidContext(Open(outer, at)) && ValidPosition(next, |outer|)
    requires PositionText(next) == PositionText(at) + [c]
    ensures ValidContext(Open(outer, next)) && Text(Open(outer, next)) == Text(Open(outer, at)) + [c]
  {
    assert OuterText(outer) + (PositionText(at) + [c]) == OuterText(outer) + PositionText(at) + [c];
  }

  /** Entering a container from a position that awaits a value. */
  lemma Descend(outer: seq<Frame>, f: Frame, inner: Position, c: Ch)
    requires ValidContext(Open(outer, Await(f))) && |outer| <= 125
    requires ValidPosition(inner, |outer| + 1) && PositionText(inner) == [c]
    ensures var k := Open(outer + [f], inner);
            && ValidContext(k) && Text(k) == Text(Open(outer, Await(f))) + [c]
            && ConfigOf(k) == Config(PositionState(inner), Modes(outer) + [FrameMode(f)] + [PositionMode(inner)])
  {
    assert (outer + [f])[..|outer + [f]| - 1] == outer;
  }

  /** Leaving the innermost container: its value lands in the container around it, or ends the text. */
  ghost function Leave(outer: seq<Frame>, v: G.Json): Context {
    if outer == [] then Closed(v)
    else Open(outer[..|outer| - 1], After(outer[|outer| - 1], v, []))
  }

  lemma Ascend(outer: seq<Frame>, at: Position, v: G.Json, c: Ch)
    requires ValidContext(Open(outer, at))
    requires (v.Arr? || v.Obj?) && G.Valid(v) && |outer| + G.Depth(v) <= 127
    requires G.Render(v) == PositionText(at) + [c]
    ensures var k := Leave(outer, v);
            ValidContext(k) && Text(k) == Text(Open(outer, at)) + [c] && ConfigOf(k) == Config(OK, Modes(outer))
  {
    var t := PositionText(at);
    if outer == [] {
      assert [] + t == t;
    } else {
      var o, f := OuterText(outer[..|outer| - 1]), FrameText(outer[|outer| - 1]);
      assert PositionText(After(outer[|outer| - 1], v, [])) == f + (t + [c]);
      Assoc(f, t, [c]);
      Assoc(o, f + t, [c]);
      Assoc(o, f, t);
    }
  }

  // ---- finished items

  ghost function AddElement(es: Option<G.Elements>, e: G.Element): G.Elements {
    match es
    case None => G.OneElement(e)
    case Some(init) => G.MoreElements(init, e)
  }

  lemma AddElementText(es: Option<G.Elements>, e: G.Element)
    ensures [G.LBRACKET] + G.RenderElements(AddElement(es, e)) == ArrayHead(es) + G.RenderElement(e)
  {
    if es.Some? {
      var r := G.RenderElements(es.value);
      assert [G.LBRACKET] + (r + [G.COMMA] + G.RenderElement(e)) == [G.LBRACKET] + r + [G.COMMA] + G.RenderElement(e);
    }
  }

  ghost function AddMember(ms: Option<G.Members>, m: G.Member): G.Members {
    match ms
    case None => G.OneMember(m)
    case Some(init) => G.MoreMembers(init, m)
  }

  lemma AddMemberText(ms: Option<G.Members>, m: G.Member)
    ensures [G.LBRACE] + G.RenderMembers(AddMember(ms, m)) == ObjectHead(ms) + G.RenderMember(m)
  {
    if ms.Some? {
      var r := G.RenderMembers(ms.value);
      assert [G.LBRACE] + (r + [G.COMMA] + G.RenderMember(m)) == [G.LBRACE] + r + [G.COMMA] + G.RenderMember(m);
    }
  }

  /** The elements of an array whose last value is complete. */
  lemma FinishElement(es: Option<G.Elements>, pre: seq<Ch>, v: G.Json, post: seq<Ch>, n: nat) returns (all: G.Elements)
    requires ValidPosition(After(InArr(es, pre), v, post), n)
    ensures ValidElementsAt(Some(all), n)
    ensures [G.LBRACKET] + G.RenderElements(all) == PositionText(After(InArr(es, pre), v, post))
  {
    var e := G.Element(pre, v, post);
    all := AddElement(es, e);
    AddElementText(es, e);
    var h, r := ArrayHead(es), G.Render(v);
    Assoc(h, pre, r);
    Assoc(h, pre + r, post);
  }

  /** The members of an object whose last value is complete. */
  lemma FinishMember(f: Frame, v: G.Json, post: seq<Ch>, n: nat) returns (all: G.Members)
    requires f.InObj? && ValidPosition(After(f, v, post), n)
    ensures ValidMembersAt(Some(all), n)
    ensures [G.LBRACE] + G.RenderMembers(all) == PositionText(After(f, v, post))
  {
    var e := G.Element(f.pre, v, post);
    var m := G.Member(f.kpre, f.key, f.mid, e);
    all := AddMember(f.members, m);
    AddMemberText(f.members, m);
    var h, k, r := ObjectHead(f.members), KeyText(f.kpre, f.key, f.mid), G.Render(v);
    assert G.RenderElement(e) == f.pre + r + post;
    assert G.RenderMember(m) == k + G.RenderElement(e);
    assert PositionText(After(f, v, post)) == h + k + f.pre + r + post;
    Assoc(h + k, f.pre, r);
    Assoc(h + k, f.pre + r, post);
    Assoc(h, k, f.pre + r + post);
    assert G.ValidMember(m) && n + 1 + G.Depth(m.value.v) <= 127;
    assert G.ValidMembers(all);
    assert n + 1 + G.DepthMembers(all) <= 127;
  }
}
