/**
  JSON texts as concrete syntax trees (sections 2, 4, 5 and 7 of RFC 8259), with every blank recorded, and
  their rendering as characters.  Nothing here mentions the automaton.

  Numbers follow the transition table of evd/evd-json-filter.c where it departs from section 6 of RFC 8259:
  the fraction may have no digit ("1."), and a zero without a point takes no exponent ("0e1").
 */
module JsonGrammar {
  import opened Prelude

  const LBRACKET: Ch := 91 /* [ */
  const RBRACKET: Ch := 93 /* ] */
  const LBRACE: Ch := 123 /* { */
  const RBRACE: Ch := 125 /* } */
  const COLON: Ch := 58 /* : */
  const COMMA: Ch := 44 /* , */
  const QUOTE: Ch := 34 /* " */
  const BACKSLASH: Ch := 92 /* \ */
  const MINUS: Ch := 45 /* - */
  const PLUS: Ch := 43 /* + */
  const POINT: Ch := 46 /* . */
  const ZERO: Ch := 48 /* 0 */

  /** One character of a string: itself, a two-character escape, or a four-digit escape. */
  datatype Unit = Plain(c: Ch) | Escaped(c: Ch) | Unicode(h: seq<Ch>)

  datatype Exponent = NoExponent | Exponent(e: Ch, sign: seq<Ch>, digits: seq<Ch>)

  datatype Number = Number(minus: bool, whole: seq<Ch>, point: bool, fraction: seq<Ch>, exponent: Exponent)

  datatype Literal = True | False | Null

  datatype Json =
    | Str(units: seq<Unit>)
    | Num(number: Number)
    | Lit(literal: Literal)
    | Arr(elements: ArrayBody)
    | Obj(members: ObjectBody)

  datatype ArrayBody = NoElement(blank: seq<Ch>) | SomeElements(some: Elements)
  datatype Elements = OneElement(last: Element) | MoreElements(init: Elements, last: Element)
  datatype Element = Element(pre: seq<Ch>, v: Json, post: seq<Ch>)

  datatype ObjectBody = NoMember(blank: seq<Ch>) | SomeMembers(some: Members)
  datatype Members = OneMember(last: Member) | MoreMembers(init: Members, last: Member)
  datatype Member = Member(pre: seq<Ch>, key: seq<Unit>, mid: seq<Ch>, value: Element)

  // ---- characters

  predicate IsBlank(c: Ch) { c == 9 || c == 10 || c == 13 || c == 32 }

  predicate IsDigit(c: Ch) { 48 /* 0 */ <= c <= 57 /* 9 */ }

  predicate IsHex(c: Ch) {
    IsDigit(c) || 97 /* a */ <= c <= 102 /* f */ || 65 /* A */ <= c <= 70 /* F */
  }

  /** Unescaped string characters: everything but control characters, the quote and the backslash. */
  predicate IsPlain(c: Ch) { c >= 32 && c != QUOTE && c != BACKSLASH }

  predicate IsEscapable(c: Ch) {
    || c == QUOTE || c == BACKSLASH || c == 47 /* / */
    || c == 98 /* b */ || c == 102 /* f */ || c == 110 /* n */ || c == 114 /* r */ || c == 116 /* t */
  }

  ghost predicate Blanks(s: seq<Ch>) { forall i :: 0 <= i < |s| ==> IsBlank(s[i]) }

  ghost predicate Digits(s: seq<Ch>) { forall i :: 0 <= i < |s| ==> IsDigit(s[i]) }

  // ---- well-formed trees

  ghost predicate ValidUnit(u: Unit) {
    match u
    case Plain(c) => IsPlain(c)
    case Escaped(c) => IsEscapable(c)
    case Unicode(h) => |h| == 4 && forall i :: 0 <= i < 4 ==> IsHex(h[i])
  }

  ghost predicate ValidUnits(us: seq<Unit>) { forall i :: 0 <= i < |us| ==> ValidUnit(us[i]) }

  ghost predicate ValidWhole(w: seq<Ch>) {
    w == [ZERO] || (w != [] && w[0] != ZERO && Digits(w))
  }

  ghost predicate ValidExponent(x: Exponent) {
    match x
    case NoExponent => true
    case Exponent(e, sign, digits) =>
      && (e == 101 /* e */ || e == 69 /* E */)
      && (sign == [] || sign == [PLUS] || sign == [MINUS])
      && digits != [] && Digits(digits)
  }

  ghost predicate ValidNumber(n: Number) {
    && ValidWhole(n.whole)
    && Digits(n.fraction) && (n.fraction != [] ==> n.point)
    && ValidExponent(n.exponent)
    && (n.exponent.Exponent? ==> n.point || n.whole != [ZERO])
  }

  ghost predicate Valid(v: Json) {
    match v
    case Str(us) => ValidUnits(us)
    case Num(n) => ValidNumber(n)
    case Lit(_) => true
    case Arr(b) => (match b case NoElement(w) => Blanks(w) case SomeElements(es) => ValidElements(es))
    case Obj(b) => (match b case NoMember(w) => Blanks(w) case SomeMembers(ms) => ValidMembers(ms))
  }

  ghost predicate ValidElement(e: Element) { Blanks(e.pre) && Valid(e.v) && Blanks(e.post) }

  ghost predicate ValidElements(es: Elements) {
    match es
    case OneElement(e) => ValidElement(e)
    case MoreElements(init, e) => ValidElements(init) && ValidElement(e)
  }

  ghost predicate ValidMember(m: Member) {
    Blanks(m.pre) && ValidUnits(m.key) && Blanks(m.mid) && ValidElement(m.value)
  }

  ghost predicate ValidMembers(ms: Members) {
    match ms
    case OneMember(m) => ValidMember(m)
    case MoreMembers(init, m) => ValidMembers(init) && ValidMember(m)
  }

  // ---- nesting depth

  ghost function Depth(v: Json): nat {
    match v
    case Arr(b) => 1 + (match b case NoElement(_) => 0 case SomeElements(es) => DepthElements(es))
    case Obj(b) => 1 + (match b case NoMember(_) => 0 case SomeMembers(ms) => DepthMembers(ms))
    case _ => 0
  }

  ghost function DepthElements(es: Elements): nat {
    match es
    case OneElement(e) => Depth(e.v)
    case MoreElements(init, e) => Max(DepthElements(init), Depth(e.v))
  }

  ghost function DepthMembers(ms: Members): nat {
    match ms
    case OneMember(m) => Depth(m.value.v)
    case MoreMembers(init, m) => Max(DepthMembers(init), Depth(m.value.v))
  }

  // ---- rendering

  ghost function RenderUnit(u: Unit): seq<Ch> {
    match u
    case Plain(c) => [c]
    case Escaped(c) => [BACKSLASH, c]
    case Unicode(h) => [BACKSLASH, 117 /* u */] + h
  }

  ghost function RenderUnits(us: seq<Unit>): seq<Ch> {
    if us == [] then [] else RenderUnits(us[..|us| - 1]) + RenderUnit(us[|us| - 1])
  }

  ghost function RenderString(us: seq<Unit>): seq<Ch> { [QUOTE] + RenderUnits(us) + [QUOTE] }

  ghost function RenderExponent(x: Exponent): seq<Ch> {
    match x
    case NoExponent => []
    case Exponent(e, sign, digits) => [e] + sign + digits
  }

  ghost function RenderNumber(n: Number): seq<Ch> {
    (if n.minus then [MINUS] else []) + n.whole + (if n.point then [POINT] else []) + n.fraction
    + RenderExponent(n.exponent)
  }

  ghost function RenderLiteral(l: Literal): seq<Ch> {
    match l
    case True => [116 /* t */, 114 /* r */, 117 /* u */, 101 /* e */]
    case False => [102 /* f */, 97 /* a */, 108 /* l */, 115 /* s */, 101 /* e */]
    case Null => [110 /* n */, 117 /* u */, 108 /* l */, 108 /* l */]
  }

  ghost function Render(v: Json): seq<Ch> {
    match v
    case Str(us) => RenderString(us)
    case Num(n) => RenderNumber(n)
    case Lit(l) => RenderLiteral(l)
    case Arr(b) =>
      [LBRACKET] + (match b case NoElement(w) => w case SomeElements(es) => RenderElements(es)) + [RBRACKET]
    case Obj(b) =>
      [LBRACE] + (match b case NoMember(w) => w case SomeMembers(ms) => RenderMembers(ms)) + [RBRACE]
  }

  ghost function RenderElement(e: Element): seq<Ch> { e.pre + Render(e.v) + e.post }

  ghost function RenderElements(es: Elements): seq<Ch> {
    match es
    case OneElement(e) => RenderElement(e)
    case MoreElements(init, e) => RenderElements(init) + [COMMA] + RenderElement(e)
  }

  ghost function RenderMember(m: Member): seq<Ch> {
    m.pre + RenderString(m.key) + m.mid + [COLON] + RenderElement(m.value)
  }

  ghost function RenderMembers(ms: Members): seq<Ch> {
    match ms
    case OneMember(m) => RenderMember(m)
    case MoreMembers(init, m) => RenderMembers(init) + [COMMA] + RenderMember(m)
  }

  /** The texts the filter is for: renderings of objects and arrays nested at most 127 deep. */
  ghost predicate IsText(s: seq<Ch>) {
    exists v: Json :: TextOf(v, s)
  }

  ghost predicate TextOf(v: Json, s: seq<Ch>) {
    (v.Arr? || v.Obj?) && Valid(v) && Depth(v) <= 127 && Render(v) == s
  }
}
