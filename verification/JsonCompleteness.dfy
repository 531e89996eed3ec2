/** Every rendering of a well-formed tree drives the automaton through one value. */
module JsonCompleteness {
  import opened Prelude
  import opened JsonAutomaton
  import G = JsonGrammar

  /** The states in which a value is complete: OK, and those of a number that may stop here. */
  predicate Complete(q: State) { q == OK || q == ZE || q == IN || q == FR || q == E3 }

  predicate AwaitsValue(q: State) { q == VA || q == AR }

  /** The top of the stack is an open array or an object waiting for a member's value. */
  ghost predicate InContainer(stack: seq<Mode>) { Inv(Config(VA, stack)) }

  lemma ContainerInv(stack: seq<Mode>, q: State)
    requires InContainer(stack)
    requires q != AR && q != GO && q != OB && q != KE && q != CO
    ensures Inv(Config(q, stack))
  {
  }

  /** One character that only changes the state. */
  function Move(q: State, c: Ch): Option<State> {
    match ClassOf(c)
    case None => None
    case Some(k) => (match Transition(q, k) case To(r) => Some(r) case _ => None)
  }

  lemma GoesMove(stack: seq<Mode>, q: State, c: Ch, r: State)
    requires Inv(Config(q, stack)) && Move(q, c) == Some(r)
    ensures Goes(Config(q, stack), [c], Config(r, stack))
  {
    GoesStep(Config(q, stack), c, Config(r, stack));
  }

  /** A move out of a state that is inside some container. */
  lemma GoesInside(stack: seq<Mode>, q: State, c: Ch, r: State)
    requires InContainer(stack) && q != AR && q != GO && q != OB && q != KE && q != CO && Move(q, c) == Some(r)
    ensures Goes(Config(q, stack), [c], Config(r, stack))
  {
    ContainerInv(stack, q);
    GoesMove(stack, q, c, r);
  }

  // ---- blanks

  lemma BlankMove(q: State, c: Ch)
    requires G.IsBlank(c)
    requires q == GO || q == OK || q == OB || q == KE || q == CO || q == VA || q == AR
    ensures Move(q, c) == Some(q)
  {
  }

  lemma {:induction false} GoesBlanks(g: Config, w: seq<Ch>)
    requires Inv(g) && G.Blanks(w)
    requires g.state == GO || g.state == OK || g.state == OB || g.state == KE || g.state == CO || AwaitsValue(g.state)
    ensures Goes(g, w, g)
    decreases |w|
  {
    if w == [] {
      GoesNowhere(g);
    } else {
      BlankMove(g.state, w[0]);
      GoesMove(g.stack, g.state, w[0], g.state);
      GoesBlanks(g, w[1..]);
      GoesThen(g, [w[0]], g, w[1..], g);
      assert [w[0]] + w[1..] == w;
    }
  }

  lemma EndMove(q: State, c: Ch)
    requires G.IsBlank(c) && Complete(q)
    ensures Move(q, c) == Some(OK)
  {
  }

  /** Blanks after a complete value leave it complete; one of them already ends a number. */
  lemma GoesEnd(stack: seq<Mode>, q: State, c: Ch)
    requires InContainer(stack) && G.IsBlank(c) && Complete(q)
    ensures Goes(Config(q, stack), [c], Config(OK, stack))
  {
    EndMove(q, c);
    GoesInside(stack, q, c, OK);
  }

  lemma GoesBlanksOk(stack: seq<Mode>, w: seq<Ch>)
    requires InContainer(stack) && G.Blanks(w)
    ensures Goes(Config(OK, stack), w, Config(OK, stack))
  {
    ContainerInv(stack, OK);
    GoesBlanks(Config(OK, stack), w);
  }

  lemma GoesBlanksAfter(stack: seq<Mode>, q: State, w: seq<Ch>) returns (r: State)
    requires InContainer(stack) && G.Blanks(w) && Complete(q)
    ensures Complete(r) && Goes(Config(q, stack), w, Config(r, stack))
  {
    if w == [] {
      r := q;
      ContainerInv(stack, q);
      GoesNowhere(Config(q, stack));
    } else {
      r := OK;
      GoesEnd(stack, q, w[0]);
      GoesBlanksOk(stack, w[1..]);
      GoesThen(Config(q, stack), [w[0]], Config(OK, stack), w[1..], Config(OK, stack));
      assert [w[0]] + w[1..] == w;
    }
  }

  // ---- strings

  lemma HexMove(q: State, c: Ch)
    requires G.IsHex(c) && (q == U1 || q == U2 || q == U3 || q == U4)
    ensures Move(q, c) == Some(match q case U1 => U2 case U2 => U3 case U3 => U4 case _ => ST)
  {
  }

  /** The four digits of an escape, from any of the states U1 .. U4. */
  lemma {:induction false} GoesHex(stack: seq<Mode>, q: State, h: seq<Ch>)
    requires Inv(Config(q, stack)) && (q == U1 || q == U2 || q == U3 || q == U4)
    requires |h| == (match q case U1 => 4 case U2 => 3 case U3 => 2 case _ => 1)
    requires forall i :: 0 <= i < |h| ==> G.IsHex(h[i])
    ensures Goes(Config(q, stack), h, Config(ST, stack))
    decreases |h|
  {
    var r := match q case U1 => U2 case U2 => U3 case U3 => U4 case _ => ST;
    HexMove(q, h[0]);
    GoesMove(stack, q, h[0], r);
    if q == U4 {
      assert h == [h[0]];
    } else {
      assert h == [h[0]] + h[1..];
      GoesEnds(Config(q, stack), [h[0]], Config(r, stack));
      GoesHex(stack, r, h[1..]);
      GoesThen(Config(q, stack), [h[0]], Config(r, stack), h[1..], Config(ST, stack));
    }
  }

  lemma BackslashMove()
    ensures Move(ST, G.BACKSLASH) == Some(ES)
  {
  }

  lemma EscapedMove(c: Ch)
    requires G.IsEscapable(c)
    ensures Move(ES, c) == Some(ST)
  {
  }

  lemma UnicodeMove()
    ensures Move(ES, 117 /* u */) == Some(U1)
  {
  }

  lemma PlainMove(c: Ch)
    requires G.IsPlain(c)
    ensures Move(ST, c) == Some(ST)
  {
  }

  lemma GoesUnit(stack: seq<Mode>, u: G.Unit)
    requires Inv(Config(ST, stack)) && G.ValidUnit(u)
    ensures Goes(Config(ST, stack), G.RenderUnit(u), Config(ST, stack))
  {
    var st, es, u1 := Config(ST, stack), Config(ES, stack), Config(U1, stack);
    if u.Plain? {
      PlainMove(u.c);
      GoesMove(stack, ST, u.c, ST);
    } else {
      BackslashMove();
      GoesMove(stack, ST, G.BACKSLASH, ES);
      GoesEnds(st, [G.BACKSLASH], es);
      match u {
        case Escaped(c) =>
          EscapedMove(c);
          GoesMove(stack, ES, c, ST);
          GoesThen(st, [G.BACKSLASH], es, [c], st);
          assert [G.BACKSLASH] + [c] == [G.BACKSLASH, c];
        case Unicode(h) =>
          UnicodeMove();
          GoesMove(stack, ES, 117 /* u */, U1);
          GoesEnds(es, [117 /* u */], u1);
          GoesHex(stack, U1, h);
          GoesThen(st, [G.BACKSLASH], es, [117 /* u */], u1);
          GoesThen(st, [G.BACKSLASH] + [117 /* u */], u1, h, st);
          assert [G.BACKSLASH] + [117 /* u */] == [G.BACKSLASH, 117 /* u */];
      }
    }
  }

  lemma {:induction false} GoesUnits(stack: seq<Mode>, us: seq<G.Unit>)
    requires Inv(Config(ST, stack)) && G.ValidUnits(us)
    ensures Goes(Config(ST, stack), G.RenderUnits(us), Config(ST, stack))
    decreases |us|
  {
    var st := Config(ST, stack);
    if us == [] {
      GoesNowhere(st);
    } else {
      GoesUnits(stack, us[..|us| - 1]);
      GoesUnit(stack, us[|us| - 1]);
      GoesThen(st, G.RenderUnits(us[..|us| - 1]), st, G.RenderUnit(us[|us| - 1]), st);
    }
  }

  lemma OpenQuoteMove(q: State)
    requires q == OB || q == KE || AwaitsValue(q)
    ensures Move(q, G.QUOTE) == Some(ST)
  {
  }

  lemma CloseQuote(stack: seq<Mode>)
    requires Inv(Config(ST, stack))
    ensures Goes(Config(ST, stack), [G.QUOTE], Config(if Top(stack) == M_KEY then CO else OK, stack))
  {
    GoesStep(Config(ST, stack), G.QUOTE, Config(if Top(stack) == M_KEY then CO else OK, stack));
  }

  /** A quoted string, opened from any state that admits one, closed according to the mode on top. */
  lemma GoesString(g: Config, us: seq<G.Unit>)
    requires Inv(g) && (g.state == OB || g.state == KE || AwaitsValue(g.state)) && G.ValidUnits(us)
    ensures Goes(g, G.RenderString(us), Config(if Top(g.stack) == M_KEY then CO else OK, g.stack))
  {
    var st := Config(ST, g.stack);
    OpenQuoteMove(g.state);
    GoesMove(g.stack, g.state, G.QUOTE, ST);
    GoesEnds(g, [G.QUOTE], st);
    GoesUnits(g.stack, us);
    CloseQuote(g.stack);
    GoesThen(g, [G.QUOTE], st, G.RenderUnits(us), st);
    GoesThen(g, [G.QUOTE] + G.RenderUnits(us), st, [G.QUOTE],
             Config(if Top(g.stack) == M_KEY then CO else OK, g.stack));
  }

  // ---- numbers

  lemma DigitMove(q: State, c: Ch)
    requires (q == IN || q == FR || q == E3) && G.IsDigit(c)
    ensures Move(q, c) == Some(q)
  {
  }

  lemma GoesDigit(stack: seq<Mode>, q: State, c: Ch)
    requires InContainer(stack) && G.IsDigit(c) && (q == IN || q == FR || q == E3)
    ensures Goes(Config(q, stack), [c], Config(q, stack))
  {
    DigitMove(q, c);
    GoesInside(stack, q, c, q);
  }

  lemma {:induction false} GoesDigits(stack: seq<Mode>, q: State, ds: seq<Ch>)
    requires InContainer(stack) && G.Digits(ds) && (q == IN || q == FR || q == E3)
    ensures Goes(Config(q, stack), ds, Config(q, stack))
    decreases |ds|
  {
    var g := Config(q, stack);
    if ds == [] {
      ContainerInv(stack, q);
      GoesNowhere(g);
    } else {
      GoesDigit(stack, q, ds[0]);
      GoesDigits(stack, q, ds[1..]);
      GoesThen(g, [ds[0]], g, ds[1..], g);
      assert [ds[0]] + ds[1..] == ds;
    }
  }

  lemma FirstDigitMove(q: State, c: Ch)
    requires (q == MI || AwaitsValue(q)) && G.IsDigit(c)
    ensures Move(q, c) == Some(if c == G.ZERO then ZE else IN)
  {
  }

  lemma MinusMove(q: State)
    requires AwaitsValue(q)
    ensures Move(q, G.MINUS) == Some(MI)
  {
  }

  function WholeState(w: seq<Ch>): State { if w == [G.ZERO] then ZE else IN }

  lemma GoesWhole(stack: seq<Mode>, q: State, w: seq<Ch>)
    requires InContainer(stack) && Inv(Config(q, stack)) && (q == MI || AwaitsValue(q)) && G.ValidWhole(w)
    ensures Goes(Config(q, stack), w, Config(WholeState(w), stack))
  {
    var r := WholeState(w);
    FirstDigitMove(q, w[0]);
    GoesMove(stack, q, w[0], r);
    if w != [G.ZERO] {
      GoesDigits(stack, IN, w[1..]);
      GoesThen(Config(q, stack), [w[0]], Config(r, stack), w[1..], Config(r, stack));
      assert [w[0]] + w[1..] == w;
    }
  }

  lemma GoesSigned(g: Config, minus: bool, w: seq<Ch>)
    requires InContainer(g.stack) && Inv(g) && AwaitsValue(g.state) && G.ValidWhole(w)
    ensures Goes(g, (if minus then [G.MINUS] else []) + w, Config(WholeState(w), g.stack))
  {
    if minus {
      MinusMove(g.state);
      GoesMove(g.stack, g.state, G.MINUS, MI);
      GoesEnds(g, [G.MINUS], Config(MI, g.stack));
      GoesWhole(g.stack, MI, w);
      GoesThen(g, [G.MINUS], Config(MI, g.stack), w, Config(WholeState(w), g.stack));
    } else {
      GoesWhole(g.stack, g.state, w);
      assert [] + w == w;
    }
  }

  lemma PointMove(q: State)
    requires q == ZE || q == IN
    ensures Move(q, G.POINT) == Some(FR)
  {
  }

  lemma GoesFraction(stack: seq<Mode>, q: State, ds: seq<Ch>)
    requires InContainer(stack) && (q == ZE || q == IN) && G.Digits(ds)
    ensures Goes(Config(q, stack), [G.POINT] + ds, Config(FR, stack))
  {
    PointMove(q);
    GoesInside(stack, q, G.POINT, FR);
    GoesDigits(stack, FR, ds);
    GoesThen(Config(q, stack), [G.POINT], Config(FR, stack), ds, Config(FR, stack));
  }

  lemma ExponentMove(q: State, e: Ch)
    requires (q == IN || q == FR) && (e == 101 /* e */ || e == 69 /* E */)
    ensures Move(q, e) == Some(E1)
  {
  }

  lemma SignMove(c: Ch)
    requires c == G.PLUS || c == G.MINUS
    ensures Move(E1, c) == Some(E2)
  {
  }

  lemma ExponentDigitMove(q: State, c: Ch)
    requires (q == E1 || q == E2) && G.IsDigit(c)
    ensures Move(q, c) == Some(E3)
  {
  }

  lemma GoesExponentDigit(stack: seq<Mode>, q: State, c: Ch)
    requires InContainer(stack) && G.IsDigit(c) && (q == E1 || q == E2)
    ensures Goes(Config(q, stack), [c], Config(E3, stack))
  {
    ExponentDigitMove(q, c);
    GoesInside(stack, q, c, E3);
  }

  lemma GoesExponentDigits(stack: seq<Mode>, q: State, ds: seq<Ch>)
    requires InContainer(stack) && (q == E1 || q == E2) && ds != [] && G.Digits(ds)
    ensures Goes(Config(q, stack), ds, Config(E3, stack))
  {
    GoesExponentDigit(stack, q, ds[0]);
    GoesDigits(stack, E3, ds[1..]);
    GoesThen(Config(q, stack), [ds[0]], Config(E3, stack), ds[1..], Config(E3, stack));
    assert [ds[0]] + ds[1..] == ds;
  }

  lemma GoesExponent(stack: seq<Mode>, q: State, x: G.Exponent)
    requires InContainer(stack) && (q == IN || q == FR) && x.Exponent? && G.ValidExponent(x)
    ensures Goes(Config(q, stack), G.RenderExponent(x), Config(E3, stack))
  {
    var g, e1, e3 := Config(q, stack), Config(E1, stack), Config(E3, stack);
    ExponentMove(q, x.e);
    GoesInside(stack, q, x.e, E1);
    if x.sign == [] {
      GoesExponentDigits(stack, E1, x.digits);
      GoesThen(g, [x.e], e1, x.digits, e3);
      assert [x.e] + x.sign + x.digits == [x.e] + x.digits;
    } else {
      var c := x.sign[0];
      SignMove(c);
      GoesInside(stack, E1, c, E2);
      GoesExponentDigits(stack, E2, x.digits);
      GoesThen(g, [x.e], e1, [c], Config(E2, stack));
      GoesThen(g, [x.e] + [c], Config(E2, stack), x.digits, e3);
      assert x.sign == [c];
    }
  }

  lemma GoesNumber(g: Config, n: G.Number) returns (q: State)
    requires InContainer(g.stack) && Inv(g) && AwaitsValue(g.state) && G.ValidNumber(n)
    ensures Complete(q) && Goes(g, G.RenderNumber(n), Config(q, g.stack))
  {
    var whole := (if n.minus then [G.MINUS] else []) + n.whole;
    var point := if n.point then [G.POINT] else [];
    q := WholeState(n.whole);
    GoesSigned(g, n.minus, n.whole);
    if n.point {
      GoesFraction(g.stack, q, n.fraction);
      GoesThen(g, whole, Config(q, g.stack), [G.POINT] + n.fraction, Config(FR, g.stack));
      q := FR;
    }
    var text := whole + point + n.fraction;
    assert text == whole + (point + n.fraction);
    assert !n.point ==> text == whole;
    if n.exponent.Exponent? {
      GoesExponent(g.stack, q, n.exponent);
      GoesThen(g, text, Config(q, g.stack), G.RenderExponent(n.exponent), Config(E3, g.stack));
      q := E3;
    } else {
      assert text + [] == text;
    }
  }

  // ---- literals

  /** Two letters, given the states before, between and after them. */
  lemma Goes2(stack: seq<Mode>, p: State, c: Ch, q: State, d: Ch, r: State)
    requires InContainer(stack) && Inv(Config(p, stack))
    requires q != AR && q != GO && q != OB && q != KE && q != CO
    requires Move(p, c) == Some(q) && Move(q, d) == Some(r)
    ensures Goes(Config(p, stack), [c, d], Config(r, stack))
  {
    GoesMove(stack, p, c, q);
    GoesInside(stack, q, d, r);
    GoesThen(Config(p, stack), [c], Config(q, stack), [d], Config(r, stack));
    assert [c] + [d] == [c, d];
  }

  lemma GoesTrue(g: Config)
    requires InContainer(g.stack) && Inv(g) && AwaitsValue(g.state)
    ensures Goes(g, G.RenderLiteral(G.True), Config(OK, g.stack))
  {
    GoesTr(g);
    GoesUe(g.stack);
    GoesThen(g, [116, 114], Config(T2, g.stack), [117, 101], Config(OK, g.stack));
    assert [116, 114] + [117, 101] == G.RenderLiteral(G.True);
  }

  lemma GoesTr(g: Config)
    requires InContainer(g.stack) && Inv(g) && AwaitsValue(g.state)
    ensures Goes(g, [116 /* t */, 114 /* r */], Config(T2, g.stack))
  {
    Goes2(g.stack, g.state, 116, T1, 114, T2);
  }

  lemma GoesUe(stack: seq<Mode>)
    requires InContainer(stack)
    ensures Goes(Config(T2, stack), [117 /* u */, 101 /* e */], Config(OK, stack))
  {
    ContainerInv(stack, T2);
    Goes2(stack, T2, 117, T3, 101, OK);
  }

  lemma GoesFa(g: Config)
    requires InContainer(g.stack) && Inv(g) && AwaitsValue(g.state)
    ensures Goes(g, [102 /* f */, 97 /* a */], Config(F2, g.stack))
  {
    Goes2(g.stack, g.state, 102, F1, 97, F2);
  }

  lemma GoesLs(stack: seq<Mode>)
    requires InContainer(stack)
    ensures Goes(Config(F2, stack), [108 /* l */, 115 /* s */], Config(F4, stack))
  {
    ContainerInv(stack, F2);
    Goes2(stack, F2, 108, F3, 115, F4);
  }

  lemma GoesFalse(g: Config)
    requires InContainer(g.stack) && Inv(g) && AwaitsValue(g.state)
    ensures Goes(g, G.RenderLiteral(G.False), Config(OK, g.stack))
  {
    GoesFa(g);
    GoesLs(g.stack);
    GoesInside(g.stack, F4, 101 /* e */, OK);
    GoesThen(g, [102, 97], Config(F2, g.stack), [108, 115], Config(F4, g.stack));
    GoesThen(g, [102, 97] + [108, 115], Config(F4, g.stack), [101], Config(OK, g.stack));
    assert [102, 97] + [108, 115] + [101] == G.RenderLiteral(G.False);
  }

  lemma GoesNu(g: Config)
    requires InContainer(g.stack) && Inv(g) && AwaitsValue(g.state)
    ensures Goes(g, [110 /* n */, 117 /* u */], Config(N2, g.stack))
  {
    Goes2(g.stack, g.state, 110, N1, 117, N2);
  }

  lemma GoesLl(stack: seq<Mode>)
    requires InContainer(stack)
    ensures Goes(Config(N2, stack), [108 /* l */, 108 /* l */], Config(OK, stack))
  {
    ContainerInv(stack, N2);
    Goes2(stack, N2, 108, N3, 108, OK);
  }

  lemma GoesNull(g: Config)
    requires InContainer(g.stack) && Inv(g) && AwaitsValue(g.state)
    ensures Goes(g, G.RenderLiteral(G.Null), Config(OK, g.stack))
  {
    GoesNu(g);
    GoesLl(g.stack);
    GoesThen(g, [110, 117], Config(N2, g.stack), [108, 108], Config(OK, g.stack));
    assert [110, 117] + [108, 108] == G.RenderLiteral(G.Null);
  }

  // ---- values

  lemma {:induction false} GoesValue(g: Config, v: G.Json) returns (q: State)
    requires InContainer(g.stack) && Inv(g) && AwaitsValue(g.state) && G.Valid(v)
    requires |g.stack| + G.Depth(v) <= MAX_DEPTH
    ensures Complete(q) && Goes(g, G.Render(v), Config(q, g.stack))
    decreases v
  {
    q := OK;
    match v {
      case Str(us) => GoesString(g, us);
      case Num(n) => q := GoesNumber(g, n);
      case Lit(l) =>
        match l {
          case True => GoesTrue(g);
          case False => GoesFalse(g);
          case Null => GoesNull(g);
        }
      case Arr(b) => GoesArray(g, b);
      case Obj(b) => GoesObject(g, b);
    }
  }

  predicate OpensContainer(q: State) { q == GO || AwaitsValue(q) }

  lemma OpenArray(g: Config)
    requires Inv(g) && OpensContainer(g.state) && |g.stack| < MAX_DEPTH
    ensures Goes(g, [G.LBRACKET], Config(AR, g.stack + [M_ARRAY]))
  {
    GoesStep(g, G.LBRACKET, Config(AR, g.stack + [M_ARRAY]));
  }

  lemma CloseArray(base: seq<Mode>, q: State)
    requires Inv(Config(q, base + [M_ARRAY])) && (Complete(q) || q == AR)
    ensures Goes(Config(q, base + [M_ARRAY]), [G.RBRACKET], Config(OK, base))
  {
    assert (base + [M_ARRAY])[..|base|] == base;
    GoesStep(Config(q, base + [M_ARRAY]), G.RBRACKET, Config(OK, base));
  }

  lemma ArrayIsContainer(stack: seq<Mode>)
    requires Inv(Config(AR, stack))
    ensures InContainer(stack)
  {
  }

  lemma {:induction false} GoesArray(g: Config, b: G.ArrayBody)
    requires Inv(g) && OpensContainer(g.state) && G.Valid(G.Arr(b))
    requires |g.stack| + G.Depth(G.Arr(b)) <= MAX_DEPTH
    ensures Goes(g, G.Render(G.Arr(b)), Config(OK, g.stack))
    decreases b
  {
    var ar := Config(AR, g.stack + [M_ARRAY]);
    OpenArray(g);
    GoesEnds(g, [G.LBRACKET], ar);
    var q: State := AR;
    var body: seq<Ch>;
    match b {
      case NoElement(w) => GoesBlanks(ar, w); body := w;
      case SomeElements(es) => q := GoesElements(ar, es); body := G.RenderElements(es);
    }
    GoesThen(g, [G.LBRACKET], ar, body, Config(q, ar.stack));
    GoesEnds(ar, body, Config(q, ar.stack));
    CloseArray(g.stack, q);
    GoesThen(g, [G.LBRACKET] + body, Config(q, ar.stack), [G.RBRACKET], Config(OK, g.stack));
  }

  lemma {:induction false} GoesElement(g: Config, e: G.Element) returns (q: State)
    requires InContainer(g.stack) && Inv(g) && AwaitsValue(g.state) && G.ValidElement(e)
    requires |g.stack| + G.Depth(e.v) <= MAX_DEPTH
    ensures Complete(q) && Goes(g, G.RenderElement(e), Config(q, g.stack))
    decreases e
  {
    GoesBlanks(g, e.pre);
    var p := GoesValue(g, e.v);
    GoesThen(g, e.pre, g, G.Render(e.v), Config(p, g.stack));
    q := GoesBlanksAfter(g.stack, p, e.post);
    GoesThen(g, e.pre + G.Render(e.v), Config(p, g.stack), e.post, Config(q, g.stack));
  }

  lemma ArrayComma(stack: seq<Mode>, q: State)
    requires InContainer(stack) && Top(stack) == M_ARRAY && Complete(q)
    ensures Goes(Config(q, stack), [G.COMMA], Config(VA, stack))
  {
    ContainerInv(stack, q);
    GoesStep(Config(q, stack), G.COMMA, Config(VA, stack));
  }

  lemma {:induction false} GoesElements(g: Config, es: G.Elements) returns (q: State)
    requires Inv(g) && g.state == AR && G.ValidElements(es)
    requires |g.stack| + G.DepthElements(es) <= MAX_DEPTH
    ensures Complete(q) && Goes(g, G.RenderElements(es), Config(q, g.stack))
    decreases es
  {
    ArrayIsContainer(g.stack);
    match es {
      case OneElement(e) => q := GoesElement(g, e);
      case MoreElements(init, e) =>
        var p := GoesElements(g, init);
        var va := Config(VA, g.stack);
        ArrayComma(g.stack, p);
        GoesThen(g, G.RenderElements(init), Config(p, g.stack), [G.COMMA], va);
        q := GoesElement(va, e);
        GoesThen(g, G.RenderElements(init) + [G.COMMA], va, G.RenderElement(e), Config(q, g.stack));
    }
  }

  lemma OpenObject(g: Config)
    requires Inv(g) && OpensContainer(g.state) && |g.stack| < MAX_DEPTH
    ensures Goes(g, [G.LBRACE], Config(OB, g.stack + [M_KEY]))
  {
    GoesStep(g, G.LBRACE, Config(OB, g.stack + [M_KEY]));
  }

  lemma CloseEmptyObject(base: seq<Mode>)
    requires Inv(Config(OB, base + [M_KEY]))
    ensures Goes(Config(OB, base + [M_KEY]), [G.RBRACE], Config(OK, base))
  {
    assert (base + [M_KEY])[..|base|] == base;
    GoesStep(Config(OB, base + [M_KEY]), G.RBRACE, Config(OK, base));
  }

  lemma CloseObject(base: seq<Mode>, q: State)
    requires Inv(Config(q, base + [M_OBJECT])) && Complete(q)
    ensures Goes(Config(q, base + [M_OBJECT]), [G.RBRACE], Config(OK, base))
  {
    assert (base + [M_OBJECT])[..|base|] == base;
    GoesStep(Config(q, base + [M_OBJECT]), G.RBRACE, Config(OK, base));
  }

  lemma {:induction false} GoesObject(g: Config, b: G.ObjectBody)
    requires Inv(g) && OpensContainer(g.state) && G.Valid(G.Obj(b))
    requires |g.stack| + G.Depth(G.Obj(b)) <= MAX_DEPTH
    ensures Goes(g, G.Render(G.Obj(b)), Config(OK, g.stack))
    decreases b
  {
    var ob, ok := Config(OB, g.stack + [M_KEY]), Config(OK, g.stack);
    OpenObject(g);
    GoesEnds(g, [G.LBRACE], ob);
    match b {
      case NoMember(w) =>
        GoesBlanks(ob, w);
        GoesThen(g, [G.LBRACE], ob, w, ob);
        CloseEmptyObject(g.stack);
        GoesThen(g, [G.LBRACE] + w, ob, [G.RBRACE], ok);
      case SomeMembers(ms) =>
        var q := GoesMembers(g.stack, ms);
        var body, h := G.RenderMembers(ms), Config(q, g.stack + [M_OBJECT]);
        GoesThen(g, [G.LBRACE], ob, body, h);
        GoesEnds(ob, body, h);
        CloseObject(g.stack, q);
        GoesThen(g, [G.LBRACE] + body, h, [G.RBRACE], ok);
    }
  }

  lemma FlipColon(base: seq<Mode>)
    requires Inv(Config(CO, base + [M_KEY]))
    ensures Goes(Config(CO, base + [M_KEY]), [G.COLON], Config(VA, base + [M_OBJECT]))
  {
    assert (base + [M_KEY])[..|base|] == base;
    GoesStep(Config(CO, base + [M_KEY]), G.COLON, Config(VA, base + [M_OBJECT]));
  }

  lemma FlipComma(base: seq<Mode>, q: State)
    requires Inv(Config(q, base + [M_OBJECT])) && Complete(q)
    ensures Goes(Config(q, base + [M_OBJECT]), [G.COMMA], Config(KE, base + [M_KEY]))
  {
    assert (base + [M_OBJECT])[..|base|] == base;
    GoesStep(Config(q, base + [M_OBJECT]), G.COMMA, Config(KE, base + [M_KEY]));
  }

  /** A member's key with the blanks around it, and the colon. */
  lemma GoesKey(base: seq<Mode>, k: State, m: G.Member)
    requires (k == OB || k == KE) && Inv(Config(k, base + [M_KEY])) && G.ValidMember(m)
    ensures Goes(Config(k, base + [M_KEY]), m.pre + G.RenderString(m.key) + m.mid + [G.COLON],
                 Config(VA, base + [M_OBJECT]))
  {
    var g, co := Config(k, base + [M_KEY]), Config(CO, base + [M_KEY]);
    GoesBlanks(g, m.pre);
    GoesString(g, m.key);
    GoesEnds(g, G.RenderString(m.key), co);
    GoesThen(g, m.pre, g, G.RenderString(m.key), co);
    GoesBlanks(co, m.mid);
    GoesThen(g, m.pre + G.RenderString(m.key), co, m.mid, co);
    FlipColon(base);
    GoesThen(g, m.pre + G.RenderString(m.key) + m.mid, co, [G.COLON], Config(VA, base + [M_OBJECT]));
  }

  lemma {:induction false} GoesMember(base: seq<Mode>, k: State, m: G.Member) returns (q: State)
    requires (k == OB || k == KE) && Inv(Config(k, base + [M_KEY])) && G.ValidMember(m)
    requires |base| + 1 + G.Depth(m.value.v) <= MAX_DEPTH
    ensures Complete(q)
    ensures Goes(Config(k, base + [M_KEY]), G.RenderMember(m), Config(q, base + [M_OBJECT]))
    decreases m
  {
    var g, va := Config(k, base + [M_KEY]), Config(VA, base + [M_OBJECT]);
    var head := m.pre + G.RenderString(m.key) + m.mid + [G.COLON];
    GoesKey(base, k, m);
    GoesEnds(g, head, va);
    q := GoesElement(va, m.value);
    GoesThen(g, head, va, G.RenderElement(m.value), Config(q, base + [M_OBJECT]));
  }

  lemma {:induction false} GoesMembers(base: seq<Mode>, ms: G.Members) returns (q: State)
    requires Inv(Config(OB, base + [M_KEY])) && G.ValidMembers(ms)
    requires |base| + 1 + G.DepthMembers(ms) <= MAX_DEPTH
    ensures Complete(q)
    ensures Goes(Config(OB, base + [M_KEY]), G.RenderMembers(ms), Config(q, base + [M_OBJECT]))
    decreases ms
  {
    match ms {
      case OneMember(m) => q := GoesMember(base, OB, m);
      case MoreMembers(init, m) =>
        var p := GoesMembers(base, init);
        var g, h, ke := Config(OB, base + [M_KEY]), Config(p, base + [M_OBJECT]), Config(KE, base + [M_KEY]);
        GoesEnds(g, G.RenderMembers(init), h);
        FlipComma(base, p);
        GoesEnds(h, [G.COMMA], ke);
        GoesThen(g, G.RenderMembers(init), h, [G.COMMA], ke);
        q := GoesMember(base, KE, m);
        GoesThen(g, G.RenderMembers(init) + [G.COMMA], ke, G.RenderMember(m), Config(q, base + [M_OBJECT]));
    }
  }

  /** A text of the grammar takes the fresh automaton to the end of one value, with the stack unwound. */
  lemma TextIsAccepted(s: seq<Ch>)
    requires G.IsText(s)
    ensures Goes(START, s, Config(OK, [M_DONE])) && Run(START, s) == Some(Config(OK, [M_DONE]))
    ensures s != [] && (s[|s| - 1] == G.RBRACKET || s[|s| - 1] == G.RBRACE)
    ensures s[0] == G.LBRACKET || s[0] == G.LBRACE
  {
    var v: G.Json :| G.TextOf(v, s);
    match v {
      case Arr(b) => GoesArray(START, b);
      case Obj(b) => GoesObject(START, b);
    }
    GoesRun(START, s, Config(OK, [M_DONE]));
  }
}
