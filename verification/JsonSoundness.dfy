/** Whatever the automaton accepts, it accepts as an unfinished text of the grammar that grows by one character. */
module JsonSoundness {
  import opened Prelude
  import opened JsonAutomaton
  import opened JsonContext
  import G = JsonGrammar

  // ---- what a step says about the character it consumed

  lemma SeenInString(stack: seq<Mode>, c: Ch, h: Config)
    requires stack != [] && Top(stack) != M_DONE && Process(Config(ST, stack), c) == Some(h)
    ensures || (c == G.QUOTE && h == Config(if Top(stack) == M_KEY then CO else OK, stack))
            || (c == G.BACKSLASH && h == Config(ES, stack))
            || (G.IsPlain(c) && h == Config(ST, stack))
  {
  }

  lemma SeenInEscape(stack: seq<Mode>, c: Ch, h: Config)
    requires stack != [] && Process(Config(ES, stack), c) == Some(h)
    ensures (G.IsEscapable(c) && h == Config(ST, stack)) || (c == 117 /* u */ && h == Config(U1, stack))
  {
  }

  lemma SeenInUnicode(stack: seq<Mode>, q: State, c: Ch, h: Config)
    requires stack != [] && (q == U1 || q == U2 || q == U3 || q == U4)
    requires Process(Config(q, stack), c) == Some(h)
    ensures G.IsHex(c) && h == Config(match q case U1 => U2 case U2 => U3 case U3 => U4 case _ => ST, stack)
  {
  }

  /** What may follow a complete value, and what it does to the stack. */
  ghost predicate Ends(stack: seq<Mode>, c: Ch, h: Config)
    requires stack != []
  {
    var base := stack[..|stack| - 1];
    || (G.IsBlank(c) && h == Config(OK, stack))
    || (c == G.RBRACKET && Top(stack) == M_ARRAY && h == Config(OK, base))
    || (c == G.RBRACE && Top(stack) == M_OBJECT && h == Config(OK, base))
    || (c == G.COMMA && Top(stack) == M_ARRAY && h == Config(VA, stack))
    || (c == G.COMMA && Top(stack) == M_OBJECT && h == Config(KE, base + [M_KEY]))
  }

  lemma SeenAtEnd(stack: seq<Mode>, c: Ch, h: Config)
    requires stack != [] && ClassOf(c).Some? && Act(Config(OK, stack), AfterValue(ClassOf(c).value)) == Some(h)
    ensures Ends(stack, c, h)
  {
  }

  lemma SeenAfterValue(stack: seq<Mode>, c: Ch, h: Config)
    requires stack != [] && Process(Config(OK, stack), c) == Some(h)
    ensures Ends(stack, c, h)
  {
    SeenAtEnd(stack, c, h);
  }

  ghost predicate Starts(stack: seq<Mode>, c: Ch, h: Config) {
    || (c == G.LBRACKET && |stack| < MAX_DEPTH && h == Config(AR, stack + [M_ARRAY]))
    || (c == G.LBRACE && |stack| < MAX_DEPTH && h == Config(OB, stack + [M_KEY]))
    || (c == G.QUOTE && h == Config(ST, stack))
    || StartsScalar(stack, c, h)
  }

  lemma SeenAtStart(stack: seq<Mode>, c: Ch, h: Config)
    requires stack != [] && ClassOf(c).Some? && Act(Config(VA, stack), StartValue(ClassOf(c).value)) == Some(h)
    ensures Starts(stack, c, h)
  {
  }

  lemma SeenAwaiting(stack: seq<Mode>, q: State, c: Ch, h: Config)
    requires stack != [] && (q == VA || q == AR) && Process(Config(q, stack), c) == Some(h)
    ensures || (G.IsBlank(c) && h == Config(q, stack))
            || (c == G.RBRACKET && q == AR && Top(stack) == M_ARRAY && h == Config(OK, stack[..|stack| - 1]))
            || Starts(stack, c, h)
  {
    if Transition(q, ClassOf(c).value) == StartValue(ClassOf(c).value) { SeenAtStart(stack, c, h); }
  }

  ghost predicate StartsScalar(stack: seq<Mode>, c: Ch, h: Config) {
    || (c == G.MINUS && h == Config(MI, stack))
    || (c == G.ZERO && h == Config(ZE, stack))
    || (c != G.ZERO && G.IsDigit(c) && h == Config(IN, stack))
    || (c == 116 /* t */ && h == Config(T1, stack))
    || (c == 102 /* f */ && h == Config(F1, stack))
    || (c == 110 /* n */ && h == Config(N1, stack))
  }

  lemma SeenAwaitingKey(stack: seq<Mode>, q: State, c: Ch, h: Config)
    requires stack != [] && (q == OB || q == KE) && Process(Config(q, stack), c) == Some(h)
    ensures || (G.IsBlank(c) && h == Config(q, stack))
            || (c == G.QUOTE && h == Config(ST, stack))
            || (c == G.RBRACE && q == OB && Top(stack) == M_KEY && h == Config(OK, stack[..|stack| - 1]))
  {
  }

  lemma SeenAwaitingColon(stack: seq<Mode>, c: Ch, h: Config)
    requires stack != [] && Process(Config(CO, stack), c) == Some(h)
    ensures || (G.IsBlank(c) && h == Config(CO, stack))
            || (c == G.COLON && Top(stack) == M_KEY && h == Config(VA, stack[..|stack| - 1] + [M_OBJECT]))
  {
  }

  // ---- strings

  lemma UnitsSnoc(us: seq<G.Unit>, u: G.Unit)
    ensures G.RenderUnits(us + [u]) == G.RenderUnits(us) + G.RenderUnit(u)
  {
    assert (us + [u])[..|us + [u]| - 1] == us;
  }

  /** A string token before and after one character. */
  ghost predicate UnitsGrow(us: seq<G.Unit>, part: seq<Ch>, us': seq<G.Unit>, part': seq<Ch>, c: Ch) {
    && G.ValidUnits(us') && ValidPart(part')
    && [G.QUOTE] + G.RenderUnits(us') + part' == [G.QUOTE] + G.RenderUnits(us) + part + [c]
  }

  /** One more character of an escape. */
  lemma PartGrows(us: seq<G.Unit>, part: seq<Ch>, c: Ch)
    requires G.ValidUnits(us) && ValidPart(part) && ValidPart(part + [c])
    ensures UnitsGrow(us, part, us, part + [c], c)
  {
    Assoc([G.QUOTE] + G.RenderUnits(us), part, [c]);
  }

  /** The character that completes a unit. */
  lemma UnitEnds(us: seq<G.Unit>, part: seq<Ch>, u: G.Unit, c: Ch)
    requires G.ValidUnits(us) && G.ValidUnit(u) && part + [c] == G.RenderUnit(u)
    ensures UnitsGrow(us, part, us + [u], [], c)
  {
    var r := G.RenderUnits(us);
    UnitsSnoc(us, u);
    Assoc([G.QUOTE], r, part + [c]);
    Assoc([G.QUOTE] + r, part, [c]);
    assert [G.QUOTE] + (r + G.RenderUnit(u)) + [] == [G.QUOTE] + (r + G.RenderUnit(u));
  }

  /** Inside a string: another unit, or another piece of the escape in progress. */
  lemma StringGrows(stack: seq<Mode>, us: seq<G.Unit>, part: seq<Ch>, c: Ch, h: Config)
    returns (us': seq<G.Unit>, part': seq<Ch>)
    requires stack != [] && Top(stack) != M_DONE && G.ValidUnits(us) && ValidPart(part)
    requires Process(Config(PartState(part), stack), c) == Some(h)
    requires part == [] ==> c != G.QUOTE
    ensures UnitsGrow(us, part, us', part', c) && h == Config(PartState(part'), stack)
  {
    if part == [] {
      SeenInString(stack, c, h);
    } else if |part| == 1 {
      SeenInEscape(stack, c, h);
    } else {
      SeenInUnicode(stack, PartState(part), c, h);
    }
    if h.state == ST {
      var u := if part == [] then G.Plain(c) else if |part| == 1 then G.Escaped(c) else G.Unicode(part[2..] + [c]);
      UnitEnds(us, part, u, c);
      us', part' := us + [u], [];
    } else {
      PartGrows(us, part, c);
      us', part' := us, part + [c];
    }
  }

  // ---- numbers

  ghost predicate NumberGrows(n: G.Number, n': G.Number, c: Ch) {
    PartialNumber(n') && G.RenderNumber(n') == G.RenderNumber(n) + [c]
  }

  lemma SeenInMinus(stack: seq<Mode>, c: Ch, h: Config)
    requires stack != [] && Process(Config(MI, stack), c) == Some(h)
    ensures G.IsDigit(c) && h == Config(if c == G.ZERO then ZE else IN, stack)
  {
  }

  lemma SeenInWhole(stack: seq<Mode>, q: State, c: Ch, h: Config)
    requires stack != [] && (q == ZE || q == IN) && Process(Config(q, stack), c) == Some(h)
    ensures || (c == G.POINT && h == Config(FR, stack))
            || (q == IN && G.IsDigit(c) && h == Config(IN, stack))
            || (q == IN && (c == 101 /* e */ || c == 69 /* E */) && h == Config(E1, stack))
            || Ends(stack, c, h)
  {
    if Transition(q, ClassOf(c).value) == AfterValue(ClassOf(c).value) { SeenAtEnd(stack, c, h); }
  }

  lemma SeenInFraction(stack: seq<Mode>, c: Ch, h: Config)
    requires stack != [] && Process(Config(FR, stack), c) == Some(h)
    ensures || (G.IsDigit(c) && h == Config(FR, stack))
            || ((c == 101 /* e */ || c == 69 /* E */) && h == Config(E1, stack))
            || Ends(stack, c, h)
  {
    if Transition(FR, ClassOf(c).value) == AfterValue(ClassOf(c).value) { SeenAtEnd(stack, c, h); }
  }

  lemma SeenInExponent(stack: seq<Mode>, q: State, c: Ch, h: Config)
    requires stack != [] && (q == E1 || q == E2) && Process(Config(q, stack), c) == Some(h)
    ensures || (q == E1 && (c == G.PLUS || c == G.MINUS) && h == Config(E2, stack))
            || (G.IsDigit(c) && h == Config(E3, stack))
  {
  }

  lemma SeenInExponentDigits(stack: seq<Mode>, c: Ch, h: Config)
    requires stack != [] && Process(Config(E3, stack), c) == Some(h)
    ensures (G.IsDigit(c) && h == Config(E3, stack)) || Ends(stack, c, h)
  {
    if Transition(E3, ClassOf(c).value) == AfterValue(ClassOf(c).value) { SeenAtEnd(stack, c, h); }
  }

  lemma WholeGrows(stack: seq<Mode>, n: G.Number, c: Ch, h: Config) returns (n': G.Number)
    requires stack != [] && PartialNumber(n) && Process(Config(NumberState(n), stack), c) == Some(h)
    requires !n.point && n.exponent.NoExponent?
    ensures (NumberGrows(n, n', c) && h == Config(NumberState(n'), stack)) || (n.whole != [] && Ends(stack, c, h))
  {
    n' := n;
    if n.whole == [] {
      SeenInMinus(stack, c, h);
      n' := n.(whole := [c]);
    } else {
      SeenInWhole(stack, NumberState(n), c, h);
      if !Ends(stack, c, h) {
        if c == G.POINT {
          n' := n.(point := true);
        } else if G.IsDigit(c) {
          n' := n.(whole := n.whole + [c]);
        } else {
          n' := n.(exponent := G.Exponent(c, [], []));
        }
      }
    }
  }

  lemma FractionGrows(stack: seq<Mode>, n: G.Number, c: Ch, h: Config) returns (n': G.Number)
    requires stack != [] && PartialNumber(n) && Process(Config(NumberState(n), stack), c) == Some(h)
    requires n.point && n.exponent.NoExponent?
    ensures (NumberGrows(n, n', c) && h == Config(NumberState(n'), stack)) || Ends(stack, c, h)
  {
    n' := n;
    SeenInFraction(stack, c, h);
    if !Ends(stack, c, h) {
      if G.IsDigit(c) {
        n' := n.(fraction := n.fraction + [c]);
      } else {
        n' := n.(exponent := G.Exponent(c, [], []));
      }
    }
  }

  lemma ExponentGrows(stack: seq<Mode>, n: G.Number, c: Ch, h: Config) returns (n': G.Number)
    requires stack != [] && PartialNumber(n) && Process(Config(NumberState(n), stack), c) == Some(h)
    requires n.exponent.Exponent?
    ensures || (NumberGrows(n, n', c) && h == Config(NumberState(n'), stack))
            || (n.exponent.digits != [] && Ends(stack, c, h))
  {
    n' := n;
    var x := n.exponent;
    var head := (if n.minus then [G.MINUS] else []) + n.whole + (if n.point then [G.POINT] else []) + n.fraction;
    var x' := x;
    if x.digits == [] {
      SeenInExponent(stack, NumberState(n), c, h);
      x' := if G.IsDigit(c) then x.(digits := [c]) else x.(sign := [c]);
    } else {
      SeenInExponentDigits(stack, c, h);
      x' := x.(digits := x.digits + [c]);
    }
    if !Ends(stack, c, h) || x.digits == [] {
      n' := n.(exponent := x');
      assert G.RenderExponent(x') == G.RenderExponent(x) + [c];
      Assoc(head, G.RenderExponent(x), [c]);
    }
  }

  /** Inside a number: another character of it, or the end of a complete one. */
  lemma NumberStep(stack: seq<Mode>, n: G.Number, c: Ch, h: Config) returns (n': G.Number)
    requires stack != [] && PartialNumber(n) && Process(Config(NumberState(n), stack), c) == Some(h)
    ensures || (NumberGrows(n, n', c) && h == Config(NumberState(n'), stack))
            || (G.ValidNumber(n) && Ends(stack, c, h))
  {
    if n.exponent.Exponent? {
      n' := ExponentGrows(stack, n, c, h);
    } else if n.point {
      n' := FractionGrows(stack, n, c, h);
    } else {
      n' := WholeGrows(stack, n, c, h);
    }
  }

  // ---- literals

  lemma SeenInTrue(stack: seq<Mode>, k: nat, c: Ch, h: Config)
    requires stack != [] && 1 <= k < 4 && Process(Config(LiteralState(G.True, k), stack), c) == Some(h)
    ensures c == G.RenderLiteral(G.True)[k] && h == Config(if k == 3 then OK else LiteralState(G.True, k + 1), stack)
  {
  }

  lemma SeenInFalse(stack: seq<Mode>, k: nat, c: Ch, h: Config)
    requires stack != [] && 1 <= k < 5 && Process(Config(LiteralState(G.False, k), stack), c) == Some(h)
    ensures c == G.RenderLiteral(G.False)[k] && h == Config(if k == 4 then OK else LiteralState(G.False, k + 1), stack)
  {
  }

  lemma SeenInNull(stack: seq<Mode>, k: nat, c: Ch, h: Config)
    requires stack != [] && 1 <= k < 4 && Process(Config(LiteralState(G.Null, k), stack), c) == Some(h)
    ensures c == G.RenderLiteral(G.Null)[k] && h == Config(if k == 3 then OK else LiteralState(G.Null, k + 1), stack)
  {
  }

  lemma LiteralStep(stack: seq<Mode>, l: G.Literal, k: nat, c: Ch, h: Config)
    requires stack != [] && 1 <= k < |G.RenderLiteral(l)|
    requires Process(Config(LiteralState(l, k), stack), c) == Some(h)
    ensures G.RenderLiteral(l)[..k + 1] == G.RenderLiteral(l)[..k] + [c]
    ensures h == Config(if k + 1 == |G.RenderLiteral(l)| then OK else LiteralState(l, k + 1), stack)
  {
    match l {
      case True => SeenInTrue(stack, k, c, h);
      case False => SeenInFalse(stack, k, c, h);
      case Null => SeenInNull(stack, k, c, h);
    }
  }

  // ---- contexts

  /** One step of the automaton, mirrored on an unfinished text. */
  ghost predicate Grows(k: Context, k': Context, c: Ch, h: Config)
    requires ValidContext(k)
  {
    ValidContext(k') && ConfigOf(k') == h && Text(k') == Text(k) + [c]
  }

  ghost function StackAt(outer: seq<Frame>, m: Mode): (r: seq<Mode>)
    ensures r != [] && Top(r) == m && r[..|r| - 1] == Modes(outer) && |r| == |outer| + 2
  {
    Modes(outer) + [m]
  }

  /** The closing bracket of an array. */
  lemma ArrayEnds(outer: seq<Frame>, at: Position, b: G.ArrayBody)
    requires ValidContext(Open(outer, at)) && G.Valid(G.Arr(b)) && |outer| + G.Depth(G.Arr(b)) <= 127
    requires PositionText(at) ==
               [G.LBRACKET] + (match b case NoElement(w) => w case SomeElements(es) => G.RenderElements(es))
    ensures Grows(Open(outer, at), Leave(outer, G.Arr(b)), G.RBRACKET, Config(OK, Modes(outer)))
  {
    Ascend(outer, at, G.Arr(b), G.RBRACKET);
  }

  lemma ObjectEnds(outer: seq<Frame>, at: Position, b: G.ObjectBody)
    requires ValidContext(Open(outer, at)) && G.Valid(G.Obj(b)) && |outer| + G.Depth(G.Obj(b)) <= 127
    requires PositionText(at) ==
               [G.LBRACE] + (match b case NoMember(w) => w case SomeMembers(ms) => G.RenderMembers(ms))
    ensures Grows(Open(outer, at), Leave(outer, G.Obj(b)), G.RBRACE, Config(OK, Modes(outer)))
  {
    Ascend(outer, at, G.Obj(b), G.RBRACE);
  }

  lemma ValueEndsInArray(outer: seq<Frame>, f: Frame, v: G.Json, post: seq<Ch>, c: Ch, h: Config)
    returns (k': Context)
    requires f.InArr? && ValidContext(Open(outer, After(f, v, post))) && !G.IsBlank(c)
    requires Ends(StackAt(outer, M_ARRAY), c, h)
    ensures Grows(Open(outer, After(f, v, post)), k', c, h)
  {
    var at := After(f, v, post);
    var all := FinishElement(f.elements, f.pre, v, post, |outer|);
    if c == G.COMMA {
      var next := Await(InArr(Some(all), []));
      assert PositionText(next) == [G.LBRACKET] + G.RenderElements(all) + [G.COMMA] + [];
      Extend(outer, at, next, c);
      k' := Open(outer, next);
    } else {
      ArrayEnds(outer, at, G.SomeElements(all));
      k' := Leave(outer, G.Arr(G.SomeElements(all)));
    }
  }

  lemma ValueEndsInObject(outer: seq<Frame>, f: Frame, v: G.Json, post: seq<Ch>, c: Ch, h: Config)
    returns (k': Context)
    requires f.InObj? && ValidContext(Open(outer, After(f, v, post))) && !G.IsBlank(c)
    requires Ends(StackAt(outer, M_OBJECT), c, h)
    ensures Grows(Open(outer, After(f, v, post)), k', c, h)
  {
    var at := After(f, v, post);
    var all := FinishMember(f, v, post, |outer|);
    if c == G.COMMA {
      var next := KeyAwait(Some(all), []);
      assert PositionText(next) == [G.LBRACE] + G.RenderMembers(all) + [G.COMMA] + [];
      Extend(outer, at, next, c);
      k' := Open(outer, next);
    } else {
      ObjectEnds(outer, at, G.SomeMembers(all));
      k' := Leave(outer, G.Obj(G.SomeMembers(all)));
    }
  }

  /** What follows a complete value. */
  lemma ValueEnds(outer: seq<Frame>, f: Frame, v: G.Json, post: seq<Ch>, c: Ch, h: Config) returns (k': Context)
    requires ValidContext(Open(outer, After(f, v, post)))
    requires Ends(StackAt(outer, FrameMode(f)), c, h)
    ensures Grows(Open(outer, After(f, v, post)), k', c, h)
  {
    if G.IsBlank(c) {
      var next := After(f, v, post + [c]);
      Assoc(FrameText(f) + G.Render(v), post, [c]);
      Extend(outer, After(f, v, post), next, c);
      k' := Open(outer, next);
    } else if f.InArr? {
      k' := ValueEndsInArray(outer, f, v, post, c, h);
    } else {
      k' := ValueEndsInObject(outer, f, v, post, c, h);
    }
  }

  lemma BlankBeforeValue(outer: seq<Frame>, f: Frame, c: Ch)
    requires ValidContext(Open(outer, Await(f))) && G.IsBlank(c)
    ensures Grows(Open(outer, Await(f)), Open(outer, Await(f.(pre := f.pre + [c]))), c, ConfigOf(Open(outer, Await(f))))
  {
    var next := Await(f.(pre := f.pre + [c]));
    match f {
      case InArr(es, pre) => Assoc(ArrayHead(es), pre, [c]);
      case InObj(ms, kpre, key, mid, pre) => Assoc(ObjectHead(ms) + KeyText(kpre, key, mid), pre, [c]);
    }
    Extend(outer, Await(f), next, c);
  }

  /** The first character of a scalar. */
  ghost function FirstToken(c: Ch): Token {
    if c == G.QUOTE then TStr([], [])
    else if c == G.MINUS then TNum(G.Number(true, [], false, [], G.NoExponent))
    else if G.IsDigit(c) then TNum(G.Number(false, [c], false, [], G.NoExponent))
    else TLit(if c == 116 /* t */ then G.True else if c == 102 /* f */ then G.False else G.Null, 1)
  }

  lemma ScalarStarts(outer: seq<Frame>, f: Frame, c: Ch, h: Config)
    requires ValidContext(Open(outer, Await(f)))
    requires var stack := StackAt(outer, FrameMode(f));
             (c == G.QUOTE && h == Config(ST, stack)) || StartsScalar(stack, c, h)
    ensures Grows(Open(outer, Await(f)), Open(outer, Scalar(f, FirstToken(c))), c, h)
  {
    var t := FirstToken(c);
    assert ValidToken(t) && TokenText(t) == [c];
    assert h.state == TokenState(t);
    Extend(outer, Await(f), Scalar(f, t), c);
  }

  lemma ContainerStarts(outer: seq<Frame>, f: Frame, c: Ch, h: Config) returns (k': Context)
    requires ValidContext(Open(outer, Await(f))) && (c == G.LBRACKET || c == G.LBRACE)
    requires Starts(StackAt(outer, FrameMode(f)), c, h)
    ensures Grows(Open(outer, Await(f)), k', c, h)
  {
    var inner := if c == G.LBRACKET then Await(InArr(None, [])) else KeyAwait(None, []);
    assert PositionText(inner) == [c];
    Descend(outer, f, inner, c);
    k' := Open(outer + [f], inner);
  }

  lemma AdvanceAwait(outer: seq<Frame>, f: Frame, c: Ch, h: Config) returns (k': Context)
    requires ValidContext(Open(outer, Await(f))) && Process(ConfigOf(Open(outer, Await(f))), c) == Some(h)
    ensures Grows(Open(outer, Await(f)), k', c, h)
  {
    var stack := StackAt(outer, FrameMode(f));
    SeenAwaiting(stack, PositionState(Await(f)), c, h);
    if G.IsBlank(c) {
      BlankBeforeValue(outer, f, c);
      k' := Open(outer, Await(f.(pre := f.pre + [c])));
    } else if c == G.RBRACKET {
      ArrayEnds(outer, Await(f), G.NoElement(f.pre));
      k' := Leave(outer, G.Arr(G.NoElement(f.pre)));
    } else if c == G.LBRACKET || c == G.LBRACE {
      k' := ContainerStarts(outer, f, c, h);
    } else {
      ScalarStarts(outer, f, c, h);
      k' := Open(outer, Scalar(f, FirstToken(c)));
    }
  }

  /** A scalar becomes a value. */
  lemma ScalarEnds(outer: seq<Frame>, f: Frame, t: Token, v: G.Json, c: Ch)
    requires ValidContext(Open(outer, Scalar(f, t)))
    requires G.Valid(v) && G.Depth(v) == 0 && G.Render(v) == TokenText(t) + [c]
    ensures Grows(Open(outer, Scalar(f, t)), Open(outer, After(f, v, [])), c, Config(OK, StackAt(outer, FrameMode(f))))
  {
    Assoc(FrameText(f), TokenText(t), [c]);
    assert PositionText(After(f, v, [])) == FrameText(f) + G.Render(v);
    Extend(outer, Scalar(f, t), After(f, v, []), c);
  }

  lemma ScalarGrows(outer: seq<Frame>, f: Frame, t: Token, t': Token, c: Ch)
    requires ValidContext(Open(outer, Scalar(f, t)))
    requires ValidToken(t') && TokenText(t') == TokenText(t) + [c]
    ensures Grows(Open(outer, Scalar(f, t)), Open(outer, Scalar(f, t')), c,
                  Config(TokenState(t'), StackAt(outer, FrameMode(f))))
  {
    Assoc(FrameText(f), TokenText(t), [c]);
    Extend(outer, Scalar(f, t), Scalar(f, t'), c);
  }

  lemma AdvanceString(outer: seq<Frame>, f: Frame, us: seq<G.Unit>, part: seq<Ch>, c: Ch, h: Config)
    returns (k': Context)
    requires var k := Open(outer, Scalar(f, TStr(us, part))); ValidContext(k) && Process(ConfigOf(k), c) == Some(h)
    ensures Grows(Open(outer, Scalar(f, TStr(us, part))), k', c, h)
  {
    var stack := StackAt(outer, FrameMode(f));
    if part == [] && c == G.QUOTE {
      SeenInString(stack, c, h);
      assert TokenText(TStr(us, part)) == [G.QUOTE] + G.RenderUnits(us);
      ScalarEnds(outer, f, TStr(us, part), G.Str(us), c);
      k' := Open(outer, After(f, G.Str(us), []));
    } else {
      var us', part' := StringGrows(stack, us, part, c, h);
      ScalarGrows(outer, f, TStr(us, part), TStr(us', part'), c);
      k' := Open(outer, Scalar(f, TStr(us', part')));
    }
  }

  lemma AdvanceNumber(outer: seq<Frame>, f: Frame, n: G.Number, c: Ch, h: Config) returns (k': Context)
    requires var k := Open(outer, Scalar(f, TNum(n))); ValidContext(k) && Process(ConfigOf(k), c) == Some(h)
    ensures Grows(Open(outer, Scalar(f, TNum(n))), k', c, h)
  {
    var stack := StackAt(outer, FrameMode(f));
    var n' := NumberStep(stack, n, c, h);
    if NumberGrows(n, n', c) && h == Config(NumberState(n'), stack) {
      ScalarGrows(outer, f, TNum(n), TNum(n'), c);
      k' := Open(outer, Scalar(f, TNum(n')));
    } else {
      var done := After(f, G.Num(n), []);
      assert PositionText(done) == PositionText(Scalar(f, TNum(n)));
      assert Text(Open(outer, done)) == Text(Open(outer, Scalar(f, TNum(n))));
      k' := ValueEnds(outer, f, G.Num(n), [], c, h);
    }
  }

  lemma AdvanceLiteral(outer: seq<Frame>, f: Frame, l: G.Literal, r: nat, c: Ch, h: Config) returns (k': Context)
    requires var k := Open(outer, Scalar(f, TLit(l, r))); ValidContext(k) && Process(ConfigOf(k), c) == Some(h)
    ensures Grows(Open(outer, Scalar(f, TLit(l, r))), k', c, h)
  {
    var s := G.RenderLiteral(l);
    LiteralStep(StackAt(outer, FrameMode(f)), l, r, c, h);
    if r + 1 == |s| {
      assert s[..r + 1] == s;
      ScalarEnds(outer, f, TLit(l, r), G.Lit(l), c);
      k' := Open(outer, After(f, G.Lit(l), []));
    } else {
      ScalarGrows(outer, f, TLit(l, r), TLit(l, r + 1), c);
      k' := Open(outer, Scalar(f, TLit(l, r + 1)));
    }
  }

  lemma AdvanceKeyAwait(outer: seq<Frame>, ms: Option<G.Members>, kpre: seq<Ch>, c: Ch, h: Config) returns (k': Context)
    requires var k := Open(outer, KeyAwait(ms, kpre)); ValidContext(k) && Process(ConfigOf(k), c) == Some(h)
    ensures Grows(Open(outer, KeyAwait(ms, kpre)), k', c, h)
  {
    var at := KeyAwait(ms, kpre);
    SeenAwaitingKey(StackAt(outer, M_KEY), PositionState(at), c, h);
    if G.IsBlank(c) {
      Assoc(ObjectHead(ms), kpre, [c]);
      Extend(outer, at, KeyAwait(ms, kpre + [c]), c);
      k' := Open(outer, KeyAwait(ms, kpre + [c]));
    } else if c == G.QUOTE {
      var next := KeyToken(ms, kpre, [], []);
      assert [G.QUOTE] + G.RenderUnits([]) + [] == [c];
      Extend(outer, at, next, c);
      k' := Open(outer, next);
    } else {
      ObjectEnds(outer, at, G.NoMember(kpre));
      k' := Leave(outer, G.Obj(G.NoMember(kpre)));
    }
  }

  lemma AdvanceKey(outer: seq<Frame>, at: Position, c: Ch, h: Config) returns (k': Context)
    requires at.KeyToken? && ValidContext(Open(outer, at)) && Process(ConfigOf(Open(outer, at)), c) == Some(h)
    ensures Grows(Open(outer, at), k', c, h)
  {
    var stack := StackAt(outer, M_KEY);
    var us, part := at.units, at.part;
    var head := ObjectHead(at.members) + at.kpre;
    Assoc(head, [G.QUOTE] + G.RenderUnits(us) + part, [c]);
    var next: Position;
    if part == [] && c == G.QUOTE {
      SeenInString(stack, c, h);
      next := ColonAwait(at.members, at.kpre, us, []);
      assert [G.QUOTE] + G.RenderUnits(us) + part + [c] == G.RenderString(us);
      Assoc(ObjectHead(at.members), at.kpre, G.RenderString(us));
      assert at.kpre + G.RenderString(us) + [] == at.kpre + G.RenderString(us);
    } else {
      var us', part' := StringGrows(stack, us, part, c, h);
      next := KeyToken(at.members, at.kpre, us', part');
    }
    Extend(outer, at, next, c);
    k' := Open(outer, next);
  }

  lemma AdvanceColon(outer: seq<Frame>, at: Position, c: Ch, h: Config) returns (k': Context)
    requires at.ColonAwait? && ValidContext(Open(outer, at)) && Process(ConfigOf(Open(outer, at)), c) == Some(h)
    ensures Grows(Open(outer, at), k', c, h)
  {
    SeenAwaitingColon(StackAt(outer, M_KEY), c, h);
    var head, key := ObjectHead(at.members), at.kpre + G.RenderString(at.key);
    Assoc(head, key + at.mid, [c]);
    var next: Position;
    if G.IsBlank(c) {
      next := at.(mid := at.mid + [c]);
      Assoc(key, at.mid, [c]);
    } else {
      next := Await(InObj(at.members, at.kpre, at.key, at.mid, []));
      assert PositionText(next) == head + KeyText(at.kpre, at.key, at.mid);
    }
    Extend(outer, at, next, c);
    k' := Open(outer, next);
  }

  lemma AdvanceAfter(outer: seq<Frame>, at: Position, c: Ch, h: Config) returns (k': Context)
    requires at.After? && ValidContext(Open(outer, at)) && Process(ConfigOf(Open(outer, at)), c) == Some(h)
    ensures Grows(Open(outer, at), k', c, h)
  {
    SeenAfterValue(StackAt(outer, FrameMode(at.frame)), c, h);
    k' := ValueEnds(outer, at.frame, at.v, at.post, c, h);
  }

  /** Every step of the automaton inside a text is a step of the grammar. */
  lemma Advance(k: Context, c: Ch, h: Config) returns (k': Context)
    requires k.Open? && ValidContext(k) && Process(ConfigOf(k), c) == Some(h)
    ensures Grows(k, k', c, h)
  {
    match k.at {
      case Await(f) => k' := AdvanceAwait(k.outer, f, c, h);
      case Scalar(f, t) =>
        match t {
          case TStr(us, part) => k' := AdvanceString(k.outer, f, us, part, c, h);
          case TNum(n) => k' := AdvanceNumber(k.outer, f, n, c, h);
          case TLit(l, r) => k' := AdvanceLiteral(k.outer, f, l, r, c, h);
        }
      case After(_, _, _) => k' := AdvanceAfter(k.outer, k.at, c, h);
      case KeyAwait(ms, kpre) => k' := AdvanceKeyAwait(k.outer, ms, kpre, c, h);
      case KeyToken(_, _, _, _) => k' := AdvanceKey(k.outer, k.at, c, h);
      case ColonAwait(_, _, _, _) => k' := AdvanceColon(k.outer, k.at, c, h);
    }
  }
}
