/**
  The pushdown automaton of evd/evd-json-filter.c: character classes, the state
  transition table, the bounded mode stack, and the effect of one character.
 */
module JsonAutomaton {
  import opened Prelude

  const MAX_DEPTH := 128

  datatype Class =
    | C_SPACE | C_WHITE | C_LCURB | C_RCURB | C_LSQRB | C_RSQRB | C_COLON | C_COMMA
    | C_QUOTE | C_BACKS | C_SLASH | C_PLUS | C_MINUS | C_POINT | C_ZERO | C_DIGIT
    | C_LOW_A | C_LOW_B | C_LOW_C | C_LOW_D | C_LOW_E | C_LOW_F | C_LOW_L | C_LOW_N
    | C_LOW_R | C_LOW_S | C_LOW_T | C_LOW_U | C_ABCDF | C_E | C_ETC

  datatype State =
    | GO | OK | OB | KE | CO | VA | AR | ST | ES | U1 | U2 | U3 | U4
    | MI | ZE | IN | FR | E1 | E2 | E3 | T1 | T2 | T3 | F1 | F2 | F3 | F4 | N1 | N2 | N3

  datatype Mode = M_ARRAY | M_DONE | M_KEY | M_OBJECT

  /** A cell of the transition table: a next state, or one of the actions -2 .. -9, or the error -1. */
  datatype Cell =
    | To(state: State)
    | Bad
    | Colon | Comma | Quote | BeginArray | BeginObject | EndArray | EndObject | EndEmpty

  /** `ascii_class`, with the two tests around it: None where the character is an error on sight. */
  function ClassOf(c: Ch): Option<Class> {
    if c < 0 then None
    else if c >= 128 then Some(C_ETC)
    else if c == 32 then Some(C_SPACE)
    else if c == 9 || c == 10 || c == 13 then Some(C_WHITE)
    else if c < 32 then None
    else if c == 34 /* " */ then Some(C_QUOTE)
    else if c == 43 /* + */ then Some(C_PLUS)
    else if c == 44 /* , */ then Some(C_COMMA)
    else if c == 45 /* - */ then Some(C_MINUS)
    else if c == 46 /* . */ then Some(C_POINT)
    else if c == 47 /* / */ then Some(C_SLASH)
    else if c == 48 /* 0 */ then Some(C_ZERO)
    else if 49 /* 1 */ <= c <= 57 /* 9 */ then Some(C_DIGIT)
    else if c == 58 /* : */ then Some(C_COLON)
    else if c == 69 /* E */ then Some(C_E)
    else if 65 /* A */ <= c <= 70 /* F */ then Some(C_ABCDF)
    else if c == 91 /* [ */ then Some(C_LSQRB)
    else if c == 92 /* \ */ then Some(C_BACKS)
    else if c == 93 /* ] */ then Some(C_RSQRB)
    else if c == 97 /* a */ then Some(C_LOW_A)
    else if c == 98 /* b */ then Some(C_LOW_B)
    else if c == 99 /* c */ then Some(C_LOW_C)
    else if c == 100 /* d */ then Some(C_LOW_D)
    else if c == 101 /* e */ then Some(C_LOW_E)
    else if c == 102 /* f */ then Some(C_LOW_F)
    else if c == 108 /* l */ then Some(C_LOW_L)
    else if c == 110 /* n */ then Some(C_LOW_N)
    else if c == 114 /* r */ then Some(C_LOW_R)
    else if c == 115 /* s */ then Some(C_LOW_S)
    else if c == 116 /* t */ then Some(C_LOW_T)
    else if c == 117 /* u */ then Some(C_LOW_U)
    else if c == 123 /* { */ then Some(C_LCURB)
    else if c == 125 /* } */ then Some(C_RCURB)
    else Some(C_ETC)
  }

  predicate Blank(c: Class) { c == C_SPACE || c == C_WHITE }

  predicate Digit(c: Class) { c == C_ZERO || c == C_DIGIT }

  predicate Hex(c: Class) {
    || c == C_ZERO || c == C_DIGIT || c == C_LOW_A || c == C_LOW_B || c == C_LOW_C || c == C_LOW_D
    || c == C_LOW_E || c == C_LOW_F || c == C_ABCDF || c == C_E
  }

  /** What may follow the backslash of a two-character escape. */
  predicate Escapable(c: Class) {
    || c == C_QUOTE || c == C_BACKS || c == C_SLASH
    || c == C_LOW_B || c == C_LOW_F || c == C_LOW_N || c == C_LOW_R || c == C_LOW_T
  }

  /** The part of the table row that OK, ZE, IN, FR and E3 have in common: what may follow a value. */
  function AfterValue(c: Class): Cell {
    if Blank(c) then To(OK)
    else if c == C_RCURB then EndObject
    else if c == C_RSQRB then EndArray
    else if c == C_COMMA then Comma
    else Bad
  }

  /** The part of the rows VA and AR that starts a value. */
  function StartValue(c: Class): Cell {
    match c
    case C_LCURB => BeginObject
    case C_LSQRB => BeginArray
    case C_QUOTE => To(ST)
    case C_MINUS => To(MI)
    case C_ZERO => To(ZE)
    case C_DIGIT => To(IN)
    case C_LOW_F => To(F1)
    case C_LOW_N => To(N1)
    case C_LOW_T => To(T1)
    case _ => Bad
  }

  /** `state_transition_table`, row by row. */
  function Transition(q: State, c: Class): Cell {
    match q
    case GO =>
      if Blank(c) then To(GO) else if c == C_LCURB then BeginObject else if c == C_LSQRB then BeginArray else Bad
    case OK => AfterValue(c)
    case OB => if Blank(c) then To(OB) else if c == C_RCURB then EndEmpty else if c == C_QUOTE then To(ST) else Bad
    case KE => if Blank(c) then To(KE) else if c == C_QUOTE then To(ST) else Bad
    case CO => if Blank(c) then To(CO) else if c == C_COLON then Colon else Bad
    case VA => if Blank(c) then To(VA) else StartValue(c)
    case AR => if Blank(c) then To(AR) else if c == C_RSQRB then EndArray else StartValue(c)
    case ST => if c == C_WHITE then Bad else if c == C_QUOTE then Quote else if c == C_BACKS then To(ES) else To(ST)
    case ES => if Escapable(c) then To(ST) else if c == C_LOW_U then To(U1) else Bad
    case U1 => if Hex(c) then To(U2) else Bad
    case U2 => if Hex(c) then To(U3) else Bad
    case U3 => if Hex(c) then To(U4) else Bad
    case U4 => if Hex(c) then To(ST) else Bad
    case MI => if c == C_ZERO then To(ZE) else if c == C_DIGIT then To(IN) else Bad
    case ZE => if c == C_POINT then To(FR) else AfterValue(c)
    case IN => if c == C_POINT then To(FR) else if Digit(c) then To(IN)
               else if c == C_LOW_E || c == C_E then To(E1) else AfterValue(c)
    case FR => if Digit(c) then To(FR) else if c == C_LOW_E || c == C_E then To(E1) else AfterValue(c)
    case E1 => if c == C_PLUS || c == C_MINUS then To(E2) else if Digit(c) then To(E3) else Bad
    case E2 => if Digit(c) then To(E3) else Bad
    case E3 => if Digit(c) then To(E3) else AfterValue(c)
    case T1 => if c == C_LOW_R then To(T2) else Bad
    case T2 => if c == C_LOW_U then To(T3) else Bad
    case T3 => if c == C_LOW_E then To(OK) else Bad
    case F1 => if c == C_LOW_A then To(F2) else Bad
    case F2 => if c == C_LOW_L then To(F3) else Bad
    case F3 => if c == C_LOW_S then To(F4) else Bad
    case F4 => if c == C_LOW_E then To(OK) else Bad
    case N1 => if c == C_LOW_U then To(N2) else Bad
    case N2 => if c == C_LOW_L then To(N3) else Bad
    case N3 => if c == C_LOW_L then To(OK) else Bad
  }

  /** `state` with the used part of `stack`; the top of the stack is its last element. */
  datatype Config = Config(state: State, stack: seq<Mode>)

  const START := Config(GO, [M_DONE])

  function Top(stack: seq<Mode>): Mode
    requires stack != []
  {
    stack[|stack| - 1]
  }

  /** Which modes may be on top while the automaton is in a given state. */
  predicate Fits(q: State, top: Mode) {
    match q
    case GO => top == M_DONE
    case OK => top != M_KEY
    case OB => top == M_KEY
    case KE => top == M_KEY
    case CO => top == M_KEY
    case AR => top == M_ARRAY
    case ST => top != M_DONE
    case ES => top != M_DONE
    case U1 => top != M_DONE
    case U2 => top != M_DONE
    case U3 => top != M_DONE
    case U4 => top != M_DONE
    case _ => top == M_ARRAY || top == M_OBJECT
  }

  /**
    What every reachable configuration satisfies: the done mode is exactly the bottom of the stack,
    and only the top can be a key mode.
   */
  ghost predicate Inv(g: Config) {
    && 1 <= |g.stack| <= MAX_DEPTH
    && g.stack[0] == M_DONE
    && (forall i :: 1 <= i < |g.stack| ==> g.stack[i] != M_DONE)
    && (forall i :: 0 <= i < |g.stack| - 1 ==> g.stack[i] != M_KEY)
    && Fits(g.state, Top(g.stack))
  }

  function Pop(stack: seq<Mode>, mode: Mode): Option<seq<Mode>> {
    if stack == [] || Top(stack) != mode then None else Some(stack[..|stack| - 1])
  }

  function Push(stack: seq<Mode>, mode: Mode): Option<seq<Mode>> {
    if |stack| >= MAX_DEPTH then None else Some(stack + [mode])
  }

  /** Pop one mode and push another in its place, as the comma and the colon do. */
  function Flip(stack: seq<Mode>, old_: Mode, new_: Mode): Option<seq<Mode>> {
    match Pop(stack, old_)
    case None => None
    case Some(s) => Push(s, new_)
  }

  function Enter(q: State, stack: Option<seq<Mode>>): Option<Config> {
    match stack
    case None => None
    case Some(s) => Some(Config(q, s))
  }

  /** The switch over the actions; None is `evd_json_filter_error`. */
  function Act(g: Config, cell: Cell): Option<Config>
    requires g.stack != []
  {
    match cell
    case To(q) => Some(Config(q, g.stack))
    case Bad => None
    case EndEmpty => Enter(OK, Pop(g.stack, M_KEY))
    case EndObject => Enter(OK, Pop(g.stack, M_OBJECT))
    case EndArray => Enter(OK, Pop(g.stack, M_ARRAY))
    case BeginObject => Enter(OB, Push(g.stack, M_KEY))
    case BeginArray => Enter(AR, Push(g.stack, M_ARRAY))
    case Quote =>
      (match Top(g.stack)
       case M_KEY => Some(Config(CO, g.stack))
       case M_ARRAY => Some(Config(OK, g.stack))
       case M_OBJECT => Some(Config(OK, g.stack))
       case M_DONE => None)
    case Comma =>
      (match Top(g.stack)
       case M_OBJECT => Enter(KE, Flip(g.stack, M_OBJECT, M_KEY))
       case M_ARRAY => Some(Config(VA, g.stack))
       case _ => None)
    case Colon => Enter(VA, Flip(g.stack, M_KEY, M_OBJECT))
  }

  /** `evd_json_filter_process` on the state and the stack. */
  function Process(g: Config, c: Ch): (r: Option<Config>)
    requires g.stack != []
  {
    match ClassOf(c)
    case None => None
    case Some(k) => Act(g, Transition(g.state, k))
  }

  // A mere change of state suits the mode on top, and never comes back to the start state.

  predicate InNumber(q: State) { q == MI || q == ZE || q == IN || q == FR || q == E1 || q == E2 || q == E3 }

  predicate InString(q: State) { q == ST || q == ES || q == U1 || q == U2 || q == U3 || q == U4 }

  lemma NumberMovesWell(q: State, k: Class, r: State, top: Mode)
    requires InNumber(q)
    requires Transition(q, k) == To(r) && Fits(q, top)
    ensures Fits(r, top) && (r == GO ==> q == GO)
  {
  }

  predicate InTrue(q: State) { q == T1 || q == T2 || q == T3 }

  predicate InFalse(q: State) { q == F1 || q == F2 || q == F3 || q == F4 }

  predicate InNull(q: State) { q == N1 || q == N2 || q == N3 }

  lemma TrueMovesWell(q: State, k: Class, r: State, top: Mode)
    requires InTrue(q) && Transition(q, k) == To(r) && Fits(q, top)
    ensures Fits(r, top) && (r == GO ==> q == GO)
  {
  }

  lemma FalseMovesWell(q: State, k: Class, r: State, top: Mode)
    requires InFalse(q) && Transition(q, k) == To(r) && Fits(q, top)
    ensures Fits(r, top) && (r == GO ==> q == GO)
  {
  }

  lemma NullMovesWell(q: State, k: Class, r: State, top: Mode)
    requires InNull(q) && Transition(q, k) == To(r) && Fits(q, top)
    ensures Fits(r, top) && (r == GO ==> q == GO)
  {
  }

  lemma StringMovesWell(q: State, k: Class, r: State, top: Mode)
    requires InString(q)
    requires Transition(q, k) == To(r) && Fits(q, top)
    ensures Fits(r, top) && (r == GO ==> q == GO)
  {
  }

  lemma ValueMovesWell(q: State, k: Class, r: State, top: Mode)
    requires q == VA || q == AR
    requires Transition(q, k) == To(r) && Fits(q, top)
    ensures Fits(r, top) && (r == GO ==> q == GO)
  {
  }

  lemma OtherMovesWell(q: State, k: Class, r: State, top: Mode)
    requires q == GO || q == OK || q == OB || q == KE || q == CO
    requires Transition(q, k) == To(r) && Fits(q, top)
    ensures Fits(r, top) && (r == GO ==> q == GO)
  {
  }

  lemma OpensOutsideKey(q: State, k: Class, top: Mode)
    requires Fits(q, top) && (Transition(q, k) == BeginArray || Transition(q, k) == BeginObject)
    ensures top != M_KEY
  {
  }

  lemma ActionKeepsInv(g: Config, cell: Cell)
    requires Inv(g) && !cell.To? && Act(g, cell).Some?
    requires cell == BeginArray || cell == BeginObject ==> Top(g.stack) != M_KEY
    ensures Inv(Act(g, cell).value) && Act(g, cell).value.state != GO
  {
  }

  /** Every step keeps the invariant, and never comes back to the start state. */
  lemma ProcessKeepsInv(g: Config, c: Ch)
    requires Inv(g)
    requires Process(g, c).Some?
    ensures Inv(Process(g, c).value)
    ensures Process(g, c).value.state == GO ==> g.state == GO
  {
    var k := ClassOf(c).value;
    var q, top := g.state, Top(g.stack);
    var cell := Transition(q, k);
    if cell.To? {
      var r := cell.state;
      if InNumber(q) { NumberMovesWell(q, k, r, top); }
      else if InTrue(q) { TrueMovesWell(q, k, r, top); }
      else if InFalse(q) { FalseMovesWell(q, k, r, top); }
      else if InNull(q) { NullMovesWell(q, k, r, top); }
      else if InString(q) { StringMovesWell(q, k, r, top); }
      else if q == VA || q == AR { ValueMovesWell(q, k, r, top); }
      else { OtherMovesWell(q, k, r, top); }
    } else {
      if cell == BeginArray || cell == BeginObject { OpensOutsideKey(q, k, top); }
      ActionKeepsInv(g, cell);
    }
  }

  /** The run over a whole string; None as soon as one character is rejected. */
  function Run(g: Config, s: seq<Ch>): Option<Config>
    requires Inv(g)
    decreases |s|
  {
    if s == [] then Some(g)
    else
      match Process(g, s[0])
      case None => None
      case Some(h) => ProcessKeepsInv(g, s[0]); Run(h, s[1..])
  }

  lemma {:induction false} RunKeepsInv(g: Config, s: seq<Ch>)
    requires Inv(g) && Run(g, s).Some?
    ensures Inv(Run(g, s).value)
    ensures Run(g, s).value.state == GO ==> g.state == GO
    decreases |s|
  {
    if s != [] {
      ProcessKeepsInv(g, s[0]);
      RunKeepsInv(Process(g, s[0]).value, s[1..]);
    }
  }

  lemma {:induction false} RunSplit(g: Config, s: seq<Ch>, t: seq<Ch>)
    requires Inv(g)
    ensures Run(g, s + t) ==
            match Run(g, s) { case None => None case Some(h) => RunKeepsInv(g, s); Run(h, t) }
    decreases |s|
  {
    if s == [] {
      assert s + t == t;
    } else {
      assert (s + t)[0] == s[0] && (s + t)[1..] == s[1..] + t;
      if Process(g, s[0]).Some? {
        ProcessKeepsInv(g, s[0]);
        RunSplit(Process(g, s[0]).value, s[1..], t);
      }
    }
  }

  // ---- runs as paths

  /** The configurations that a machine with the given moves goes through on s, all of them sound. */
  ghost predicate Linked<C, A>(move: (C, A) -> Option<C>, sound: C -> bool, p: seq<C>, s: seq<A>) {
    && |p| == |s| + 1
    && (forall i :: 0 <= i < |p| ==> sound(p[i]))
    && (forall i :: 0 <= i < |s| ==> move(p[i], s[i]) == Some(p[i + 1]))
  }

  lemma LinkedThen<C, A>(move: (C, A) -> Option<C>, sound: C -> bool, p: seq<C>, s: seq<A>, r: seq<C>, t: seq<A>)
    requires Linked(move, sound, p, s) && Linked(move, sound, r, t) && p[|s|] == r[0]
    ensures Linked(move, sound, p + r[1..], s + t)
  {
    var m := p + r[1..];
    forall i | 0 <= i < |s + t|
      ensures move(m[i], (s + t)[i]) == Some(m[i + 1])
    {
      if i >= |s| {
        assert m[i] == r[i - |s|] && m[i + 1] == r[i - |s| + 1];
      }
    }
  }

  lemma LinkedTake<C, A>(move: (C, A) -> Option<C>, sound: C -> bool, p: seq<C>, s: seq<A>, i: nat)
    requires Linked(move, sound, p, s) && i <= |s|
    ensures Linked(move, sound, p[..i + 1], s[..i])
  {
  }

  function Follow(g: Config, c: Ch): Option<Config> {
    if g.stack == [] then None else Process(g, c)
  }

  ghost predicate Path(p: seq<Config>, g: Config, s: seq<Ch>, h: Config) {
    Linked(Follow, Inv, p, s) && p[0] == g && p[|s|] == h
  }

  /** The automaton goes from g to h on s, through configurations that all satisfy the invariant. */
  ghost predicate Goes(g: Config, s: seq<Ch>, h: Config) {
    exists p: seq<Config> :: Path(p, g, s, h)
  }

  lemma GoesNowhere(g: Config)
    requires Inv(g)
    ensures Goes(g, [], g)
  {
    assert Path([g], g, [], g);
  }

  lemma GoesStep(g: Config, c: Ch, h: Config)
    requires Inv(g) && Process(g, c) == Some(h)
    ensures Goes(g, [c], h)
  {
    ProcessKeepsInv(g, c);
    assert Path([g, h], g, [c], h);
  }

  lemma GoesThen(g: Config, s: seq<Ch>, h: Config, t: seq<Ch>, k: Config)
    requires Goes(g, s, h) && Goes(h, t, k)
    ensures Goes(g, s + t, k)
  {
    var p :| Path(p, g, s, h);
    var r :| Path(r, h, t, k);
    LinkedThen(Follow, Inv, p, s, r, t);
    assert Path(p + r[1..], g, s + t, k);
  }

  lemma GoesEnds(g: Config, s: seq<Ch>, h: Config)
    requires Goes(g, s, h)
    ensures Inv(g) && Inv(h)
  {
    var p :| Path(p, g, s, h);
    assert Inv(p[0]) && Inv(p[|s|]);
  }

  lemma {:induction false} GoesRun(g: Config, s: seq<Ch>, h: Config)
    requires Goes(g, s, h)
    ensures Inv(g) && Run(g, s) == Some(h)
    decreases |s|
  {
    GoesEnds(g, s, h);
    var p :| Path(p, g, s, h);
    if s != [] {
      assert Follow(p[0], s[0]) == Some(p[1]);
      assert Path(p[1..], p[1], s[1..], h);
      GoesRun(p[1], s[1..], h);
    }
  }
}
