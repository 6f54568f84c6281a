/**
 The shift/reduce loop of the JSON linter: one step as a function on configurations, the run
 to its end, and the loop itself, which updates the stacks in place and computes that run.
 */
module JsonParser {
  import opened JsonTable
  import opened JsonValues

  datatype Loc = Loc(firstLine: int, firstColumn: int, lastLine: int, lastColumn: int)

  /** What the lexer returns: a symbol with its text (quotes removed) and position. */
  datatype Token = Token(sym: Symbol, text: Text, loc: Loc)

  const START_LOC: Loc := Loc(1, 0, 1, 0)

  /** The i-th call of the lexer. */
  function Lexed(input: seq<Token>, i: nat): Token {
    if i < |input| then input[i] else Token(End, [], START_LOC)
  }

  /**
   The parser's variables: the stacks (states and symbols are interleaved in the source), the
   text of the last shifted token, the number of shifted tokens, and whether the next token
   has already been read.
   */
  datatype Config = Config(
    states: seq<nat>, symbols: seq<Symbol>, vals: seq<JsValue>, locs: seq<Loc>,
    text: Text, next: nat, ahead: bool)

  datatype Outcome = Returned(value: JsValue) | ReturnedTrue | ParseError(at: nat) | Crashed

  datatype StepResult = Continue(c: Config) | Halt(o: Outcome)

  const INITIAL: Config := Config([0], [], [JsNull], [START_LOC], [], 0, false)

  predicate WellStacked(c: Config) {
    |c.states| == |c.symbols| + 1 == |c.vals| == |c.locs|
  }

  function Top(c: Config): nat {
    if |c.states| == 0 then 0 else c.states[|c.states| - 1]
  }

  // The components of a pair [key, value] built by production 15.

  function PairKey(v: JsValue): Text {
    if v.JsArray? && |v.elems| > 0 && v.elems[0].JsString? then v.elems[0].s else []
  }

  function PairValue(v: JsValue): JsValue {
    if v.JsArray? && |v.elems| > 1 then v.elems[1] else JsNull
  }

  function Push(a: JsValue, v: JsValue): JsValue {
    if a.JsArray? then JsArray(a.elems + [v]) else a
  }

  /** The semantic actions; g is the value stack and text the last shifted token's. */
  function PerformAction(text: Text, p: nat, g: seq<JsValue>): JsValue
    requires 1 <= p <= PRODUCTIONS && |g| >= |Rhs(p)|
  {
    var i := |g| - 1;
    match p
    case 1 => JsString(Unescape(text))
    case 2 => JsNumber(text)
    case 3 => JsNull
    case 4 => JsBool(true)
    case 5 => JsBool(false)
    case 6 => g[i - 1]
    case 13 => EMPTY_OBJECT
    case 14 => g[i - 1]
    case 15 => JsArray([g[i - 2], g[i]])
    case 16 => SetProperty(EMPTY_OBJECT, PairKey(g[i]), PairValue(g[i]))
    case 17 => SetProperty(g[i - 2], PairKey(g[i]), PairValue(g[i]))
    case 18 => JsArray([])
    case 19 => g[i - 1]
    case 20 => JsArray([g[i]])
    case 21 => Push(g[i - 2], g[i])
    case _ => g[i]
  }

  function JoinLocs(first: Loc, last: Loc): Loc {
    Loc(first.firstLine, first.firstColumn, last.lastLine, last.lastColumn)
  }

  function ShiftToken(c: Config, t: Token, s: nat): Config {
    Config(c.states + [s], c.symbols + [t.sym], c.vals + [JsString(t.text)], c.locs + [t.loc],
           t.text, c.next + 1, false)
  }

  function ReduceBy(c: Config, p: nat): StepResult
    requires WellStacked(c) && 1 <= p <= PRODUCTIONS
  {
    var y := |Rhs(p)|;
    if |c.symbols| < y then Halt(Crashed)
    else
      var v := PerformAction(c.text, p, c.vals);
      if p == 6 then Halt(Returned(v))
      else
        var n := |c.symbols| - y;
        var to := Table(c.states[n], Lhs(p));
        if !to.Goto? then Halt(Crashed)
        else Continue(Config(
          c.states[..n + 1] + [to.state], c.symbols[..n] + [Lhs(p)],
          c.vals[..n + 1] + [v], c.locs[..n + 1] + [JoinLocs(c.locs[n + 1], c.locs[n + y])],
          c.text, c.next, c.ahead))
  }

  /** One iteration of the loop. */
  function Step(input: seq<Token>, c: Config): (r: StepResult)
    requires WellStacked(c)
    ensures r.Continue? ==> WellStacked(r.c)
  {
    if HasDefault(Top(c)) then ReduceBy(c, 6)
    else
      var t := Lexed(input, c.next);
      match Table(Top(c), t.sym)
      case Shift(s) => Continue(ShiftToken(c, t, s))
      case Reduce(p) =>
        ReducingState(Top(c), t.sym, p);
        ReduceBy(c.(ahead := true), p)
      case Accept => Halt(ReturnedTrue)
      case _ => Halt(ParseError(c.next))
  }

  /** Tokens still to be shifted; the end marker is never shifted. */
  function Remaining(input: seq<Token>, c: Config): nat {
    if c.next <= |input| then |input| - c.next else 0
  }

  lemma EndIsNeverShifted(s: nat, x: Symbol, t: nat)
    requires Table(s, x) == Shift(t)
    ensures x != End
  {
  }

  /** Every iteration shifts a token, shortens the stack, or moves towards a list. */
  lemma StepDecreases(input: seq<Token>, c: Config)
    requires WellStacked(c) && Step(input, c).Continue?
    ensures var c' := Step(input, c).c;
      || Remaining(input, c') < Remaining(input, c)
      || (Remaining(input, c') == Remaining(input, c) && |c'.states| < |c.states|)
      || (Remaining(input, c') == Remaining(input, c) && |c'.states| == |c.states| && Rank(Top(c')) < Rank(Top(c)))
  {
    hide Table, PerformAction;
    var t := Lexed(input, c.next);
    match Table(Top(c), t.sym) {
      case Shift(s) => EndIsNeverShifted(Top(c), t.sym, s);
      case Reduce(p) =>
        ReducingState(Top(c), t.sym, p);
        RhsNonempty(p);
        var n := |c.symbols| - |Rhs(p)|;
        if |Rhs(p)| == 1 {
          UnitReduction(Top(c), t.sym, p, c.states[n], Table(c.states[n], Lhs(p)).state);
        }
      case _ =>
    }
  }

  lemma RhsNonempty(p: nat)
    requires 1 <= p <= PRODUCTIONS
    ensures 1 <= |Rhs(p)| <= 3
  {
  }

  /** The loop, run to its end. */
  function Run(input: seq<Token>, c: Config): Outcome
    requires WellStacked(c)
    decreases Remaining(input, c), |c.states|, Rank(Top(c))
  {
    var r := Step(input, c);
    if r.Halt? then r.o
    else
      StepDecreases(input, c);
      Run(input, r.c)
  }

  function ParseResult(input: seq<Token>): Outcome {
    Run(input, INITIAL)
  }

  /** `parse`: the loop over the stacks. */
  method Parse(input: seq<Token>) returns (r: Outcome)
    ensures r == ParseResult(input)
  {
    hide Table, PerformAction, Rhs, Lhs, Reducing;
    var states: seq<nat>, symbols: seq<Symbol> := [0], [];
    var vals, locs := [JsNull], [START_LOC];
    var text, next := [], 0;
    var q: seq<Token> := [];
    ghost var c := INITIAL;
    while true
      invariant c == Config(states, symbols, vals, locs, text, next, q != [])
      invariant WellStacked(c) && |q| <= 1 && (q != [] ==> q[0] == Lexed(input, next))
      invariant Run(input, c) == ParseResult(input)
      decreases Remaining(input, c), |states|, Rank(Top(c))
    {
      RunUnfold(input, c);
      ghost var step := Step(input, c);
      if step.Continue? {
        StepDecreases(input, c);
      }
      var s := states[|states| - 1];
      var action := Reduce(6);
      if !HasDefault(s) {
        if q == [] {
          q := [Lexed(input, next)];
        }
        action := Table(s, q[0].sym);
      }
      match action {
        case Shift(t) =>
          states, symbols := states + [t], symbols + [q[0].sym];
          vals, locs := vals + [JsString(q[0].text)], locs + [q[0].loc];
          text, next, q := q[0].text, next + 1, [];
        case Reduce(p) =>
          if !HasDefault(s) {
            ReducingState(s, q[0].sym, p);
          }
          RhsNonempty(p);
          var y := |Rhs(p)|;
          if |symbols| < y {
            return Crashed;
          }
          var n := |symbols| - y;
          var value := PerformAction(text, p, vals);
          if p == 6 {
            return Returned(value);
          }
          var loc := JoinLocs(locs[n + 1], locs[n + y]);
          states, symbols, vals, locs := states[..n + 1], symbols[..n] + [Lhs(p)], vals[..n + 1] + [value],
            locs[..n + 1] + [loc];
          var to := Table(states[|states| - 1], symbols[|symbols| - 1]);
          if !to.Goto? {
            return Crashed;
          }
          states := states + [to.state];
        case Accept =>
          return ReturnedTrue;
        case _ =>
          return ParseError(next);
      }
      c := step.c;
    }
  }

  lemma RunUnfold(input: seq<Token>, c: Config)
    requires WellStacked(c)
    ensures Run(input, c) == if Step(input, c).Halt? then Step(input, c).o else Run(input, Step(input, c).c)
  {
  }
}
