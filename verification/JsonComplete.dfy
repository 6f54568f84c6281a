/**
 Completeness of the linter: it accepts every JSON text and returns its value.  The proofs
 follow the syntax tree and drive the loop through the tokens the tree is spelled with.
 */
module JsonComplete {
  import opened JsonTable
  import opened JsonValues
  import opened JsonParser
  import opened JsonGrammar
  import opened JsonSound

  /** The input spells l from token n on. */
  predicate ReadsAt(input: seq<Token>, n: nat, l: seq<Lexeme>) {
    n + |l| <= |input| && Spellings(input[n..n + |l|]) == l
  }

  lemma ReadsSplit(input: seq<Token>, n: nat, l1: seq<Lexeme>, l2: seq<Lexeme>)
    requires ReadsAt(input, n, l1 + l2)
    ensures ReadsAt(input, n, l1) && ReadsAt(input, n + |l1|, l2)
  {
    var a, b := n + |l1|, n + |l1| + |l2|;
    SpellingsJoin(input, n, a, b);
    var s := Spellings(input[n..b]);
    assert s[..|l1|] == l1 && s[|l1|..] == l2;
    assert Spellings(input[n..a]) == s[..|l1|] && Spellings(input[a..b]) == s[|l1|..];
  }

  lemma ReadsOne(input: seq<Token>, n: nat, l: Lexeme)
    requires ReadsAt(input, n, [l])
    ensures Lexed(input, n).sym == l.sym
    ensures l.sym == STRING || l.sym == NUMBER ==> Lexed(input, n).text == l.text
  {
    assert Spellings(input[n..n + 1])[0] == Spelling(input[n]);
  }

  /** The stacks of c with one more entry. */
  predicate Grew(c: Config, c': Config, t: nat, x: Symbol, v: JsValue) {
    && WellStacked(c) && WellStacked(c')
    && c'.states == c.states + [t] && c'.symbols == c.symbols + [x] && c'.vals == c.vals + [v]
  }

  lemma DoShift(input: seq<Token>, c: Config, s: nat) returns (c': Config)
    requires WellStacked(c) && !HasDefault(Top(c)) && Table(Top(c), Lexed(input, c.next).sym) == Shift(s)
    ensures Grew(c, c', s, Lexed(input, c.next).sym, JsString(Lexed(input, c.next).text))
    ensures Run(input, c) == Run(input, c')
    ensures c'.next == c.next + 1 && c'.text == Lexed(input, c.next).text
  {
    hide Table;
    c' := ShiftToken(c, Lexed(input, c.next), s);
    RunUnfold(input, c);
  }

  /** A reduction on top of a base configuration. */
  lemma DoReduce(input: seq<Token>, base: Config, c: Config, p: nat, t: nat) returns (c': Config)
    requires WellStacked(base) && WellStacked(c) && !HasDefault(Top(c))
    requires Table(Top(c), Lexed(input, c.next).sym) == Reduce(p) && 1 <= p <= PRODUCTIONS && p != 6
    requires |c.symbols| == |base.symbols| + |Rhs(p)| && |Rhs(p)| >= 1
    requires c.states[..|base.states|] == base.states && c.symbols[..|base.symbols|] == base.symbols
    requires c.vals[..|base.vals|] == base.vals
    requires Table(Top(base), Lhs(p)) == Goto(t)
    ensures Grew(base, c', t, Lhs(p), PerformAction(c.text, p, c.vals))
    ensures Run(input, c) == Run(input, c')
    ensures c'.next == c.next
  {
    hide Table, Rhs, Lhs, PerformAction;
    var n := |base.symbols|;
    assert c.states[n] == c.states[..n + 1][n] == Top(base);
    var c1 := c.(ahead := true);
    c' := ReduceByShape(c1, p, n);
    RunUnfold(input, c);
    assert c'.vals == c'.vals[..n + 1] + [c'.vals[n + 1]];
  }

  /** Where the automaton goes after a value. */
  function AfterValue(s: nat): nat
    requires StartsValue(s)
  {
    if s == 0 then 2 else if s == 15 then 23 else if s == 26 then 30 else 31
  }

  lemma ValueEntries(s: nat, x: Symbol)
    requires StartsValue(s)
    ensures !HasDefault(s)
    ensures x == STRING || x == NUMBER || x == NULL || x == TRUE || x == FALSE || x == LBRACE || x == LBRACKET
      ==> Table(s, x) == ValueRow(x, AfterValue(s))
    ensures x == JSONString || x == JSONNumber || x == JSONNullLiteral || x == JSONBooleanLiteral || x == JSONObject
      || x == JSONArray || x == JSONValue
      ==> Table(s, x) == ValueRow(x, AfterValue(s))
  {
  }

  lemma ReduceEntries(s: nat, x: Symbol)
    requires Follows(x) && (3 <= s <= 13 || s == 17 || s == 21 || s == 24 || s == 27)
    ensures Table(s, x) == Reduce(Reducing(s)) && !HasDefault(s)
  {
  }

  /** The last two steps of every value: a unit production to JSONValue. */
  lemma FinishValue(input: seq<Token>, c: Config, c1: Config, x: Symbol, v: JsValue) returns (c': Config)
    requires WellStacked(c) && StartsValue(Top(c)) && Follows(Lexed(input, c1.next).sym)
    requires x == JSONString || x == JSONNumber || x == JSONNullLiteral || x == JSONBooleanLiteral || x == JSONObject
      || x == JSONArray
    requires ValueRow(x, 0).Goto? && Grew(c, c1, ValueRow(x, 0).state, x, v)
    ensures Grew(c, c', AfterValue(Top(c)), JSONValue, v) && c'.next == c1.next
    ensures Run(input, c1) == Run(input, c')
  {
    hide Table, StartsValue, AfterValue;
    var s := ValueRow(x, 0).state;
    assert 3 <= s <= 8;
    ReduceEntries(s, Lexed(input, c1.next).sym);
    ValueEntries(Top(c), JSONValue);
    UnitProduction(s);
    GrewFacts(c, c1, s, x, v);
    c' := DoReduce(input, c, c1, Reducing(s), AfterValue(Top(c)));
  }

  lemma UnitProduction(s: nat)
    requires 3 <= s <= 8
    ensures var p := Reducing(s);
      7 <= p <= 12 && |Rhs(p)| == 1 && Lhs(p) == JSONValue
      && forall text, g :: |g| >= 1 ==> PerformAction(text, p, g) == g[|g| - 1]
  {
  }

  /** The value of a literal token, by the state it is shifted into. */
  function LiteralValue(s: nat, text: Text): JsValue {
    match s
    case 9 => JsNull
    case 10 => JsBool(true)
    case 11 => JsBool(false)
    case 12 => JsString(Unescape(text))
    case _ => JsNumber(text)
  }

  lemma LiteralProduction(s: nat, c: Config)
    requires 9 <= s <= 13 && WellStacked(c) && |c.symbols| >= 1
    ensures var p := Reducing(s);
      && 1 <= p <= 5 && |Rhs(p)| == 1
      && (Lhs(p) == JSONString || Lhs(p) == JSONNumber || Lhs(p) == JSONNullLiteral || Lhs(p) == JSONBooleanLiteral)
      && ValueRow(Lhs(p), 0).Goto?
      && PerformAction(c.text, p, c.vals) == LiteralValue(s, c.text)
  {
  }

  lemma GrewFacts(c: Config, c': Config, t: nat, x: Symbol, v: JsValue)
    requires Grew(c, c', t, x, v)
    ensures WellStacked(c) && WellStacked(c') && |c'.symbols| == |c.symbols| + 1
    ensures c'.states[..|c.states|] == c.states && c'.symbols[..|c.symbols|] == c.symbols
    ensures c'.vals[..|c.vals|] == c.vals
    ensures Top(c') == t && c'.vals[|c.vals|] == v
  {
  }

  lemma LiteralEntry(s: nat, x: Symbol)
    requires StartsValue(s) && ValueRow(x, 0).Shift?
    ensures Table(s, x) == ValueRow(x, 0) && !HasDefault(s)
  {
  }

  lemma LiteralGoto(s: nat, x: Symbol)
    requires StartsValue(s)
    requires x == JSONString || x == JSONNumber || x == JSONNullLiteral || x == JSONBooleanLiteral || x == JSONObject
      || x == JSONArray
    ensures Table(s, x) == ValueRow(x, 0) && ValueRow(x, 0).Goto?
  {
  }

  lemma LiteralText(s: nat, x: Symbol, a: Text, b: Text)
    requires ValueRow(x, 0) == Shift(s) && 9 <= s <= 13
    requires x == STRING || x == NUMBER ==> a == b
    ensures LiteralValue(s, a) == LiteralValue(s, b)
  {
  }

  /** Shift a literal token and reduce it twice. */
  lemma ParseLiteral(input: seq<Token>, c: Config, l: Lexeme, s: nat) returns (c': Config)
    requires WellStacked(c) && StartsValue(Top(c)) && 9 <= s <= 13
    requires ReadsAt(input, c.next, [l]) && ValueRow(l.sym, 0) == Shift(s) && Follows(Lexed(input, c.next + 1).sym)
    ensures Grew(c, c', AfterValue(Top(c)), JSONValue, LiteralValue(s, l.text)) && c'.next == c.next + 1
    ensures Run(input, c) == Run(input, c')
  {
    hide *;
    ReadsOne(input, c.next, l);
    var t := Lexed(input, c.next);
    LiteralText(s, l.sym, t.text, l.text);
    LiteralEntry(Top(c), l.sym);
    var c1 := DoShift(input, c, s);
    GrewFacts(c, c1, s, l.sym, JsString(t.text));
    ReduceEntries(s, Lexed(input, c1.next).sym);
    var p := Reducing(s);
    LiteralProduction(s, c1);
    LiteralGoto(Top(c), Lhs(p));
    ProductionsBound(p);
    var c2 := DoReduce(input, c, c1, p, ValueRow(Lhs(p), 0).state);
    c' := FinishValue(input, c, c2, Lhs(p), LiteralValue(s, l.text));
  }

  lemma ProductionsBound(p: nat)
    requires 1 <= p <= 21
    ensures p <= PRODUCTIONS
  {
  }

  // ---- the inner part of the table ----

  lemma ObjectEntries()
    ensures Table(14, RBRACE) == Shift(17) && Table(18, RBRACE) == Shift(24) && Table(18, COMMA) == Shift(25)
    ensures Table(14, JSONMember) == Goto(19) && Table(25, JSONMember) == Goto(29)
    ensures Table(14, JSONMemberList) == Goto(18)
    ensures !HasDefault(14) && !HasDefault(18) && !HasDefault(25)
  {
  }

  lemma MemberEntries()
    ensures Table(14, STRING) == Shift(12) && Table(25, STRING) == Shift(12) && Table(12, COLON) == Reduce(1)
    ensures Table(14, JSONString) == Goto(20) && Table(25, JSONString) == Goto(20) && Table(20, COLON) == Shift(26)
    ensures !HasDefault(12) && !HasDefault(20)
  {
  }

  lemma ArrayEntries()
    ensures Table(15, RBRACKET) == Shift(21) && Table(22, COMMA) == Shift(28) && Table(22, RBRACKET) == Shift(27)
    ensures Table(15, JSONElementList) == Goto(22)
    ensures !HasDefault(15) && !HasDefault(22)
  {
  }

  lemma BracketEntries()
    ensures ValueRow(LBRACE, 0) == Shift(14) && ValueRow(LBRACKET, 0) == Shift(15)
    ensures ValueRow(JSONObject, 0) == Goto(7) && ValueRow(JSONArray, 0) == Goto(8)
    ensures Reducing(17) == 13 && Reducing(24) == 14 && Reducing(21) == 18 && Reducing(27) == 19
    ensures StartsValue(15) && StartsValue(26) && StartsValue(28) && StartsValue(0)
    ensures AfterValue(15) == 23 && AfterValue(26) == 30 && AfterValue(28) == 31 && AfterValue(0) == 2
  {
  }

  predicate EndsMember(x: Symbol) { x == RBRACE || x == COMMA }

  predicate EndsElement(x: Symbol) { x == RBRACKET || x == COMMA }

  lemma ListEntries(x: Symbol)
    ensures EndsMember(x) ==>
      Follows(x) && Table(19, x) == Reduce(16) && Table(29, x) == Reduce(17) && Table(30, x) == Reduce(15)
    ensures EndsElement(x) ==> Follows(x) && Table(23, x) == Reduce(20) && Table(31, x) == Reduce(21)
    ensures EndsMember(RBRACE) && EndsMember(COMMA) && EndsElement(RBRACKET) && EndsElement(COMMA) && Follows(EOF)
    ensures !HasDefault(19) && !HasDefault(29) && !HasDefault(30) && !HasDefault(23) && !HasDefault(31)
  {
  }

  // ---- what the actions of list and bracket productions return ----

  lemma StringAction(text: Text, g: seq<JsValue>)
    requires |g| >= 1
    ensures 1 <= PRODUCTIONS && |Rhs(1)| == 1 && Lhs(1) == JSONString
    ensures PerformAction(text, 1, g) == JsString(Unescape(text))
  {
  }

  lemma EmptyAction(text: Text, g: seq<JsValue>)
    requires |g| >= 2
    ensures PRODUCTIONS == 21 && |Rhs(13)| == 2 && Lhs(13) == JSONObject && |Rhs(18)| == 2 && Lhs(18) == JSONArray
    ensures PerformAction(text, 13, g) == EvalMembers(NoMembers)
    ensures PerformAction(text, 18, g) == JsArray(EvalElements(NoElements))
  {
  }

  lemma BracketAction(text: Text, g: seq<JsValue>)
    requires |g| >= 3
    ensures PRODUCTIONS == 21 && |Rhs(14)| == 3 && Lhs(14) == JSONObject && |Rhs(19)| == 3 && Lhs(19) == JSONArray
    ensures PerformAction(text, 14, g) == g[|g| - 2] && PerformAction(text, 19, g) == g[|g| - 2]
  {
  }

  lemma MemberAction(text: Text, g: seq<JsValue>)
    requires |g| >= 3
    ensures PRODUCTIONS == 21 && |Rhs(15)| == 3 && Lhs(15) == JSONMember
    ensures PerformAction(text, 15, g) == JsArray([g[|g| - 3], g[|g| - 1]])
  {
  }

  lemma FirstMemberAction(text: Text, g: seq<JsValue>, key: Text, val: Json)
    requires |g| >= 1 && g[|g| - 1] == JsArray([JsString(Unescape(key)), Eval(val)])
    ensures PRODUCTIONS == 21 && |Rhs(16)| == 1 && Lhs(16) == JSONMemberList
    ensures PerformAction(text, 16, g) == EvalMembers(AddMember(NoMembers, key, val))
  {
  }

  lemma NextMemberAction(text: Text, g: seq<JsValue>, init: Members, key: Text, val: Json)
    requires |g| >= 3 && g[|g| - 3] == EvalMembers(init)
    requires g[|g| - 1] == JsArray([JsString(Unescape(key)), Eval(val)])
    ensures PRODUCTIONS == 21 && |Rhs(17)| == 3 && Lhs(17) == JSONMemberList
    ensures PerformAction(text, 17, g) == EvalMembers(AddMember(init, key, val))
  {
  }

  lemma FirstElementAction(text: Text, g: seq<JsValue>, val: Json)
    requires |g| >= 1 && g[|g| - 1] == Eval(val)
    ensures PRODUCTIONS == 21 && |Rhs(20)| == 1 && Lhs(20) == JSONElementList
    ensures PerformAction(text, 20, g) == JsArray(EvalElements(AddElement(NoElements, val)))
  {
    assert [] + [Eval(val)] == [Eval(val)];
  }

  lemma NextElementAction(text: Text, g: seq<JsValue>, init: Elements, val: Json)
    requires |g| >= 3 && g[|g| - 3] == JsArray(EvalElements(init)) && g[|g| - 1] == Eval(val)
    ensures PRODUCTIONS == 21 && |Rhs(21)| == 3 && Lhs(21) == JSONElementList
    ensures PerformAction(text, 21, g) == JsArray(EvalElements(AddElement(init, val)))
  {
  }

  /** Two entries on top of c. */
  lemma Grew2Facts(c: Config, c1: Config, c2: Config, t1: nat, x1: Symbol, v1: JsValue, t2: nat, x2: Symbol,
    v2: JsValue)
    requires Grew(c, c1, t1, x1, v1) && Grew(c1, c2, t2, x2, v2)
    ensures WellStacked(c) && WellStacked(c2)
    ensures |c2.symbols| == |c.symbols| + 2 && |c2.vals| == |c.vals| + 2 >= 3
    ensures c2.states[..|c.states|] == c.states && c2.symbols[..|c.symbols|] == c.symbols
    ensures c2.vals[..|c.vals|] == c.vals
    ensures Top(c1) == t1 && Top(c2) == t2
  {
  }

  /** Three entries on top of c. */
  lemma Grew3Facts(c: Config, c1: Config, c2: Config, c3: Config, t1: nat, x1: Symbol, v1: JsValue,
                   t2: nat, x2: Symbol, v2: JsValue, t3: nat, x3: Symbol, v3: JsValue)
    requires Grew(c, c1, t1, x1, v1) && Grew(c1, c2, t2, x2, v2) && Grew(c2, c3, t3, x3, v3)
    ensures WellStacked(c) && WellStacked(c3)
    ensures |c3.symbols| == |c.symbols| + 3 && |c3.vals| == |c.vals| + 3 >= 4
    ensures c3.states[..|c.states|] == c.states && c3.symbols[..|c.symbols|] == c.symbols
    ensures c3.vals[..|c.vals|] == c.vals
    ensures Top(c1) == t1 && Top(c2) == t2 && Top(c3) == t3
    ensures c3.vals[|c3.vals| - 3] == v1 && c3.vals[|c3.vals| - 2] == v2 && c3.vals[|c3.vals| - 1] == v3
  {
  }

  // ---- driving the loop through a syntax tree ----

  lemma ParseValue(input: seq<Token>, c: Config, j: Json) returns (c': Config)
    requires WellStacked(c) && StartsValue(Top(c))
    requires ReadsAt(input, c.next, Yield(j)) && Follows(Lexed(input, c.next + |Yield(j)|).sym)
    ensures Grew(c, c', AfterValue(Top(c)), JSONValue, Eval(j)) && c'.next == c.next + |Yield(j)|
    ensures Run(input, c) == Run(input, c')
    decreases j, 0
  {
    match j {
      case Str(text) => c' := ParseLiteral(input, c, Lexeme(STRING, text), 12);
      case Num(text) => c' := ParseLiteral(input, c, Lexeme(NUMBER, text), 13);
      case Null => c' := ParseLiteral(input, c, Plain(NULL), 9);
      case True => c' := ParseLiteral(input, c, Plain(TRUE), 10);
      case False => c' := ParseLiteral(input, c, Plain(FALSE), 11);
      case Obj(ms) => c' := ParseObject(input, c, ms);
      case Arr(es) => c' := ParseArray(input, c, es);
    }
  }

  lemma ParseMember(input: seq<Token>, c: Config, key: Text, val: Json) returns (c': Config)
    requires WellStacked(c) && (Top(c) == 14 || Top(c) == 25)
    requires ReadsAt(input, c.next, YieldMember(key, val))
    requires EndsMember(Lexed(input, c.next + |YieldMember(key, val)|).sym)
    ensures Grew(c, c', if Top(c) == 14 then 19 else 29, JSONMember, JsArray([JsString(Unescape(key)), Eval(val)]))
    ensures c'.next == c.next + |YieldMember(key, val)|
    ensures Run(input, c) == Run(input, c')
    decreases val, 1
  {
    hide *;
    MemberReads(input, c.next, key, val);
    ObjectEntries();
    MemberEntries();
    BracketEntries();
    var c1 := DoShift(input, c, 12);
    GrewFacts(c, c1, 12, STRING, JsString(key));
    StringAction(c1.text, c1.vals);
    var c2 := DoReduce(input, c, c1, 1, 20);
    GrewFacts(c, c2, 20, JSONString, JsString(Unescape(key)));
    var c3 := DoShift(input, c2, 26);
    GrewFacts(c2, c3, 26, COLON, JsString(Lexed(input, c2.next).text));
    ListEntries(Lexed(input, c.next + |YieldMember(key, val)|).sym);
    var c4 := ParseValue(input, c3, val);
    Grew3Facts(c, c2, c3, c4, 20, JSONString, JsString(Unescape(key)), 26, COLON, JsString(Lexed(input, c2.next).text),
      30, JSONValue, Eval(val));
    MemberAction(c4.text, c4.vals);
    c' := DoReduce(input, c, c4, 15, if Top(c) == 14 then 19 else 29);
  }

  lemma MemberReads(input: seq<Token>, n: nat, key: Text, val: Json)
    requires ReadsAt(input, n, YieldMember(key, val))
    ensures Lexed(input, n).sym == STRING && Lexed(input, n).text == key && Lexed(input, n + 1).sym == COLON
    ensures ReadsAt(input, n + 2, Yield(val)) && |YieldMember(key, val)| == 2 + |Yield(val)|
  {
    hide ReadsAt, Yield;
    ReadsSplit(input, n, [Lexeme(STRING, key)] + [Plain(COLON)], Yield(val));
    ReadsSplit(input, n, [Lexeme(STRING, key)], [Plain(COLON)]);
    ReadsOne(input, n, Lexeme(STRING, key));
    ReadsOne(input, n + 1, Plain(COLON));
  }

  lemma ParseObject(input: seq<Token>, c: Config, ms: Members) returns (c': Config)
    requires WellStacked(c) && StartsValue(Top(c))
    requires ReadsAt(input, c.next, Yield(Obj(ms))) && Follows(Lexed(input, c.next + |Yield(Obj(ms))|).sym)
    ensures Grew(c, c', AfterValue(Top(c)), JSONValue, Eval(Obj(ms))) && c'.next == c.next + |Yield(Obj(ms))|
    ensures Run(input, c) == Run(input, c')
    decreases ms, 2
  {
    hide *;
    ObjectReads(input, c.next, ms);
    BracketEntries();
    ObjectEntries();
    LiteralEntry(Top(c), LBRACE);
    LiteralGoto(Top(c), JSONObject);
    var open, n := JsString(Lexed(input, c.next).text), c.next + 1 + |YieldMembers(ms)|;
    var close := JsString(Lexed(input, n).text);
    ReduceEntries(17, Lexed(input, n + 1).sym);
    ReduceEntries(24, Lexed(input, n + 1).sym);
    ListEntries(RBRACE);
    var c1 := DoShift(input, c, 14);
    GrewFacts(c, c1, 14, LBRACE, open);
    var c3: Config;
    if ms == NoMembers {
      var c2 := DoShift(input, c1, 17);
      Grew2Facts(c, c1, c2, 14, LBRACE, open, 17, RBRACE, close);
      EmptyAction(c2.text, c2.vals);
      c3 := DoReduce(input, c, c2, 13, 7);
    } else {
      var l := ParseMembers(input, c1, ms);
      GrewFacts(c1, l, 18, JSONMemberList, EvalMembers(ms));
      var c2 := DoShift(input, l, 24);
      Grew3Facts(c, c1, l, c2, 14, LBRACE, open, 18, JSONMemberList, EvalMembers(ms), 24, RBRACE, close);
      BracketAction(c2.text, c2.vals);
      c3 := DoReduce(input, c, c2, 14, 7);
    }
    c' := FinishValue(input, c, c3, JSONObject, EvalMembers(ms));
    EvalContainers(ms, NoElements);
  }

  lemma EvalContainers(ms: Members, es: Elements)
    ensures Eval(Obj(ms)) == EvalMembers(ms) && Eval(Arr(es)) == JsArray(EvalElements(es))
  {
  }

  lemma ObjectReads(input: seq<Token>, n: nat, ms: Members)
    requires ReadsAt(input, n, Yield(Obj(ms)))
    ensures var k := |YieldMembers(ms)|;
      && Lexed(input, n).sym == LBRACE && ReadsAt(input, n + 1, YieldMembers(ms))
        && Lexed(input, n + 1 + k).sym == RBRACE
      && |Yield(Obj(ms))| == k + 2 && (ms == NoMembers ==> k == 0)
  {
    hide ReadsAt;
    ReadsSplit(input, n, [Plain(LBRACE)] + YieldMembers(ms), [Plain(RBRACE)]);
    ReadsSplit(input, n, [Plain(LBRACE)], YieldMembers(ms));
    ReadsOne(input, n, Plain(LBRACE));
    ReadsOne(input, n + 1 + |YieldMembers(ms)|, Plain(RBRACE));
  }

  lemma ParseMembers(input: seq<Token>, c: Config, ms: Members) returns (c': Config)
    requires WellStacked(c) && Top(c) == 14 && ms != NoMembers
    requires ReadsAt(input, c.next, YieldMembers(ms))
    requires EndsMember(Lexed(input, c.next + |YieldMembers(ms)|).sym)
    ensures Grew(c, c', 18, JSONMemberList, EvalMembers(ms)) && c'.next == c.next + |YieldMembers(ms)|
    ensures Run(input, c) == Run(input, c')
    decreases ms, 0
  {
    hide *;
    var AddMember(init, key, val) := ms;
    var pair := JsArray([JsString(Unescape(key)), Eval(val)]);
    ObjectEntries();
    ListEntries(Lexed(input, c.next + |YieldMembers(ms)|).sym);
    ListEntries(COMMA);
    MembersReads(input, c.next, init, key, val);
    if init == NoMembers {
      var c1 := ParseMember(input, c, key, val);
      GrewFacts(c, c1, 19, JSONMember, pair);
      FirstMemberAction(c1.text, c1.vals, key, val);
      c' := DoReduce(input, c, c1, 16, 18);
    } else {
      var c1 := ParseMembers(input, c, init);
      c' := ParseNextMember(input, c, c1, init, key, val);
    }
  }

  lemma ParseNextMember(input: seq<Token>, c: Config, c1: Config, init: Members, key: Text, val: Json)
    returns (c': Config)
    requires WellStacked(c) && Top(c) == 14 && Grew(c, c1, 18, JSONMemberList, EvalMembers(init))
    requires Lexed(input, c1.next).sym == COMMA && ReadsAt(input, c1.next + 1, YieldMember(key, val))
    requires EndsMember(Lexed(input, c1.next + 1 + |YieldMember(key, val)|).sym)
    ensures Grew(c, c', 18, JSONMemberList, EvalMembers(AddMember(init, key, val)))
    ensures c'.next == c1.next + 1 + |YieldMember(key, val)|
    ensures Run(input, c1) == Run(input, c')
    decreases val, 2
  {
    hide *;
    var pair := JsArray([JsString(Unescape(key)), Eval(val)]);
    ObjectEntries();
    ListEntries(Lexed(input, c1.next + 1 + |YieldMember(key, val)|).sym);
    ListEntries(COMMA);
    GrewFacts(c, c1, 18, JSONMemberList, EvalMembers(init));
    var comma := JsString(Lexed(input, c1.next).text);
    var c2 := DoShift(input, c1, 25);
    GrewFacts(c1, c2, 25, COMMA, comma);
    var c3 := ParseMember(input, c2, key, val);
    Grew3Facts(c, c1, c2, c3, 18, JSONMemberList, EvalMembers(init), 25, COMMA, comma, 29, JSONMember, pair);
    NextMemberAction(c3.text, c3.vals, init, key, val);
    c' := DoReduce(input, c, c3, 17, 18);
  }

  lemma MembersReads(input: seq<Token>, n: nat, init: Members, key: Text, val: Json)
    requires ReadsAt(input, n, YieldMembers(AddMember(init, key, val)))
    ensures var k, m, all := |YieldMembers(init)|, |YieldMember(key, val)|, |YieldMembers(AddMember(init, key, val))|;
      && (init == NoMembers ==> all == m && ReadsAt(input, n, YieldMember(key, val)))
      && (init != NoMembers ==>
        && all == k + 1 + m && ReadsAt(input, n, YieldMembers(init)) && Lexed(input, n + k).sym == COMMA
        && ReadsAt(input, n + k + 1, YieldMember(key, val)))
  {
    hide ReadsAt, YieldMember, YieldMembers, Plain;
    MembersUnfold(init, key, val);
    if init != NoMembers {
      ReadsList(input, n, YieldMembers(init), YieldMember(key, val));
    }
  }

  lemma MembersUnfold(init: Members, key: Text, val: Json)
    ensures YieldMembers(AddMember(init, key, val)) ==
      if init == NoMembers then YieldMember(key, val) else YieldMembers(init) + [Plain(COMMA)] + YieldMember(key, val)
  {
  }

  lemma ReadsList(input: seq<Token>, n: nat, l1: seq<Lexeme>, l2: seq<Lexeme>)
    requires ReadsAt(input, n, l1 + [Plain(COMMA)] + l2)
    ensures ReadsAt(input, n, l1) && Lexed(input, n + |l1|).sym == COMMA && ReadsAt(input, n + |l1| + 1, l2)
  {
    hide ReadsAt;
    ReadsSplit(input, n, l1 + [Plain(COMMA)], l2);
    ReadsSplit(input, n, l1, [Plain(COMMA)]);
    ReadsOne(input, n + |l1|, Plain(COMMA));
  }

  lemma ParseArray(input: seq<Token>, c: Config, es: Elements) returns (c': Config)
    requires WellStacked(c) && StartsValue(Top(c))
    requires ReadsAt(input, c.next, Yield(Arr(es))) && Follows(Lexed(input, c.next + |Yield(Arr(es))|).sym)
    ensures Grew(c, c', AfterValue(Top(c)), JSONValue, Eval(Arr(es))) && c'.next == c.next + |Yield(Arr(es))|
    ensures Run(input, c) == Run(input, c')
    decreases es, 2
  {
    hide *;
    ArrayReads(input, c.next, es);
    BracketEntries();
    ArrayEntries();
    LiteralEntry(Top(c), LBRACKET);
    LiteralGoto(Top(c), JSONArray);
    var open, n := JsString(Lexed(input, c.next).text), c.next + 1 + |YieldElements(es)|;
    var close := JsString(Lexed(input, n).text);
    ReduceEntries(21, Lexed(input, n + 1).sym);
    ReduceEntries(27, Lexed(input, n + 1).sym);
    ListEntries(RBRACKET);
    var c1 := DoShift(input, c, 15);
    GrewFacts(c, c1, 15, LBRACKET, open);
    var c3: Config;
    if es == NoElements {
      var c2 := DoShift(input, c1, 21);
      Grew2Facts(c, c1, c2, 15, LBRACKET, open, 21, RBRACKET, close);
      EmptyAction(c2.text, c2.vals);
      c3 := DoReduce(input, c, c2, 18, 8);
    } else {
      var l := ParseElements(input, c1, es);
      GrewFacts(c1, l, 22, JSONElementList, JsArray(EvalElements(es)));
      var c2 := DoShift(input, l, 27);
      Grew3Facts(c, c1, l, c2, 15, LBRACKET, open, 22, JSONElementList, JsArray(EvalElements(es)), 27, RBRACKET, close);
      BracketAction(c2.text, c2.vals);
      c3 := DoReduce(input, c, c2, 19, 8);
    }
    c' := FinishValue(input, c, c3, JSONArray, JsArray(EvalElements(es)));
    EvalContainers(NoMembers, es);
  }

  lemma ArrayReads(input: seq<Token>, n: nat, es: Elements)
    requires ReadsAt(input, n, Yield(Arr(es)))
    ensures var k := |YieldElements(es)|;
      && Lexed(input, n).sym == LBRACKET && ReadsAt(input, n + 1, YieldElements(es))
        && Lexed(input, n + 1 + k).sym == RBRACKET
      && |Yield(Arr(es))| == k + 2 && (es == NoElements ==> k == 0)
  {
    hide ReadsAt;
    ReadsSplit(input, n, [Plain(LBRACKET)] + YieldElements(es), [Plain(RBRACKET)]);
    ReadsSplit(input, n, [Plain(LBRACKET)], YieldElements(es));
    ReadsOne(input, n, Plain(LBRACKET));
    ReadsOne(input, n + 1 + |YieldElements(es)|, Plain(RBRACKET));
  }

  lemma ParseElements(input: seq<Token>, c: Config, es: Elements) returns (c': Config)
    requires WellStacked(c) && Top(c) == 15 && es != NoElements
    requires ReadsAt(input, c.next, YieldElements(es))
    requires EndsElement(Lexed(input, c.next + |YieldElements(es)|).sym)
    ensures Grew(c, c', 22, JSONElementList, JsArray(EvalElements(es))) && c'.next == c.next + |YieldElements(es)|
    ensures Run(input, c) == Run(input, c')
    decreases es, 0
  {
    hide *;
    var AddElement(init, val) := es;
    ArrayEntries();
    BracketEntries();
    ListEntries(Lexed(input, c.next + |YieldElements(es)|).sym);
    ListEntries(COMMA);
    ElementsReads(input, c.next, init, val);
    if init == NoElements {
      var c1 := ParseValue(input, c, val);
      GrewFacts(c, c1, 23, JSONValue, Eval(val));
      FirstElementAction(c1.text, c1.vals, val);
      c' := DoReduce(input, c, c1, 20, 22);
    } else {
      var c1 := ParseElements(input, c, init);
      c' := ParseNextElement(input, c, c1, init, val);
    }
  }

  lemma ParseNextElement(input: seq<Token>, c: Config, c1: Config, init: Elements, val: Json) returns (c': Config)
    requires WellStacked(c) && Top(c) == 15 && Grew(c, c1, 22, JSONElementList, JsArray(EvalElements(init)))
    requires Lexed(input, c1.next).sym == COMMA && ReadsAt(input, c1.next + 1, Yield(val))
    requires EndsElement(Lexed(input, c1.next + 1 + |Yield(val)|).sym)
    ensures Grew(c, c', 22, JSONElementList, JsArray(EvalElements(AddElement(init, val))))
    ensures c'.next == c1.next + 1 + |Yield(val)|
    ensures Run(input, c1) == Run(input, c')
    decreases val, 1
  {
    hide *;
    ArrayEntries();
    BracketEntries();
    ListEntries(Lexed(input, c1.next + 1 + |Yield(val)|).sym);
    GrewFacts(c, c1, 22, JSONElementList, JsArray(EvalElements(init)));
    var comma := JsString(Lexed(input, c1.next).text);
    var c2 := DoShift(input, c1, 28);
    GrewFacts(c1, c2, 28, COMMA, comma);
    var c3 := ParseValue(input, c2, val);
    Grew3Facts(c, c1, c2, c3, 22, JSONElementList, JsArray(EvalElements(init)), 28, COMMA, comma, 31, JSONValue,
      Eval(val));
    NextElementAction(c3.text, c3.vals, init, val);
    c' := DoReduce(input, c, c3, 21, 22);
  }

  lemma ElementsReads(input: seq<Token>, n: nat, init: Elements, val: Json)
    requires ReadsAt(input, n, YieldElements(AddElement(init, val)))
    ensures var k, m, all := |YieldElements(init)|, |Yield(val)|, |YieldElements(AddElement(init, val))|;
      && (init == NoElements ==> all == m && ReadsAt(input, n, Yield(val)))
      && (init != NoElements ==>
        && all == k + 1 + m && ReadsAt(input, n, YieldElements(init)) && Lexed(input, n + k).sym == COMMA
        && ReadsAt(input, n + k + 1, Yield(val)))
  {
    hide ReadsAt, Yield, YieldElements, Plain;
    ElementsUnfold(init, val);
    if init != NoElements {
      ReadsList(input, n, YieldElements(init), Yield(val));
    }
  }

  lemma ElementsUnfold(init: Elements, val: Json)
    ensures YieldElements(AddElement(init, val)) ==
      if init == NoElements then Yield(val) else YieldElements(init) + [Plain(COMMA)] + Yield(val)
  {
  }

  // ---- the theorems ----

  /** Every JSON text is accepted with its value, whatever follows the end-of-input token. */
  lemma ParseComplete(input: seq<Token>, j: Json)
    requires ReadsAt(input, 0, Yield(j) + [Plain(EOF)])
    ensures ParseResult(input) == Returned(Eval(j))
  {
    hide ReadsAt, Yield, Eval, Run;
    ReadsSplit(input, 0, Yield(j), [Plain(EOF)]);
    ReadsOne(input, |Yield(j)|, Plain(EOF));
    ListEntries(EOF);
    var c1 := ParseValue(input, INITIAL, j);
    GrewFacts(INITIAL, c1, 2, JSONValue, Eval(j));
    var c2 := DoShift(input, c1, 16);
    var eof := JsString(Lexed(input, |Yield(j)|).text);
    Grew2Facts(INITIAL, c1, c2, 2, JSONValue, Eval(j), 16, EOF, eof);
    RunUnfold(input, c2);
    assert c2.vals == [JsNull, Eval(j), eof];
  }

  /** The linter returns v exactly when the input starts with a JSON text of value v and EOF. */
  lemma ParseCorrect(input: seq<Token>, v: JsValue)
    ensures ParseResult(input) == Returned(v) <==> exists n: nat, j :: Denotes(input, n, j, v)
  {
    hide Yield, Eval, Run;
    ParseSound(input);
    if exists n: nat, j :: Denotes(input, n, j, v) {
      var n: nat, j :| Denotes(input, n, j, v);
      assert |Spellings(input[..n])| == n;
      assert input[0..0 + n] == input[..n];
      ParseComplete(input, j);
    }
  }

  /** Two JSON texts with the same tokens have the same value. */
  lemma SpellingDeterminesValue(i: Json, j: Json)
    requires Yield(i) == Yield(j)
    ensures Eval(i) == Eval(j)
  {
    hide Yield, Eval, Run;
    var l := Yield(i) + [Plain(EOF)];
    var input := seq(|l|, k requires 0 <= k < |l| => Token(l[k].sym, l[k].text, START_LOC));
    YieldSpelled(i);
    assert input[0..0 + |l|] == input;
    assert Spellings(input) == l;
    ParseComplete(input, i);
    ParseComplete(input, j);
  }

  predicate Spelled(l: seq<Lexeme>) {
    forall k :: 0 <= k < |l| ==> (l[k].sym != STRING && l[k].sym != NUMBER ==> l[k].text == [])
  }

  lemma YieldSpelled(j: Json)
    ensures Spelled(Yield(j))
    decreases j, 0
  {
    match j {
      case Obj(ms) => YieldMembersSpelled(ms);
      case Arr(es) => YieldElementsSpelled(es);
      case _ =>
    }
  }

  lemma YieldMembersSpelled(ms: Members)
    ensures Spelled(YieldMembers(ms))
    decreases ms, 0
  {
    if ms.AddMember? {
      YieldMembersSpelled(ms.init);
      YieldSpelled(ms.val);
    }
  }

  lemma YieldElementsSpelled(es: Elements)
    ensures Spelled(YieldElements(es))
    decreases es, 0
  {
    if es.AddElement? {
      YieldElementsSpelled(es.init);
      YieldSpelled(es.val);
    }
  }
}
