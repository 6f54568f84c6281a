/**
 The LALR automaton of the JSON linter: symbols, productions and the 32-state table.
 */
module JsonTable {

  /** Grammar symbols; `End` is what the lexer returns after the end of the input. */
  datatype Symbol =
    | STRING | NUMBER | NULL | TRUE | FALSE | EOF
    | LBRACE | RBRACE | LBRACKET | RBRACKET | COLON | COMMA
    | End | Invalid
    | JSONString | JSONNumber | JSONNullLiteral | JSONBooleanLiteral
    | JSONText | JSONValue | JSONObject | JSONArray
    | JSONMemberList | JSONMember | JSONElementList

  datatype Action = Error | Shift(state: nat) | Reduce(production: nat) | Accept | Goto(state: nat)

  const PRODUCTIONS: nat := 21

  /** Left-hand sides of productions 1 to 21. */
  function Lhs(p: nat): Symbol {
    match p
    case 1 => JSONString
    case 2 => JSONNumber
    case 3 => JSONNullLiteral
    case 4 => JSONBooleanLiteral
    case 5 => JSONBooleanLiteral
    case 6 => JSONText
    case 13 => JSONObject
    case 14 => JSONObject
    case 15 => JSONMember
    case 16 => JSONMemberList
    case 17 => JSONMemberList
    case 18 => JSONArray
    case 19 => JSONArray
    case 20 => JSONElementList
    case 21 => JSONElementList
    case _ => JSONValue
  }

  /** Right-hand sides, as the grammar has them; the table records only their lengths. */
  function Rhs(p: nat): seq<Symbol> {
    match p
    case 1 => [STRING]
    case 2 => [NUMBER]
    case 3 => [NULL]
    case 4 => [TRUE]
    case 5 => [FALSE]
    case 6 => [JSONValue, EOF]
    case 7 => [JSONNullLiteral]
    case 8 => [JSONBooleanLiteral]
    case 9 => [JSONString]
    case 10 => [JSONNumber]
    case 11 => [JSONObject]
    case 12 => [JSONArray]
    case 13 => [LBRACE, RBRACE]
    case 14 => [LBRACE, JSONMemberList, RBRACE]
    case 15 => [JSONString, COLON, JSONValue]
    case 16 => [JSONMember]
    case 17 => [JSONMemberList, COMMA, JSONMember]
    case 18 => [LBRACKET, RBRACKET]
    case 19 => [LBRACKET, JSONElementList, RBRACKET]
    case 20 => [JSONValue]
    case 21 => [JSONElementList, COMMA, JSONValue]
    case _ => []
  }

  /** The part shared by states 0, 15, 26 and 28, in which a value may start. */
  function ValueRow(x: Symbol, afterValue: nat): Action {
    match x
    case STRING => Shift(12)
    case NUMBER => Shift(13)
    case NULL => Shift(9)
    case TRUE => Shift(10)
    case FALSE => Shift(11)
    case LBRACE => Shift(14)
    case LBRACKET => Shift(15)
    case JSONString => Goto(5)
    case JSONNumber => Goto(6)
    case JSONNullLiteral => Goto(3)
    case JSONBooleanLiteral => Goto(4)
    case JSONObject => Goto(7)
    case JSONArray => Goto(8)
    case JSONValue => Goto(afterValue)
    case _ => Error
  }

  /** The entries of states 0, 1, 2, 14, 15, 18, 20, 22, 25, 26 and 28, which never reduce. */
  function Transition(s: nat, x: Symbol): Action {
    match s
    case 0 => if x == JSONText then Goto(1) else ValueRow(x, 2)
    case 1 => if x == End then Accept else Error
    case 2 => if x == EOF then Shift(16) else Error
    case 14 =>
      if x == STRING then Shift(12) else if x == RBRACE then Shift(17)
      else if x == JSONString then Goto(20) else if x == JSONMemberList then Goto(18)
      else if x == JSONMember then Goto(19) else Error
    case 15 =>
      if x == RBRACKET then Shift(21) else if x == JSONElementList then Goto(22) else ValueRow(x, 23)
    case 18 => if x == RBRACE then Shift(24) else if x == COMMA then Shift(25) else Error
    case 20 => if x == COLON then Shift(26) else Error
    case 22 => if x == COMMA then Shift(28) else if x == RBRACKET then Shift(27) else Error
    case 25 =>
      if x == STRING then Shift(12) else if x == JSONString then Goto(20)
      else if x == JSONMember then Goto(29) else Error
    case 26 => ValueRow(x, 30)
    case 28 => ValueRow(x, 31)
    case _ => Error
  }

  /** The production by which the other states reduce; 0 for the states above. */
  function Reducing(s: nat): nat {
    match s
    case 3 => 7
    case 4 => 8
    case 5 => 9
    case 6 => 10
    case 7 => 11
    case 8 => 12
    case 9 => 3
    case 10 => 4
    case 11 => 5
    case 12 => 1
    case 13 => 2
    case 16 => 6
    case 17 => 13
    case 19 => 16
    case 21 => 18
    case 23 => 20
    case 24 => 14
    case 27 => 19
    case 29 => 17
    case 30 => 15
    case 31 => 21
    case _ => 0
  }

  /** A finished value can be followed by these. */
  predicate Follows(x: Symbol) {
    x == EOF || x == RBRACE || x == COMMA || x == RBRACKET
  }

  /** The symbols on which a reducing state has its entry. */
  predicate Lookahead(s: nat, x: Symbol) {
    if s == 12 then x == COLON || Follows(x)
    else if s == 16 then x == End
    else if s == 19 || s == 29 || s == 30 then x == RBRACE || x == COMMA
    else if s == 23 || s == 31 then x == RBRACKET || x == COMMA
    else Follows(x)
  }

  /** The parse table; a missing entry is an error. */
  function Table(s: nat, x: Symbol): Action {
    if Reducing(s) == 0 then Transition(s, x)
    else if Lookahead(s, x) then Reduce(Reducing(s))
    else Error
  }

  /** The only default action: state 16 reduces by production 6 without looking ahead. */
  predicate HasDefault(s: nat) {
    s == 16
  }

  /** State t can be entered from state s by symbol x. */
  predicate Edge(s: nat, x: Symbol, t: nat) {
    Table(s, x) == Shift(t) || Table(s, x) == Goto(t)
  }

  /** The symbol every edge into a state carries. */
  function Accessing(t: nat): Symbol {
    match t
    case 1 => JSONText
    case 2 => JSONValue
    case 3 => JSONNullLiteral
    case 4 => JSONBooleanLiteral
    case 5 => JSONString
    case 6 => JSONNumber
    case 7 => JSONObject
    case 8 => JSONArray
    case 9 => NULL
    case 10 => TRUE
    case 11 => FALSE
    case 12 => STRING
    case 13 => NUMBER
    case 14 => LBRACE
    case 15 => LBRACKET
    case 16 => EOF
    case 17 => RBRACE
    case 18 => JSONMemberList
    case 19 => JSONMember
    case 20 => JSONString
    case 21 => RBRACKET
    case 22 => JSONElementList
    case 23 => JSONValue
    case 24 => RBRACE
    case 25 => COMMA
    case 26 => COLON
    case 27 => RBRACKET
    case 28 => COMMA
    case 29 => JSONMember
    case 30 => JSONValue
    case _ => JSONValue
  }

  /** The states with an edge into t, where that matters. */
  predicate MayPrecede(s: nat, t: nat) {
    match t
    case 1 => s == 0
    case 2 => s == 0
    case 16 => s == 2
    case 17 => s == 14
    case 18 => s == 14
    case 19 => s == 14
    case 20 => s == 14 || s == 25
    case 21 => s == 15
    case 22 => s == 15
    case 23 => s == 15
    case 24 => s == 18
    case 25 => s == 18
    case 26 => s == 20
    case 27 => s == 22
    case 28 => s == 22
    case 29 => s == 25
    case 30 => s == 26
    case 31 => s == 28
    case 12 => StartsValue(s) || s == 14 || s == 25
    case _ => 1 <= t <= 31 && StartsValue(s)
  }

  /** The states in which a value is expected. */
  predicate StartsValue(s: nat) {
    s == 0 || s == 15 || s == 26 || s == 28
  }

  /** Edges carry their target's accessing symbol, and few states lead to an inner state. */
  lemma EdgeShape(s: nat, x: Symbol, t: nat)
    requires Edge(s, x, t)
    ensures 1 <= t <= 31 && x == Accessing(t) && MayPrecede(s, t)
  {
    if s == 0 || s == 26 || s == 28 {
      ValueEdge(x, if s == 0 then 2 else if s == 26 then 30 else 31, t, s);
    } else if s == 15 {
      ValueEdge(x, 23, t, s);
    } else {
      InnerEdge(s, x, t);
    }
  }

  lemma ValueEdge(x: Symbol, after: nat, t: nat, s: nat)
    requires (s == 0 && after == 2) || (s == 26 && after == 30) || (s == 28 && after == 31) || (s == 15 && after == 23)
    requires ValueRow(x, after) == Shift(t) || ValueRow(x, after) == Goto(t)
      || (s == 0 && x == JSONText && t == 1)
      || (s == 15 && ((x == RBRACKET && t == 21) || (x == JSONElementList && t == 22)))
    ensures 1 <= t <= 31 && x == Accessing(t) && MayPrecede(s, t)
  {
  }

  lemma InnerEdge(s: nat, x: Symbol, t: nat)
    requires Edge(s, x, t) && s != 0 && s != 15 && s != 26 && s != 28
    ensures 1 <= t <= 31 && x == Accessing(t) && MayPrecede(s, t)
  {
    hide Accessing, MayPrecede, Reducing;
    assert s == 2 || s == 14 || s == 18 || s == 20 || s == 22 || s == 25;
    if s == 14 || s == 25 {
      MemberTargets(s, x, t);
    } else {
      PunctuationTargets(s, x, t);
    }
  }

  /** Where only punctuation or the end may follow. */
  lemma PunctuationTargets(s: nat, x: Symbol, t: nat)
    requires Edge(s, x, t) && (s == 2 || s == 18 || s == 20 || s == 22)
    ensures 1 <= t <= 31 && x == Accessing(t) && MayPrecede(s, t)
  {
  }

  /** Where a member may start. */
  lemma MemberTargets(s: nat, x: Symbol, t: nat)
    requires Edge(s, x, t) && (s == 14 || s == 25)
    ensures 1 <= t <= 31 && x == Accessing(t) && MayPrecede(s, t)
  {
  }

  lemma ReducingState(s: nat, x: Symbol, p: nat)
    requires Table(s, x) == Reduce(p)
    ensures p == Reducing(s) && 1 <= p <= PRODUCTIONS && Lookahead(s, x)
  {
    TransitionShape(s, x);
  }

  lemma TransitionShape(s: nat, x: Symbol)
    ensures !Transition(s, x).Reduce?
  {
  }

  /** A path of edges into a reducing state spells its production, and the reduction can go on. */
  lemma ReducingPath1(s0: nat, x1: Symbol, s1: nat)
    requires Edge(s0, x1, s1) && |Rhs(Reducing(s1))| == 1
    ensures Rhs(Reducing(s1)) == [x1] && Table(s0, Lhs(Reducing(s1))).Goto?
  {
    hide Edge;
    EdgeShape(s0, x1, s1);
    GotoUnit(s0, s1);
  }

  lemma GotoUnit(s0: nat, s1: nat)
    requires 1 <= s1 <= 31 && MayPrecede(s0, s1) && |Rhs(Reducing(s1))| == 1
    ensures Rhs(Reducing(s1)) == [Accessing(s1)] && Table(s0, Lhs(Reducing(s1))).Goto?
  {
  }

  lemma ReducingPath2(s0: nat, x1: Symbol, s1: nat, x2: Symbol, s2: nat)
    requires Edge(s0, x1, s1) && Edge(s1, x2, s2) && |Rhs(Reducing(s2))| == 2
    ensures Rhs(Reducing(s2)) == [x1, x2]
    ensures if Reducing(s2) == 6 then s0 == 0 else Table(s0, Lhs(Reducing(s2))).Goto?
  {
    hide Edge;
    EdgeShape(s0, x1, s1);
    EdgeShape(s1, x2, s2);
    GotoPair(s0, s1, s2);
  }

  lemma GotoPair(s0: nat, s1: nat, s2: nat)
    requires 1 <= s1 <= 31 && 1 <= s2 <= 31 && MayPrecede(s0, s1) && MayPrecede(s1, s2)
    requires |Rhs(Reducing(s2))| == 2
    ensures Rhs(Reducing(s2)) == [Accessing(s1), Accessing(s2)]
    ensures if Reducing(s2) == 6 then s0 == 0 else Table(s0, Lhs(Reducing(s2))).Goto?
  {
  }

  lemma ReducingPath3(s0: nat, x1: Symbol, s1: nat, x2: Symbol, s2: nat, x3: Symbol, s3: nat)
    requires Edge(s0, x1, s1) && Edge(s1, x2, s2) && Edge(s2, x3, s3) && |Rhs(Reducing(s3))| == 3
    ensures Rhs(Reducing(s3)) == [x1, x2, x3] && Table(s0, Lhs(Reducing(s3))).Goto?
  {
    hide Edge;
    EdgeShape(s0, x1, s1);
    EdgeShape(s1, x2, s2);
    EdgeShape(s2, x3, s3);
    GotoTriple(s0, s1, s2, s3);
  }

  lemma GotoTriple(s0: nat, s1: nat, s2: nat, s3: nat)
    requires 1 <= s1 <= 31 && 1 <= s2 <= 31 && 1 <= s3 <= 31
    requires MayPrecede(s0, s1) && MayPrecede(s1, s2) && MayPrecede(s2, s3)
    requires |Rhs(Reducing(s3))| == 3
    ensures Rhs(Reducing(s3)) == [Accessing(s1), Accessing(s2), Accessing(s3)]
    ensures Table(s0, Lhs(Reducing(s3))).Goto?
  {
  }

  /** Before the last symbols of a production the automaton is not in its start state. */
  lemma ReducingIsInner(s: nat, r: nat)
    requires Reducing(s) != 0
    ensures s != 0
    ensures |Rhs(Reducing(s))| >= 2 && MayPrecede(r, s) ==> r != 0
  {
  }

  lemma ThreeSymbolsInner(s: nat, r: nat, q: nat)
    requires |Rhs(Reducing(s))| == 3 && MayPrecede(r, s) && MayPrecede(q, r)
    ensures q != 0
  {
  }

  /** After reducing by a production of length one the automaton comes closer to a list. */
  function Rank(s: nat): nat {
    if 9 <= s <= 13 then 3
    else if 3 <= s <= 8 then 2
    else if s == 2 || s == 19 || s == 20 || s == 23 || s == 29 || s == 30 || s == 31 then 1
    else 0
  }

  lemma UnitReduction(s: nat, x: Symbol, p: nat, prev: nat, t: nat)
    requires Table(s, x) == Reduce(p) && |Rhs(p)| == 1
    requires Table(prev, Lhs(p)) == Goto(t)
    ensures Rank(t) < Rank(s)
  {
    hide Table;
    ReducingState(s, x, p);
    EdgeShape(prev, Lhs(p), t);
    UnitRank(s, p, t);
  }

  lemma UnitRank(s: nat, p: nat, t: nat)
    requires p == Reducing(s) && 1 <= p <= PRODUCTIONS && |Rhs(p)| == 1 && Lhs(p) == Accessing(t) && 1 <= t <= 31
    ensures Rank(t) < Rank(s)
  {
  }
}
