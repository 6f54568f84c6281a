/**
 Soundness of the linter: what it returns is the value of the text it consumed.
 The invariant attaches to every stack entry the syntax tree it stands for and the stretch of
 input that tree is spelled with.
 */
module JsonSound {
  import opened JsonTable
  import opened JsonValues
  import opened JsonParser
  import opened JsonGrammar

  datatype Tree =
    | Leaf
    | ValueTree(j: Json)
    | MemberTree(key: Text, val: Json)
    | MembersTree(ms: Members)
    | ElementsTree(es: Elements)

  /** A tree spelled by input[from..to]. */
  datatype Node = Node(tree: Tree, from: nat, to: nat)

  predicate IsTerminal(x: Symbol) {
    match x
    case STRING => true
    case NUMBER => true
    case NULL => true
    case TRUE => true
    case FALSE => true
    case EOF => true
    case LBRACE => true
    case RBRACE => true
    case LBRACKET => true
    case RBRACKET => true
    case COLON => true
    case COMMA => true
    case End => true
    case Invalid => true
    case _ => false
  }

  /** The tree fits the symbol, has this value and is spelled by these lexemes. */
  predicate Fits(x: Symbol, tree: Tree, v: JsValue, l: seq<Lexeme>) {
    match tree
    case Leaf =>
      && IsTerminal(x) && |l| == 1 && l[0].sym == x
      && (x != STRING && x != NUMBER ==> l == [Plain(x)])
    case ValueTree(j) =>
      && (x == JSONString || x == JSONNumber || x == JSONNullLiteral || x == JSONBooleanLiteral
          || x == JSONObject || x == JSONArray || x == JSONValue)
      && (x == JSONString ==> j.Str?)
      && v == Eval(j) && l == Yield(j)
    case MemberTree(key, val) =>
      x == JSONMember && v == JsArray([JsString(Unescape(key)), Eval(val)]) && l == YieldMember(key, val)
    case MembersTree(ms) =>
      x == JSONMemberList && ms != NoMembers && v == EvalMembers(ms) && l == YieldMembers(ms)
    case ElementsTree(es) =>
      x == JSONElementList && es != NoElements && v == JsArray(EvalElements(es)) && l == YieldElements(es)
  }

  predicate NodeOk(input: seq<Token>, x: Symbol, n: Node, v: JsValue, loc: Loc) {
    && n.from < n.to <= |input|
    && Fits(x, n.tree, v, Spellings(input[n.from..n.to]))
    && loc == JoinLocs(input[n.from].loc, input[n.to - 1].loc)
  }

  /** Consecutive states are joined by edges of the automaton. */
  predicate Linked(c: Config)
    requires WellStacked(c)
  {
    c.states[0] == 0 && forall i :: 0 <= i < |c.symbols| ==> Edge(c.states[i], c.symbols[i], c.states[i + 1])
  }

  function Start(nodes: seq<Node>, i: nat): nat
    requires i <= |nodes|
  {
    if i == 0 then 0 else nodes[i - 1].to
  }

  /** The nodes cover the consumed input from left to right and match the stacks. */
  predicate Forest(input: seq<Token>, c: Config, nodes: seq<Node>)
    requires WellStacked(c)
  {
    && |nodes| == |c.symbols|
    && c.next == Start(nodes, |nodes|)
    && c.next <= |input|
    && (c.next > 0 ==> c.text == input[c.next - 1].text)
    && (forall i :: 0 <= i < |nodes| ==> nodes[i].from == Start(nodes, i))
    && forall i :: 0 <= i < |nodes| ==> NodeOk(input, c.symbols[i], nodes[i], c.vals[i + 1], c.locs[i + 1])
  }

  // ---- the right-hand side is on top ----

  lemma RhsOnTop(c: Config)
    requires WellStacked(c) && Linked(c) && Reducing(Top(c)) != 0
    ensures var p := Reducing(Top(c)); var n := |c.symbols| - |Rhs(p)|;
      && 1 <= p <= PRODUCTIONS && n >= 0
      && c.symbols[n..] == Rhs(p)
      && if p == 6 then n == 0 else Table(c.states[n], Lhs(p)).Goto?
  {
    hide Table, Edge, Reducing, Rhs, Lhs, MayPrecede, Accessing;
    var k, s := |c.symbols|, Top(c);
    var p := Reducing(s);
    ReducingBounds(s);
    RhsNonempty(p);
    ReducingIsInner(s, 0);
    SixIsPair();
    assert k > 0;
    EdgeAt(c, k - 1);
    if |Rhs(p)| == 1 {
      ReducingPath1(c.states[k - 1], c.symbols[k - 1], s);
      assert c.symbols[k - 1..] == [c.symbols[k - 1]];
    } else {
      PairOnTop(c);
    }
  }

  lemma EdgeAt(c: Config, i: nat)
    requires WellStacked(c) && Linked(c) && i < |c.symbols|
    ensures Edge(c.states[i], c.symbols[i], c.states[i + 1]) && MayPrecede(c.states[i], c.states[i + 1])
    ensures i == 0 <==> c.states[i] == 0
  {
    hide Edge, MayPrecede, Accessing;
    EdgeShape(c.states[i], c.symbols[i], c.states[i + 1]);
    if c.states[i] == 0 {
      StartOnlyAtBottom(c, i);
    }
  }

  lemma PairOnTop(c: Config)
    requires WellStacked(c) && Linked(c) && |c.symbols| > 0 && Reducing(Top(c)) != 0
    requires 2 <= |Rhs(Reducing(Top(c)))| <= 3
    ensures var p := Reducing(Top(c)); var n := |c.symbols| - |Rhs(p)|;
      && n >= 0 && c.symbols[n..] == Rhs(p)
      && if p == 6 then n == 0 else Table(c.states[n], Lhs(p)).Goto?
  {
    hide Table, Edge, Reducing, Rhs, Lhs, MayPrecede, Linked;
    var k, s := |c.symbols|, Top(c);
    var p := Reducing(s);
    EdgeAt(c, k - 1);
    ReducingIsInner(s, c.states[k - 1]);
    EdgeAt(c, k - 2);
    SixIsPair();
    if |Rhs(p)| == 2 {
      ReducingPath2(c.states[k - 2], c.symbols[k - 2], c.states[k - 1], c.symbols[k - 1], s);
      assert c.symbols[k - 2..] == [c.symbols[k - 2], c.symbols[k - 1]];
    } else {
      ThreeSymbolsInner(s, c.states[k - 1], c.states[k - 2]);
      EdgeAt(c, k - 3);
      ReducingPath3(c.states[k - 3], c.symbols[k - 3], c.states[k - 2], c.symbols[k - 2], c.states[k - 1],
        c.symbols[k - 1], s);
      assert c.symbols[k - 3..] == [c.symbols[k - 3], c.symbols[k - 2], c.symbols[k - 1]];
    }
  }

  lemma ReducingBounds(s: nat)
    ensures Reducing(s) <= PRODUCTIONS
  {
  }

  lemma SixIsPair()
    ensures |Rhs(6)| == 2
  {
  }

  lemma StartOnlyAtBottom(c: Config, i: nat)
    requires WellStacked(c) && Linked(c) && i < |c.states| && c.states[i] == 0
    ensures i == 0
  {
    hide Edge;
    if i > 0 {
      EdgeShape(c.states[i - 1], c.symbols[i - 1], c.states[i]);
    }
  }

  // ---- one reduction ----

  function JsonOf(t: Tree): Json { if t.ValueTree? then t.j else Null }

  function TextOf(t: Tree): Text { if t.ValueTree? && t.j.Str? then t.j.text else [] }

  function WithMember(ms: Members, t: Tree): Members {
    if t.MemberTree? then AddMember(ms, t.key, t.val) else ms
  }

  function MembersOf(t: Tree): Members { if t.MembersTree? then t.ms else NoMembers }

  function ElementsOf(t: Tree): Elements { if t.ElementsTree? then t.es else NoElements }

  /** The tree a reduction builds from those of its right-hand side. */
  function BuildTree(p: nat, ts: seq<Tree>, text: Text): Tree
    requires 1 <= p <= PRODUCTIONS && |ts| == |Rhs(p)|
  {
    match p
    case 1 => ValueTree(Str(text))
    case 2 => ValueTree(Num(text))
    case 3 => ValueTree(Null)
    case 4 => ValueTree(True)
    case 5 => ValueTree(False)
    case 13 => ValueTree(Obj(NoMembers))
    case 14 => ValueTree(Obj(MembersOf(ts[1])))
    case 15 => MemberTree(TextOf(ts[0]), JsonOf(ts[2]))
    case 16 => MembersTree(WithMember(NoMembers, ts[0]))
    case 17 => MembersTree(WithMember(MembersOf(ts[0]), ts[2]))
    case 18 => ValueTree(Arr(NoElements))
    case 19 => ValueTree(Arr(ElementsOf(ts[1])))
    case 20 => ElementsTree(AddElement(NoElements, JsonOf(ts[0])))
    case 21 => ElementsTree(AddElement(ElementsOf(ts[0]), JsonOf(ts[2])))
    case _ => ts[0]
  }

  /** Reductions of a single symbol; a string or number takes the text of the last shift. */
  lemma BuildFits1(p: nat, t: Tree, v: JsValue, l: seq<Lexeme>, text: Text, g: seq<JsValue>)
    requires 1 <= p <= PRODUCTIONS && |Rhs(p)| == 1 && Fits(Rhs(p)[0], t, v, l)
    requires |g| >= 1 && g[|g| - 1] == v
    requires IsTerminal(Rhs(p)[0]) ==> |l| == 1 && (l[0].text == text || (l[0].sym != STRING && l[0].sym != NUMBER))
    ensures Fits(Lhs(p), BuildTree(p, [t], text), PerformAction(text, p, g), l)
  {
    hide Eval, Yield, Unescape, EvalMembers, YieldMembers, EvalElements, YieldElements;
    if p <= 5 {
      BuildLiteral(p, t, v, l, text, g);
    } else {
      BuildUnit(p, t, v, l, text, g);
    }
  }

  lemma BuildLiteral(p: nat, t: Tree, v: JsValue, l: seq<Lexeme>, text: Text, g: seq<JsValue>)
    requires 1 <= p <= 5 && Fits(Rhs(p)[0], t, v, l)
    requires |g| >= 1 && g[|g| - 1] == v
    requires |l| == 1 && (l[0].text == text || (l[0].sym != STRING && l[0].sym != NUMBER))
    ensures Fits(Lhs(p), BuildTree(p, [t], text), PerformAction(text, p, g), l)
  {
  }

  lemma BuildUnit(p: nat, t: Tree, v: JsValue, l: seq<Lexeme>, text: Text, g: seq<JsValue>)
    requires 6 < p <= PRODUCTIONS && |Rhs(p)| == 1 && Fits(Rhs(p)[0], t, v, l)
    requires |g| >= 1 && g[|g| - 1] == v
    ensures Fits(Lhs(p), BuildTree(p, [t], text), PerformAction(text, p, g), l)
  {
    assert p == 16 || p == 20 || 7 <= p <= 12;
  }

  predicate IsPunctuation(x: Symbol) {
    x == LBRACE || x == RBRACE || x == LBRACKET || x == RBRACKET || x == COMMA || x == COLON
  }

  lemma FitsPunctuation(x: Symbol, t: Tree, v: JsValue, l: seq<Lexeme>)
    requires IsPunctuation(x) && Fits(x, t, v, l)
    ensures l == [Plain(x)]
  {
  }

  lemma FitsEmpty()
    ensures Fits(JSONObject, ValueTree(Obj(NoMembers)), EMPTY_OBJECT, [Plain(LBRACE), Plain(RBRACE)])
    ensures Fits(JSONArray, ValueTree(Arr(NoElements)), JsArray([]), [Plain(LBRACKET), Plain(RBRACKET)])
  {
  }

  lemma FitsObject(t: Tree, v: JsValue, l: seq<Lexeme>)
    requires Fits(JSONMemberList, t, v, l)
    ensures Fits(JSONObject, ValueTree(Obj(MembersOf(t))), v, [Plain(LBRACE)] + l + [Plain(RBRACE)])
  {
  }

  lemma FitsArray(t: Tree, v: JsValue, l: seq<Lexeme>)
    requires Fits(JSONElementList, t, v, l)
    ensures Fits(JSONArray, ValueTree(Arr(ElementsOf(t))), v, [Plain(LBRACKET)] + l + [Plain(RBRACKET)])
  {
  }

  lemma FitsMember(t1: Tree, t2: Tree, v1: JsValue, v2: JsValue, l1: seq<Lexeme>, l2: seq<Lexeme>)
    requires Fits(JSONString, t1, v1, l1) && Fits(JSONValue, t2, v2, l2)
    ensures Fits(JSONMember, MemberTree(TextOf(t1), JsonOf(t2)), JsArray([v1, v2]), l1 + [Plain(COLON)] + l2)
  {
    hide Unescape;
  }

  lemma FitsNextMember(t1: Tree, t2: Tree, v1: JsValue, v2: JsValue, l1: seq<Lexeme>, l2: seq<Lexeme>)
    requires Fits(JSONMemberList, t1, v1, l1) && Fits(JSONMember, t2, v2, l2)
    ensures Fits(JSONMemberList, MembersTree(WithMember(MembersOf(t1), t2)),
      SetProperty(v1, PairKey(v2), PairValue(v2)),
                 l1 + [Plain(COMMA)] + l2)
  {
    hide Unescape, SetProperty;
  }

  lemma FitsNextElement(t1: Tree, t2: Tree, v1: JsValue, v2: JsValue, l1: seq<Lexeme>, l2: seq<Lexeme>)
    requires Fits(JSONElementList, t1, v1, l1) && Fits(JSONValue, t2, v2, l2)
    ensures Fits(JSONElementList, ElementsTree(AddElement(ElementsOf(t1), JsonOf(t2))), Push(v1, v2),
                 l1 + [Plain(COMMA)] + l2)
  {
    hide Unescape, SetProperty;
  }

  /** Empty objects and arrays. */
  lemma BuildFits2(p: nat, t1: Tree, t2: Tree, v1: JsValue, v2: JsValue, l1: seq<Lexeme>, l2: seq<Lexeme>,
      text: Text, g: seq<JsValue>)
    requires p == 13 || p == 18
    requires Fits(Rhs(p)[0], t1, v1, l1) && Fits(Rhs(p)[1], t2, v2, l2)
    requires |g| >= 2
    ensures Fits(Lhs(p), BuildTree(p, [t1, t2], text), PerformAction(text, p, g), l1 + l2)
  {
    hide Fits;
    FitsPunctuation(Rhs(p)[0], t1, v1, l1);
    FitsPunctuation(Rhs(p)[1], t2, v2, l2);
    FitsEmpty();
    assert l1 + l2 == [Plain(Rhs(p)[0]), Plain(Rhs(p)[1])];
  }

  /** Bracketed lists, members, and lists that grow by one entry. */
  lemma BuildFits3(p: nat, t1: Tree, t2: Tree, t3: Tree, v1: JsValue, v2: JsValue, v3: JsValue,
      l1: seq<Lexeme>, l2: seq<Lexeme>, l3: seq<Lexeme>, text: Text, g: seq<JsValue>)
    requires p == 14 || p == 15 || p == 17 || p == 19 || p == 21
    requires Fits(Rhs(p)[0], t1, v1, l1) && Fits(Rhs(p)[1], t2, v2, l2) && Fits(Rhs(p)[2], t3, v3, l3)
    requires |g| >= 3 && g[|g| - 3] == v1 && g[|g| - 2] == v2 && g[|g| - 1] == v3
    ensures Fits(Lhs(p), BuildTree(p, [t1, t2, t3], text), PerformAction(text, p, g), l1 + l2 + l3)
  {
    hide Fits;
    if p == 14 || p == 19 {
      FitsPunctuation(Rhs(p)[0], t1, v1, l1);
      FitsPunctuation(Rhs(p)[2], t3, v3, l3);
      if p == 14 {
        FitsObject(t2, v2, l2);
      } else {
        FitsArray(t2, v2, l2);
      }
    } else {
      FitsPunctuation(Rhs(p)[1], t2, v2, l2);
      if p == 15 {
        FitsMember(t1, t3, v1, v3, l1, l3);
      } else if p == 17 {
        FitsNextMember(t1, t3, v1, v3, l1, l3);
      } else {
        FitsNextElement(t1, t3, v1, v3, l1, l3);
      }
    }
  }

  lemma SpellingsJoin(input: seq<Token>, a: nat, b: nat, c: nat)
    requires a <= b <= c <= |input|
    ensures Spellings(input[a..b]) + Spellings(input[b..c]) == Spellings(input[a..c])
  {
  }

  /** The consumed text of an entry for a terminal is the token's own. */
  lemma TerminalText(input: seq<Token>, x: Symbol, n: Node, v: JsValue, loc: Loc)
    requires NodeOk(input, x, n, v, loc) && IsTerminal(x)
    ensures n.to == n.from + 1 && Spellings(input[n.from..n.to])[0] == Spelling(input[n.from])
  {
    assert |Spellings(input[n.from..n.to])| == n.to - n.from;
  }

  lemma Reduced1(input: seq<Token>, p: nat, a: Node, va: JsValue, la: Loc, text: Text, g: seq<JsValue>)
    requires 1 <= p <= PRODUCTIONS && |Rhs(p)| == 1 && NodeOk(input, Rhs(p)[0], a, va, la)
    requires |g| >= 1 && g[|g| - 1] == va && text == input[a.to - 1].text
    ensures NodeOk(input, Lhs(p), Node(BuildTree(p, [a.tree], text), a.from, a.to), PerformAction(text, p, g),
      JoinLocs(la, la))
  {
    hide Fits, PerformAction, BuildTree;
    if IsTerminal(Rhs(p)[0]) {
      TerminalSpelling(input, Rhs(p)[0], a, va, la);
    }
    BuildFits1(p, a.tree, va, Spellings(input[a.from..a.to]), text, g);
  }

  lemma Reduced2(input: seq<Token>, p: nat, a: Node, b: Node, va: JsValue, vb: JsValue, la: Loc, lb: Loc, text: Text,
    g: seq<JsValue>)
    requires (p == 13 || p == 18) && a.to == b.from && |g| >= 2
    requires NodeOk(input, Rhs(p)[0], a, va, la) && NodeOk(input, Rhs(p)[1], b, vb, lb)
    ensures NodeOk(input, Lhs(p), Node(BuildTree(p, [a.tree, b.tree], text), a.from, b.to), PerformAction(text, p, g),
      JoinLocs(la, lb))
  {
    hide Fits, PerformAction, BuildTree;
    SpellingsJoin(input, a.from, b.from, b.to);
    BuildFits2(p, a.tree, b.tree, va, vb, Spellings(input[a.from..a.to]), Spellings(input[b.from..b.to]), text, g);
  }

  lemma Reduced3(input: seq<Token>, p: nat, a: Node, b: Node, d: Node, va: JsValue, vb: JsValue, vd: JsValue,
                 la: Loc, lb: Loc, ld: Loc, text: Text, g: seq<JsValue>)
    requires p == 14 || p == 15 || p == 17 || p == 19 || p == 21
    requires a.to == b.from && b.to == d.from
    requires NodeOk(input, Rhs(p)[0], a, va, la) && NodeOk(input, Rhs(p)[1], b, vb, lb)
    requires NodeOk(input, Rhs(p)[2], d, vd, ld)
    requires |g| >= 3 && g[|g| - 3] == va && g[|g| - 2] == vb && g[|g| - 1] == vd
    ensures NodeOk(input, Lhs(p), Node(BuildTree(p, [a.tree, b.tree, d.tree], text), a.from, d.to),
      PerformAction(text, p, g), JoinLocs(la, ld))
  {
    hide Fits, PerformAction, BuildTree;
    SpellingsJoin(input, a.from, b.from, b.to);
    SpellingsJoin(input, a.from, d.from, d.to);
    BuildFits3(p, a.tree, b.tree, d.tree, va, vb, vd,
      Spellings(input[a.from..a.to]), Spellings(input[b.from..b.to]), Spellings(input[d.from..d.to]), text, g);
  }

  lemma TerminalSpelling(input: seq<Token>, x: Symbol, n: Node, v: JsValue, loc: Loc)
    requires NodeOk(input, x, n, v, loc) && IsTerminal(x)
    ensures var l := Spellings(input[n.from..n.to]);
      |l| == 1 && (l[0].text == input[n.to - 1].text || (l[0].sym != STRING && l[0].sym != NUMBER))
  {
    TerminalText(input, x, n, v, loc);
  }

  lemma ReducedEntry1(input: seq<Token>, c: Config, nodes: seq<Node>, p: nat) returns (node: Node)
    requires WellStacked(c) && Forest(input, c, nodes)
    requires 1 <= p <= PRODUCTIONS && p != 6 && |Rhs(p)| == 1 <= |c.symbols| && c.symbols[|c.symbols| - 1..] == Rhs(p)
    ensures var n := |c.symbols| - 1;
      && |nodes| == |c.symbols| && node.from == nodes[n].from && node.to == c.next
      && NodeOk(input, Lhs(p), node, PerformAction(c.text, p, c.vals), JoinLocs(c.locs[n + 1], c.locs[n + 1]))
  {
    hide NodeOk, PerformAction, BuildTree, Forest, Rhs, Lhs;
    var k := |c.symbols|;
    var n := k - 1;
    assert forall i :: 0 <= i < 1 ==> c.symbols[n + i] == Rhs(p)[i];
    NodeAt(input, c, nodes, n);
    var a := nodes[n];
    Reduced1(input, p, a, c.vals[k], c.locs[k], c.text, c.vals);
    node := Node(BuildTree(p, [a.tree], c.text), a.from, a.to);
  }

  lemma ReducedEntry2(input: seq<Token>, c: Config, nodes: seq<Node>, p: nat) returns (node: Node)
    requires WellStacked(c) && Forest(input, c, nodes)
    requires 1 <= p <= PRODUCTIONS && p != 6 && |Rhs(p)| == 2 <= |c.symbols| && c.symbols[|c.symbols| - 2..] == Rhs(p)
    ensures var n := |c.symbols| - 2;
      && |nodes| == |c.symbols| && node.from == nodes[n].from && node.to == c.next
      && NodeOk(input, Lhs(p), node, PerformAction(c.text, p, c.vals), JoinLocs(c.locs[n + 1], c.locs[n + 2]))
  {
    hide NodeOk, PerformAction, BuildTree, Forest, Rhs, Lhs;
    var k := |c.symbols|;
    var n := k - 2;
    assert forall i :: 0 <= i < 2 ==> c.symbols[n + i] == Rhs(p)[i];
    NodeAt(input, c, nodes, n);
    NodeAt(input, c, nodes, n + 1);
    var a, b := nodes[n], nodes[n + 1];
    PairProductions(p);
    Reduced2(input, p, a, b, c.vals[k - 1], c.vals[k], c.locs[k - 1], c.locs[k], c.text, c.vals);
    node := Node(BuildTree(p, [a.tree, b.tree], c.text), a.from, b.to);
  }

  lemma ReducedEntry3(input: seq<Token>, c: Config, nodes: seq<Node>, p: nat) returns (node: Node)
    requires WellStacked(c) && Forest(input, c, nodes)
    requires 1 <= p <= PRODUCTIONS && p != 6 && |Rhs(p)| == 3 <= |c.symbols| && c.symbols[|c.symbols| - 3..] == Rhs(p)
    ensures var n := |c.symbols| - 3;
      && |nodes| == |c.symbols| && node.from == nodes[n].from && node.to == c.next
      && NodeOk(input, Lhs(p), node, PerformAction(c.text, p, c.vals), JoinLocs(c.locs[n + 1], c.locs[n + 3]))
  {
    hide NodeOk, PerformAction, BuildTree, Forest, Rhs, Lhs;
    var k := |c.symbols|;
    var n := k - 3;
    assert forall i :: 0 <= i < 3 ==> c.symbols[n + i] == Rhs(p)[i];
    NodeAt(input, c, nodes, n);
    NodeAt(input, c, nodes, n + 1);
    NodeAt(input, c, nodes, n + 2);
    var a, b, d := nodes[n], nodes[n + 1], nodes[n + 2];
    TripleProductions(p);
    Reduced3(input, p, a, b, d, c.vals[k - 2], c.vals[k - 1], c.vals[k], c.locs[k - 2], c.locs[k - 1], c.locs[k],
      c.text, c.vals);
    node := Node(BuildTree(p, [a.tree, b.tree, d.tree], c.text), a.from, d.to);
  }

  /** The entry a reduction pushes, whatever the production. */
  lemma ReducedNode(input: seq<Token>, c: Config, nodes: seq<Node>) returns (node: Node)
    requires WellStacked(c) && Linked(c) && Forest(input, c, nodes)
    requires Reducing(Top(c)) != 0 && Reducing(Top(c)) != 6
    ensures var p := Reducing(Top(c)); var n := |c.symbols| - |Rhs(p)|;
      && 1 <= p <= PRODUCTIONS && n >= 0 && |Rhs(p)| >= 1 && |nodes| == |c.symbols|
      && node.from == nodes[n].from && node.to == c.next
      && NodeOk(input, Lhs(p), node, PerformAction(c.text, p, c.vals), JoinLocs(c.locs[n + 1], c.locs[|c.symbols|]))
  {
    hide Table, Reducing, NodeOk, PerformAction, Linked, Forest, Rhs, Lhs;
    var p := Reducing(Top(c));
    RhsOnTop(c);
    RhsNonempty(p);
    if |Rhs(p)| == 1 {
      node := ReducedEntry1(input, c, nodes, p);
    } else if |Rhs(p)| == 2 {
      node := ReducedEntry2(input, c, nodes, p);
    } else {
      node := ReducedEntry3(input, c, nodes, p);
    }
  }

  lemma NodeAt(input: seq<Token>, c: Config, nodes: seq<Node>, i: nat)
    requires WellStacked(c) && Forest(input, c, nodes) && i < |c.symbols|
    ensures |nodes| == |c.symbols| && NodeOk(input, c.symbols[i], nodes[i], c.vals[i + 1], c.locs[i + 1])
    ensures i + 1 < |nodes| ==> nodes[i + 1].from == nodes[i].to
    ensures i + 1 == |nodes| ==>
      nodes[i].to == c.next && 0 < c.next <= |input| && c.text == input[c.next - 1].text
  {
    hide NodeOk;
    NodeInBounds(input, c.symbols[i], nodes[i], c.vals[i + 1], c.locs[i + 1]);
    assert i + 1 < |nodes| ==> nodes[i + 1].from == Start(nodes, i + 1);
  }

  lemma NodeInBounds(input: seq<Token>, x: Symbol, n: Node, v: JsValue, loc: Loc)
    requires NodeOk(input, x, n, v, loc)
    ensures n.from < n.to <= |input|
  {
  }

  lemma PairProductions(p: nat)
    requires 1 <= p <= PRODUCTIONS && |Rhs(p)| == 2
    ensures p == 6 || p == 13 || p == 18
  {
  }

  lemma TripleProductions(p: nat)
    requires 1 <= p <= PRODUCTIONS && |Rhs(p)| == 3
    ensures p == 14 || p == 15 || p == 17 || p == 19 || p == 21
  {
  }

  // ---- every step, every run ----

  lemma ShiftsTerminal(s: nat, x: Symbol, t: nat)
    requires Table(s, x) == Shift(t)
    ensures IsTerminal(x) && x != End
  {
    hide Table;
    EndIsNeverShifted(s, x, t);
    EdgeShape(s, x, t);
    ShiftTarget(s, x, t);
  }

  lemma ShiftTarget(s: nat, x: Symbol, t: nat)
    requires Table(s, x) == Shift(t)
    ensures t == 9 || t == 10 || t == 11 || 12 <= t <= 17 || t == 21 || 24 <= t <= 28
  {
  }

  /** Pushing one matching entry keeps the invariant. */
  lemma PushKeeps(input: seq<Token>, c: Config, nodes: seq<Node>, c': Config, node: Node, x: Symbol, s: nat)
    requires WellStacked(c) && Linked(c) && Forest(input, c, nodes) && WellStacked(c')
    requires c'.states == c.states + [s] && c'.symbols == c.symbols + [x]
    requires c'.vals[..|c.vals|] == c.vals && c'.locs[..|c.locs|] == c.locs
    requires Edge(Top(c), x, s)
    requires node.from == c.next && node.to == c'.next
    requires NodeOk(input, x, node, c'.vals[|c.vals|], c'.locs[|c.locs|])
    requires c'.next > 0 ==> c'.next <= |input| && c'.text == input[c'.next - 1].text
    ensures Linked(c') && Forest(input, c', nodes + [node])
  {
    hide Edge, NodeOk;
    var nodes', k := nodes + [node], |nodes|;
    forall i | 0 <= i <= k
      ensures i < k ==> Edge(c'.states[i], c'.symbols[i], c'.states[i + 1])
      ensures i < k ==> NodeOk(input, c'.symbols[i], nodes'[i], c'.vals[i + 1], c'.locs[i + 1])
      ensures Start(nodes', i) == Start(nodes, i)
    {
      if i < k {
        assert Edge(c.states[i], c.symbols[i], c.states[i + 1]);
        assert NodeOk(input, c.symbols[i], nodes[i], c.vals[i + 1], c.locs[i + 1]);
        assert c'.vals[i + 1] == c'.vals[..|c.vals|][i + 1] && c'.locs[i + 1] == c'.locs[..|c.locs|][i + 1];
      }
    }
    forall i | 0 <= i < |c'.symbols|
      ensures Edge(c'.states[i], c'.symbols[i], c'.states[i + 1])
      ensures NodeOk(input, c'.symbols[i], nodes'[i], c'.vals[i + 1], c'.locs[i + 1])
      ensures nodes'[i].from == Start(nodes', i)
    {
      assert i < k ==> nodes[i].from == Start(nodes, i);
    }
  }

  lemma ShiftKeeps(input: seq<Token>, c: Config, nodes: seq<Node>, s: nat) returns (nodes': seq<Node>)
    requires WellStacked(c) && Linked(c) && Forest(input, c, nodes)
    requires Table(Top(c), Lexed(input, c.next).sym) == Shift(s)
    ensures var c' := ShiftToken(c, Lexed(input, c.next), s);
      WellStacked(c') && Linked(c') && Forest(input, c', nodes')
  {
    hide Table, Linked;
    var t := Lexed(input, c.next);
    ShiftsTerminal(Top(c), t.sym, s);
    var node := Node(Leaf, c.next, c.next + 1);
    LeafOk(input, c.next);
    nodes' := nodes + [node];
    PushKeeps(input, c, nodes, ShiftToken(c, t, s), node, t.sym, s);
  }

  lemma LeafOk(input: seq<Token>, i: nat)
    requires i < |input| && IsTerminal(input[i].sym)
    ensures NodeOk(input, input[i].sym, Node(Leaf, i, i + 1), JsString(input[i].text), input[i].loc)
  {
    assert input[i..i + 1] == [input[i]];
    assert Spellings([input[i]]) == [Spelling(input[i])];
  }

  /** The invariant for the lowest n entries. */
  function CutTo(input: seq<Token>, c: Config, nodes: seq<Node>, n: nat): Config
    requires WellStacked(c) && n <= |c.symbols| == |nodes|
  {
    var at := Start(nodes, n);
    Config(c.states[..n + 1], c.symbols[..n], c.vals[..n + 1], c.locs[..n + 1],
           if 0 < at <= |input| then input[at - 1].text else [], at, false)
  }

  lemma CutKeeps(input: seq<Token>, c: Config, nodes: seq<Node>, n: nat)
    requires WellStacked(c) && Linked(c) && Forest(input, c, nodes) && n <= |c.symbols|
    ensures var c' := CutTo(input, c, nodes, n);
      WellStacked(c') && Linked(c') && Forest(input, c', nodes[..n])
  {
    hide Edge, NodeOk;
    var nodes', c' := nodes[..n], CutTo(input, c, nodes, n);
    if n > 0 {
      assert NodeOk(input, c.symbols[n - 1], nodes[n - 1], c.vals[n], c.locs[n]);
      NodeInBounds(input, c.symbols[n - 1], nodes[n - 1], c.vals[n], c.locs[n]);
    }
    assert forall i :: 0 <= i <= n ==> Start(nodes', i) == Start(nodes, i);
    forall i | 0 <= i < n
      ensures Edge(c'.states[i], c'.symbols[i], c'.states[i + 1])
      ensures NodeOk(input, c'.symbols[i], nodes'[i], c'.vals[i + 1], c'.locs[i + 1])
    {
      assert Edge(c.states[i], c.symbols[i], c.states[i + 1]);
      assert NodeOk(input, c.symbols[i], nodes[i], c.vals[i + 1], c.locs[i + 1]);
    }
  }

  /** What a reduction that goes on leaves on the stacks. */
  lemma ReduceByShape(c: Config, p: nat, n: nat) returns (c': Config)
    requires WellStacked(c) && 1 <= p <= PRODUCTIONS && p != 6
    requires n + |Rhs(p)| == |c.symbols| && |Rhs(p)| >= 1 && Table(c.states[n], Lhs(p)).Goto?
    ensures ReduceBy(c, p) == Continue(c') && WellStacked(c')
    ensures c'.states == c.states[..n + 1] + [Table(c.states[n], Lhs(p)).state]
    ensures c'.symbols == c.symbols[..n] + [Lhs(p)]
    ensures c'.vals[..n + 1] == c.vals[..n + 1] && c'.locs[..n + 1] == c.locs[..n + 1]
    ensures c'.vals[n + 1] == PerformAction(c.text, p, c.vals)
    ensures c'.locs[n + 1] == JoinLocs(c.locs[n + 1], c.locs[|c.symbols|])
    ensures c'.next == c.next && c'.text == c.text
  {
    hide Table, Rhs, Lhs, PerformAction;
    c' := ReduceBy(c, p).c;
  }

  lemma ReduceKeeps(input: seq<Token>, c: Config, nodes: seq<Node>) returns (nodes': seq<Node>)
    requires WellStacked(c) && Linked(c) && Forest(input, c, nodes)
    requires Reducing(Top(c)) != 0 && Reducing(Top(c)) != 6
    ensures 1 <= Reducing(Top(c)) <= PRODUCTIONS
    ensures var r := ReduceBy(c, Reducing(Top(c)));
      r.Continue? && Linked(r.c) && Forest(input, r.c, nodes')
  {
    hide Table, Reducing, Rhs, Lhs, NodeOk, PerformAction, Linked, ReduceBy;
    var p := Reducing(Top(c));
    RhsOnTop(c);
    var node := ReducedNode(input, c, nodes);
    var n := |c.symbols| - |Rhs(p)|;
    assert node.from == Start(nodes, n);
    CutKeeps(input, c, nodes, n);
    NodeInBounds(input, Lhs(p), node, PerformAction(c.text, p, c.vals), JoinLocs(c.locs[n + 1], c.locs[|c.symbols|]));
    nodes' := nodes[..n] + [node];
    var c' := ReduceByShape(c, p, n);
    PushKeeps(input, CutTo(input, c, nodes, n), nodes[..n], c', node, Lhs(p), Table(c.states[n], Lhs(p)).state);
  }

  /** The first n tokens are the text j followed by the end of input, and v is its value. */
  ghost predicate Denotes(input: seq<Token>, n: nat, j: Json, v: JsValue) {
    n <= |input| && Spellings(input[..n]) == Yield(j) + [Plain(EOF)] && v == Eval(j)
  }

  lemma AcceptDenotes(input: seq<Token>, c: Config, nodes: seq<Node>)
    requires WellStacked(c) && Linked(c) && Forest(input, c, nodes) && Reducing(Top(c)) == 6
    ensures var r := ReduceBy(c, 6);
      r.Halt? && r.o.Returned? && exists j :: Denotes(input, c.next, j, r.o.value)
  {
    hide Table, Edge, Linked, Forest;
    RhsOnTop(c);
    assert c.symbols == [JSONValue, EOF];
    NodeAt(input, c, nodes, 0);
    NodeAt(input, c, nodes, 1);
    FirstNode(input, c, nodes);
    var a, b := nodes[0], nodes[1];
    SpellingsJoin(input, 0, a.to, b.to);
    assert input[0..b.to] == input[..c.next];
    assert Denotes(input, c.next, a.tree.j, c.vals[1]);
  }

  lemma FirstNode(input: seq<Token>, c: Config, nodes: seq<Node>)
    requires WellStacked(c) && Forest(input, c, nodes) && |nodes| > 0
    ensures nodes[0].from == 0
  {
    hide NodeOk;
    assert nodes[0].from == Start(nodes, 0);
  }

  /** State 1, which would return `true`, is never on top: nothing is a JSONText. */
  lemma NeverInStateOne(input: seq<Token>, c: Config, nodes: seq<Node>)
    requires WellStacked(c) && Linked(c) && Forest(input, c, nodes)
    ensures Top(c) != 1
  {
    hide Edge, NodeOk;
    var k := |c.symbols|;
    if k > 0 {
      EdgeShape(c.states[k - 1], c.symbols[k - 1], c.states[k]);
      assert NodeOk(input, c.symbols[k - 1], nodes[k - 1], c.vals[k], c.locs[k]);
      NoJsonText(input, c.symbols[k - 1], nodes[k - 1], c.vals[k], c.locs[k]);
    }
  }

  lemma NoJsonText(input: seq<Token>, x: Symbol, n: Node, v: JsValue, loc: Loc)
    requires NodeOk(input, x, n, v, loc)
    ensures x != JSONText
  {
  }

  lemma AcceptOnlyInStateOne(s: nat, x: Symbol)
    requires Table(s, x) == Accept
    ensures s == 1
  {
  }

  /** One iteration keeps the invariant, or stops with a value the consumed text denotes. */
  lemma StepKeeps(input: seq<Token>, c: Config, nodes: seq<Node>) returns (nodes': seq<Node>)
    requires WellStacked(c) && Linked(c) && Forest(input, c, nodes)
    ensures var r := Step(input, c);
      if r.Continue? then Linked(r.c) && Forest(input, r.c, nodes')
      else match r.o
        case Returned(v) => exists j :: Denotes(input, c.next, j, v)
        case ParseError(_) => true
        case _ => false
  {
    hide Table, Linked, Forest, ReduceBy, Denotes;
    nodes' := nodes;
    var s := Top(c);
    if HasDefault(s) {
      DefaultReduces();
      AcceptDenotes(input, c, nodes);
    } else {
      var t := Lexed(input, c.next);
      match Table(s, t.sym) {
        case Shift(to) => nodes' := ShiftKeeps(input, c, nodes, to);
        case Reduce(p) =>
          ReducingState(s, t.sym, p);
          NotSixElsewhere(s);
          var c1 := c.(ahead := true);
          AheadIrrelevant(input, c, nodes);
          nodes' := ReduceKeeps(input, c1, nodes);
        case Accept =>
          AcceptOnlyInStateOne(s, t.sym);
          NeverInStateOne(input, c, nodes);
        case _ =>
      }
    }
  }

  lemma DefaultReduces()
    ensures Reducing(16) == 6
  {
  }

  lemma NotSixElsewhere(s: nat)
    requires !HasDefault(s)
    ensures Reducing(s) != 6
  {
  }

  lemma AheadIrrelevant(input: seq<Token>, c: Config, nodes: seq<Node>)
    requires WellStacked(c) && Linked(c) && Forest(input, c, nodes)
    ensures var c1 := c.(ahead := true); WellStacked(c1) && Linked(c1) && Forest(input, c1, nodes)
  {
    hide Edge, NodeOk;
  }

  lemma {:induction false} RunSound(input: seq<Token>, c: Config, nodes: seq<Node>)
    requires WellStacked(c) && Linked(c) && Forest(input, c, nodes)
    ensures match Run(input, c)
      case Returned(v) => exists n: nat, j :: Denotes(input, n, j, v)
      case ParseError(_) => true
      case _ => false
    decreases Remaining(input, c), |c.states|, Rank(Top(c))
  {
    hide Linked, Forest, Step, Denotes;
    RunUnfold(input, c);
    var nodes' := StepKeeps(input, c, nodes);
    var r := Step(input, c);
    if r.Continue? {
      StepDecreases(input, c);
      RunSound(input, r.c, nodes');
    } else if r.o.Returned? {
      var j :| Denotes(input, c.next, j, r.o.value);
    }
  }

  /**
   The linter returns a value only for a prefix of the tokens that derives a JSON text and
   ends the input, and the value is the one the grammar assigns; otherwise it reports an
   error.  It never pops too much, never lacks a goto and never returns `true` instead.
   */
  lemma ParseSound(input: seq<Token>)
    ensures match ParseResult(input)
      case Returned(v) => exists n: nat, j :: Denotes(input, n, j, v)
      case ParseError(_) => true
      case _ => false
  {
    assert Linked(INITIAL);
    assert Forest(input, INITIAL, []);
    RunSound(input, INITIAL, []);
  }
}
