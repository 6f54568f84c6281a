/**
 The grammar of section 2 of RFC 8259 as abstract syntax: the tokens a text is spelled with and
 the JavaScript value the linter's actions assign to it.  Lists grow on the right, as in the
 grammar's left-recursive productions.
 */
module JsonGrammar {
  import opened JsonTable
  import opened JsonValues
  import opened JsonParser

  datatype Json =
    | Str(text: Text) | Num(text: Text) | Null | True | False
    | Obj(members: Members) | Arr(elements: Elements)

  datatype Members = NoMembers | AddMember(init: Members, key: Text, val: Json)

  datatype Elements = NoElements | AddElement(init: Elements, val: Json)

  /** A token without its position; only strings and numbers have a text that matters. */
  datatype Lexeme = Lexeme(sym: Symbol, text: Text)

  function Plain(x: Symbol): Lexeme { Lexeme(x, []) }

  function Spelling(t: Token): Lexeme {
    Lexeme(t.sym, if t.sym == STRING || t.sym == NUMBER then t.text else [])
  }

  function Spellings(ts: seq<Token>): (r: seq<Lexeme>)
    ensures |r| == |ts|
  {
    seq(|ts|, i requires 0 <= i < |ts| => Spelling(ts[i]))
  }

  function Yield(j: Json): (r: seq<Lexeme>)
    ensures |r| >= 1
    decreases j, 0
  {
    match j
    case Str(text) => [Lexeme(STRING, text)]
    case Num(text) => [Lexeme(NUMBER, text)]
    case Null => [Plain(NULL)]
    case True => [Plain(TRUE)]
    case False => [Plain(FALSE)]
    case Obj(ms) => [Plain(LBRACE)] + YieldMembers(ms) + [Plain(RBRACE)]
    case Arr(es) => [Plain(LBRACKET)] + YieldElements(es) + [Plain(RBRACKET)]
  }

  function YieldMember(key: Text, val: Json): seq<Lexeme>
    decreases val, 1
  {
    [Lexeme(STRING, key)] + [Plain(COLON)] + Yield(val)
  }

  function YieldMembers(ms: Members): seq<Lexeme>
    decreases ms, 0
  {
    match ms
    case NoMembers => []
    case AddMember(NoMembers, key, val) => YieldMember(key, val)
    case AddMember(init, key, val) => YieldMembers(init) + [Plain(COMMA)] + YieldMember(key, val)
  }

  function YieldElements(es: Elements): seq<Lexeme>
    decreases es, 0
  {
    match es
    case NoElements => []
    case AddElement(NoElements, val) => Yield(val)
    case AddElement(init, val) => YieldElements(init) + [Plain(COMMA)] + Yield(val)
  }

  /** The value the grammar's actions assign. */
  function Eval(j: Json): JsValue {
    match j
    case Str(text) => JsString(Unescape(text))
    case Num(text) => JsNumber(text)
    case Null => JsNull
    case True => JsBool(true)
    case False => JsBool(false)
    case Obj(ms) => EvalMembers(ms)
    case Arr(es) => JsArray(EvalElements(es))
  }

  function EvalMembers(ms: Members): JsValue {
    match ms
    case NoMembers => EMPTY_OBJECT
    case AddMember(init, key, val) => SetProperty(EvalMembers(init), Unescape(key), Eval(val))
  }

  function EvalElements(es: Elements): seq<JsValue> {
    match es
    case NoElements => []
    case AddElement(init, val) => EvalElements(init) + [Eval(val)]
  }
}
