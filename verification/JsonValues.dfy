/**
 The JavaScript values a parse builds: property assignment with its special key, and the
 chain of replacements that turns the text of a string token into its value.
 */
module JsonValues {

  /** JavaScript strings are sequences of UTF-16 code units. */
  type Unit = c: int | 0 <= c < 0x1_0000

  type Text = seq<Unit>

  /** Where property lookup continues: at Object.prototype, nowhere, or at another value. */
  datatype Prototype = ObjectPrototype | NoPrototype | Inherits(parent: JsValue)

  /** A number stays the text that `Number` is applied to. */
  datatype JsValue =
    | JsNull
    | JsBool(b: bool)
    | JsNumber(text: Text)
    | JsString(s: Text)
    | JsArray(elems: seq<JsValue>)
    | JsObject(props: map<Text, JsValue>, proto: Prototype)

  /** `__proto__` */
  const PROTO: Text := [95, 95, 112, 114, 111, 116, 111, 95, 95]

  const EMPTY_OBJECT: JsValue := JsObject(map[], ObjectPrototype)

  /** Whether assigning to `__proto__` reaches the accessor that Object.prototype defines. */
  predicate ReachesAccessor(v: JsValue)
    decreases v
  {
    match v
    case JsObject(props, proto) =>
      PROTO !in props &&
      (match proto
       case ObjectPrototype => true
       case NoPrototype => false
       case Inherits(parent) => ReachesAccessor(parent))
    case _ => true
  }

  /** The assignment `o[key] = v` on an object under construction. */
  function SetProperty(o: JsValue, key: Text, v: JsValue): JsValue {
    match o
    case JsObject(props, proto) =>
      if key != PROTO || !ReachesAccessor(o) then JsObject(props[key := v], proto)
      else if v.JsObject? || v.JsArray? then JsObject(props, Inherits(v))
      else if v.JsNull? then JsObject(props, NoPrototype)
      else o
    case _ => o
  }

  // ---- string texts ----

  const BACKSPACE: Unit := 8
  const TAB: Unit := 9
  const LINE_FEED: Unit := 10
  const VERTICAL_TAB: Unit := 11
  const FORM_FEED: Unit := 12
  const CARRIAGE_RETURN: Unit := 13
  const QUOTE: Unit := 34
  const SLASH: Unit := 47
  const BACKSLASH: Unit := 92
  const LETTER_B: Unit := 98
  const LETTER_F: Unit := 102
  const LETTER_N: Unit := 110
  const LETTER_R: Unit := 114
  const LETTER_T: Unit := 116
  const LETTER_U: Unit := 117
  const LETTER_V: Unit := 118

  /** `text.replace(/\\(\\|")/g, "$1")`: a backslash before a backslash or quote is dropped. */
  function DropEscapes(t: Text): Text {
    if |t| < 2 then t
    else if t[0] == BACKSLASH && (t[1] == BACKSLASH || t[1] == QUOTE) then [t[1]] + DropEscapes(t[2..])
    else [t[0]] + DropEscapes(t[1..])
  }

  /** `text.replace(/\\c/g, r)` for a letter c. */
  function ReplaceEscape(t: Text, c: Unit, r: Unit): Text {
    if |t| < 2 then t
    else if t[0] == BACKSLASH && t[1] == c then [r] + ReplaceEscape(t[2..], c, r)
    else [t[0]] + ReplaceEscape(t[1..], c, r)
  }

  /** The replacements of production 1, one after the other. */
  function Unescape(t: Text): Text {
    var t1 := ReplaceEscape(DropEscapes(t), LETTER_N, LINE_FEED);
    var t2 := ReplaceEscape(t1, LETTER_R, CARRIAGE_RETURN);
    var t3 := ReplaceEscape(t2, LETTER_T, TAB);
    var t4 := ReplaceEscape(t3, LETTER_V, VERTICAL_TAB);
    var t5 := ReplaceEscape(t4, LETTER_F, FORM_FEED);
    ReplaceEscape(t5, LETTER_B, BACKSPACE)
  }
}
