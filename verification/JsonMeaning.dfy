/**
 The value a JSON text is meant to have, where strings are decoded by section 7 of RFC 8259 and the
 last of several equal names wins, and exactly when the linter returns it.
 */
module JsonMeaning {
  import opened Options
  import opened JsonTable
  import opened JsonValues
  import opened JsonStrings
  import opened JsonParser
  import opened JsonGrammar
  import opened JsonComplete

  function Intended(j: Json): JsValue {
    match j
    case Str(text) => JsString(Decode(text))
    case Num(text) => JsNumber(text)
    case Null => JsNull
    case True => JsBool(true)
    case False => JsBool(false)
    case Obj(ms) => JsObject(LastWins(ms), ObjectPrototype)
    case Arr(es) => JsArray(IntendedElements(es))
  }

  function LastWins(ms: Members): map<Text, JsValue> {
    match ms
    case NoMembers => map[]
    case AddMember(init, key, val) => LastWins(init)[Decode(key) := Intended(val)]
  }

  function IntendedElements(es: Elements): seq<JsValue> {
    match es
    case NoElements => []
    case AddElement(init, val) => IntendedElements(init) + [Intended(val)]
  }

  /** The texts of all strings and keys are ones the lexer delivers. */
  predicate Lexical(j: Json) {
    match j
    case Str(text) => Lexable(text)
    case Obj(ms) => LexicalMembers(ms)
    case Arr(es) => LexicalElements(es)
    case _ => true
  }

  predicate LexicalMembers(ms: Members) {
    match ms
    case NoMembers => true
    case AddMember(init, key, val) => Lexable(key) && Lexical(val) && LexicalMembers(init)
  }

  predicate LexicalElements(es: Elements) {
    match es
    case NoElements => true
    case AddElement(init, val) => LexicalElements(init) && Lexical(val)
  }

  /** Every key, and every string that survives, is readable, and no key is `__proto__`. */
  predicate Clean(j: Json) {
    match j
    case Str(text) => Readable(text)
    case Obj(ms) => CleanMembers(ms, {})
    case Arr(es) => CleanElements(es)
    case _ => true
  }

  /** Members whose name occurs again in `later` are overwritten, so only their key matters. */
  predicate CleanMembers(ms: Members, later: set<Text>) {
    match ms
    case NoMembers => true
    case AddMember(init, key, val) =>
      && Readable(key) && Decode(key) != PROTO
      && (Decode(key) in later || Clean(val))
      && CleanMembers(init, later + {Decode(key)})
  }

  predicate CleanElements(es: Elements) {
    match es
    case NoElements => true
    case AddElement(init, val) => CleanElements(init) && Clean(val)
  }

  function Keys(ms: Members): set<Text> {
    match ms
    case NoMembers => {}
    case AddMember(init, key, val) => Keys(init) + {key}
  }

  /** No two of these texts spell the same name. */
  predicate SpelledOnce(keys: set<Text>) {
    forall k, l :: k in keys && l in keys && Decode(k) == Decode(l) ==> k == l
  }

  /** No object spells one name in two ways; repeating a key as it is does not matter. */
  predicate OneSpelling(j: Json) {
    match j
    case Obj(ms) => SpelledOnce(Keys(ms)) && OneSpellingMembers(ms)
    case Arr(es) => OneSpellingElements(es)
    case _ => true
  }

  predicate OneSpellingMembers(ms: Members) {
    match ms
    case NoMembers => true
    case AddMember(init, _, val) => OneSpellingMembers(init) && OneSpelling(val)
  }

  predicate OneSpellingElements(es: Elements) {
    match es
    case NoElements => true
    case AddElement(init, val) => OneSpellingElements(init) && OneSpelling(val)
  }

  // ---- names ----

  ghost predicate ReadableKeys(ms: Members) {
    forall k :: k in Keys(ms) ==> Lexable(k) && Readable(k)
  }

  lemma {:induction false} LexicalKeys(ms: Members)
    requires LexicalMembers(ms)
    ensures forall k :: k in Keys(ms) ==> Lexable(k)
    decreases ms
  {
    if ms.AddMember? {
      LexicalKeys(ms.init);
    }
  }

  lemma {:induction false} CleanKeys(ms: Members, later: set<Text>)
    requires LexicalMembers(ms) && CleanMembers(ms, later)
    ensures ReadableKeys(ms)
    decreases ms
  {
    hide Readable, Lexable, Decode;
    if ms.AddMember? {
      CleanKeys(ms.init, later + {Decode(ms.key)});
    }
  }

  /** As long as the prototype is untouched, the properties are the names as they were read, without `__proto__`. */
  lemma {:induction false} PropertyNames(ms: Members)
    ensures EvalMembers(ms).JsObject?
    ensures EvalMembers(ms).proto == ObjectPrototype ==>
      forall x: Text :: x in EvalMembers(ms).props <==> x != PROTO && exists k :: k in Keys(ms) && Unescape(k) == x
    decreases ms
  {
    hide Unescape;
    if ms.AddMember? {
      PropertyNames(ms.init);
    }
  }

  lemma {:induction false} IntendedName(ms: Members, x: Text)
    ensures x in LastWins(ms) <==> exists k :: k in Keys(ms) && Decode(k) == x
    decreases ms
  {
    hide Decode, Intended;
    if ms.AddMember? {
      IntendedName(ms.init, x);
      assert ms.key in Keys(ms);
      if k :| k in Keys(ms) && Decode(k) == x {
        assert k in Keys(ms.init) || k == ms.key;
      }
      if x in LastWins(ms.init) {
        var k :| k in Keys(ms.init) && Decode(k) == x;
        assert k in Keys(ms);
      }
    }
  }

  /**
     If every meant name is read from some key, all keys are readable: what an unreadable key is read
     as exceeds what it means, so the smallest meaning of one could only be read from another key.
   */
  lemma {:induction false} NamesForceReadable(keys: set<Text>, k: Text)
    requires SpelledOnce(keys) && k in keys && forall l :: l in keys ==> Lexable(l)
    requires forall l :: l in keys ==> exists m :: m in keys && Unescape(m) == Decode(l)
    ensures Readable(k)
    decreases Size(Decode(k)), Controls(Decode(k))
  {
    hide Unescape, Decode, Readable, Lexable, Size, Controls, Exceeds, SpelledOnce;
    var m :| m in keys && Unescape(m) == Decode(k);
    ReadExactly(m);
    if Readable(m) {
      SameName(keys, m, k);
    } else {
      ExceedsOrders(Decode(k), Decode(m));
      NamesForceReadable(keys, m);
    }
  }

  lemma SameName(keys: set<Text>, k: Text, l: Text)
    requires SpelledOnce(keys) && k in keys && l in keys && Decode(k) == Decode(l)
    ensures k == l
  {
  }

  lemma ExceedsOrders(a: Text, b: Text)
    requires Exceeds(a, b)
    ensures Size(b) < Size(a) || (Size(b) == Size(a) && Controls(b) < Controls(a))
  {
  }

  // ---- values ----

  predicate AgreeOutside(a: map<Text, JsValue>, b: map<Text, JsValue>, later: set<Text>) {
    && (forall x :: x in a && x !in later ==> x in b && a[x] == b[x])
    && (forall x :: x in b && x !in later ==> x in a)
  }

  /** A clean text is read as it is meant; if it spells no name in two ways, no other one is. */
  lemma {:induction false} EvalIntended(j: Json)
    requires Lexical(j)
    ensures Clean(j) ==> Eval(j) == Intended(j)
    ensures OneSpelling(j) && Eval(j) == Intended(j) ==> Clean(j)
    decreases j, 0
  {
    hide Unescape, Decode, Readable, Lexable;
    match j {
      case Str(text) => ReadExactly(text);
      case Obj(ms) => EvalIntendedObject(ms);
      case Arr(es) => EvalIntendedElements(es);
      case _ =>
    }
  }

  lemma {:induction false} EvalIntendedObject(ms: Members)
    requires LexicalMembers(ms)
    ensures CleanMembers(ms, {}) ==> EvalMembers(ms) == JsObject(LastWins(ms), ObjectPrototype)
    ensures SpelledOnce(Keys(ms)) && OneSpellingMembers(ms) ==>
      (EvalMembers(ms) == JsObject(LastWins(ms), ObjectPrototype) ==> CleanMembers(ms, {}))
    decreases ms, 1
  {
    hide Unescape, Decode, Readable, Lexable, EvalMembers, LastWins, CleanMembers, SpelledOnce, OneSpellingMembers,
      ReadableKeys;
    PropertyNames(ms);
    SameMaps(EvalMembers(ms).props, LastWins(ms));
    if CleanMembers(ms, {}) {
      CleanKeys(ms, {});
      EvalIntendedMembers(ms, {});
    } else if SpelledOnce(Keys(ms)) && EvalMembers(ms) == JsObject(LastWins(ms), ObjectPrototype) {
      EqualNamesReadable(ms);
      EvalIntendedMembers(ms, {});
    }
  }

  lemma EqualNamesReadable(ms: Members)
    requires LexicalMembers(ms) && SpelledOnce(Keys(ms))
    requires EvalMembers(ms) == JsObject(LastWins(ms), ObjectPrototype)
    ensures ReadableKeys(ms)
  {
    hide Unescape, Decode, Readable, Lexable, EvalMembers, LastWins, SpelledOnce;
    LexicalKeys(ms);
    PropertyNames(ms);
    forall k | k in Keys(ms)
      ensures exists m :: m in Keys(ms) && Unescape(m) == Decode(k)
    {
      IntendedName(ms, Decode(k));
      assert Decode(k) in LastWins(ms);
    }
    forall k | k in Keys(ms)
      ensures Readable(k)
    {
      NamesForceReadable(Keys(ms), k);
    }
  }

  lemma SameMaps(a: map<Text, JsValue>, b: map<Text, JsValue>)
    ensures AgreeOutside(a, b, {}) <==> a == b
  {
    if AgreeOutside(a, b, {}) {
      assert forall x :: x in a <==> x in b;
      assert a == b;
    }
  }

  /** With readable keys, what matters is `__proto__` and the surviving values. */
  lemma {:induction false} EvalIntendedMembers(ms: Members, later: set<Text>)
    requires LexicalMembers(ms) && ReadableKeys(ms) && PROTO !in later
    ensures EvalMembers(ms).JsObject?
    ensures CleanMembers(ms, later) ==>
      EvalMembers(ms).proto == ObjectPrototype && AgreeOutside(EvalMembers(ms).props, LastWins(ms), later)
    ensures OneSpellingMembers(ms) && EvalMembers(ms).proto == ObjectPrototype ==>
      (AgreeOutside(EvalMembers(ms).props, LastWins(ms), later) ==> CleanMembers(ms, later))
    decreases ms, 0
  {
    hide Unescape, Decode, Readable, Lexable, AgreeOutside;
    PropertyNames(ms);
    if ms.AddMember? {
      assert ms.key in Keys(ms);
      ReadExactly(ms.key);
      PropertyNames(ms.init);
      var key := Decode(ms.key);
      if key == PROTO {
        if EvalMembers(ms).proto == ObjectPrototype {
          ProtoDisagrees(EvalMembers(ms), LastWins(ms), later);
        }
      } else {
        EvalIntended(ms.val);
        EvalIntendedMembers(ms.init, later + {key});
        var o := EvalMembers(ms.init);
        AgreeUpdate(o.props, LastWins(ms.init), key, Eval(ms.val), Intended(ms.val), later);
      }
    } else {
      assert AgreeOutside(map[], map[], later) by { NothingDisagrees(later); }
    }
  }

  lemma NothingDisagrees(later: set<Text>)
    ensures AgreeOutside(map[], map[], later)
  {
  }

  lemma ProtoDisagrees(o: JsValue, b: map<Text, JsValue>, later: set<Text>)
    requires o.JsObject? && PROTO !in later && PROTO in b && PROTO !in o.props
    ensures !AgreeOutside(o.props, b, later)
  {
  }

  lemma AgreeUpdate(a: map<Text, JsValue>, b: map<Text, JsValue>, key: Text, v: JsValue, w: JsValue, later: set<Text>)
    ensures AgreeOutside(a[key := v], b[key := w], later)
      <==> (key in later || v == w) && AgreeOutside(a, b, later + {key})
  {
    var a', b' := a[key := v], b[key := w];
    if AgreeOutside(a', b', later) {
      if key !in later {
        assert a'[key] == b'[key];
      }
      forall x | x in a && x !in later + {key}
        ensures x in b && a[x] == b[x]
      {
        assert x in a' && a'[x] == a[x];
      }
      forall x | x in b && x !in later + {key}
        ensures x in a
      {
        assert x in b';
      }
    }
  }

  lemma {:induction false} EvalIntendedElements(es: Elements)
    requires LexicalElements(es)
    ensures CleanElements(es) ==> EvalElements(es) == IntendedElements(es)
    ensures OneSpellingElements(es) && EvalElements(es) == IntendedElements(es) ==> CleanElements(es)
    ensures |EvalElements(es)| == |IntendedElements(es)|
    decreases es, 0
  {
    if es.AddElement? {
      EvalIntendedElements(es.init);
      EvalIntended(es.val);
      AppendEqual(EvalElements(es.init), Eval(es.val), IntendedElements(es.init), Intended(es.val));
    }
  }

  lemma AppendEqual(s: seq<JsValue>, x: JsValue, t: seq<JsValue>, y: JsValue)
    ensures s + [x] == t + [y] <==> s == t && x == y
  {
    if s + [x] == t + [y] {
      assert |s + [x]| == |t + [y]|;
      assert s == (s + [x])[..|s|] && t == (t + [y])[..|t|];
      assert x == (s + [x])[|s|] && y == (t + [y])[|t|];
    }
  }

  // ---- any text, also one that spells a name in two ways ----

  /** The value of the last member whose key is read as x. */
  function LastRead(ms: Members, x: Text): (r: Option<Json>)
    ensures r.Some? ==> (ms decreases to r.value)
  {
    match ms
    case NoMembers => None
    case AddMember(init, key, val) => if Unescape(key) == x then Some(val) else LastRead(init, x)
  }

  /** The value of the last member whose key means x. */
  function LastMeant(ms: Members, x: Text): Option<Json> {
    match ms
    case NoMembers => None
    case AddMember(init, key, val) => if Decode(key) == x then Some(val) else LastMeant(init, x)
  }

  /** The names ms has as it is read and ns as it is meant. */
  function Names(ms: Members, ns: Members): set<Text> {
    (set k | k in Keys(ms) :: Unescape(k)) + (set k | k in Keys(ns) :: Decode(k))
  }

  /** Nothing read under `__proto__` replaces the prototype: only assigning a primitive value has no effect. */
  predicate PrototypeKept(ms: Members) {
    match ms
    case NoMembers => true
    case AddMember(init, key, val) =>
      PrototypeKept(init) && (Unescape(key) == PROTO ==> !val.Obj? && !val.Arr? && !val.Null?)
  }

  /** What a is read as is what b means, compared text by text. */
  predicate ReadsAs(a: Json, b: Json)
    decreases a, 1
  {
    match (a, b)
    case (Str(t), Str(u)) => Unescape(t) == Decode(u)
    case (Num(t), Num(u)) => t == u
    case (Null, Null) => true
    case (True, True) => true
    case (False, False) => true
    case (Obj(ms), Obj(ns)) =>
      PrototypeKept(ms) && LastMeant(ns, PROTO).None?
      && forall x :: x in Names(ms, ns) && x != PROTO ==> NameReadsAs(ms, ns, x)
    case (Arr(es), Arr(fs)) => ElementsReadAs(es, fs)
    case _ => false
  }

  /** The last value read under x is the one last meant under x, or there is neither. */
  predicate NameReadsAs(ms: Members, ns: Members, x: Text)
    decreases ms, 0
  {
    match (LastRead(ms, x), LastMeant(ns, x))
    case (None, None) => true
    case (Some(v), Some(w)) => ReadsAs(v, w)
    case _ => false
  }

  predicate ElementsReadAs(es: Elements, fs: Elements)
    decreases es, 0
  {
    match (es, fs)
    case (NoElements, NoElements) => true
    case (AddElement(init, v), AddElement(init', w)) => ElementsReadAs(init, init') && ReadsAs(v, w)
    case _ => false
  }

  lemma EvalKind(j: Json)
    ensures Eval(j).JsObject? <==> j.Obj?
    ensures (Eval(j).JsArray? <==> j.Arr?) && (Eval(j).JsNull? <==> j.Null?)
  {
    if j.Obj? {
      PropertyNames(j.members);
    }
  }

  /** Once the prototype is replaced, no assignment brings Object.prototype back. */
  lemma {:induction false} ReadPrototype(ms: Members)
    ensures EvalMembers(ms).JsObject? && (EvalMembers(ms).proto == ObjectPrototype <==> PrototypeKept(ms))
    ensures PrototypeKept(ms) ==> PROTO !in EvalMembers(ms).props
    decreases ms
  {
    hide Unescape, Eval;
    if ms.AddMember? {
      ReadPrototype(ms.init);
      EvalKind(ms.val);
    }
  }

  lemma {:induction false} ReadValues(ms: Members, x: Text)
    requires PrototypeKept(ms) && x != PROTO
    ensures EvalMembers(ms).JsObject? && (x in EvalMembers(ms).props <==> LastRead(ms, x).Some?)
    ensures LastRead(ms, x).Some? ==> EvalMembers(ms).props[x] == Eval(LastRead(ms, x).value)
    decreases ms
  {
    hide Unescape, Eval;
    ReadPrototype(ms);
    if ms.AddMember? {
      EvalKind(ms.val);
      ReadPrototype(ms.init);
      ReadValues(ms.init, x);
    }
  }

  lemma {:induction false} MeantValues(ms: Members, x: Text)
    ensures x in LastWins(ms) <==> LastMeant(ms, x).Some?
    ensures LastMeant(ms, x).Some? ==> LastWins(ms)[x] == Intended(LastMeant(ms, x).value)
    decreases ms
  {
    hide Decode, Intended;
    if ms.AddMember? {
      MeantValues(ms.init, x);
    }
  }

  lemma {:induction false} NotRead(ms: Members, x: Text)
    requires forall k :: k in Keys(ms) ==> Unescape(k) != x
    ensures LastRead(ms, x).None?
    decreases ms
  {
    hide Unescape;
    if ms.AddMember? {
      assert ms.key in Keys(ms) && forall k :: k in Keys(ms.init) ==> k in Keys(ms);
      NotRead(ms.init, x);
    }
  }

  lemma {:induction false} NotMeant(ms: Members, x: Text)
    requires forall k :: k in Keys(ms) ==> Decode(k) != x
    ensures LastMeant(ms, x).None?
    decreases ms
  {
    hide Decode;
    if ms.AddMember? {
      assert ms.key in Keys(ms) && forall k :: k in Keys(ms.init) ==> k in Keys(ms);
      NotMeant(ms.init, x);
    }
  }

  /** The property x of the object read and of the object meant. */
  ghost predicate SameProperty(ms: Members, ns: Members, x: Text) {
    var o, m := EvalMembers(ms), LastWins(ns);
    o.JsObject? && (x in o.props <==> x in m) && (x in m ==> o.props[x] == m[x])
  }

  lemma {:induction false} SamePropertyExactly(ms: Members, ns: Members, x: Text)
    requires PrototypeKept(ms) && x != PROTO
    ensures SameProperty(ms, ns, x) <==> NameReadsAs(ms, ns, x)
    ensures x !in Names(ms, ns) ==> NameReadsAs(ms, ns, x)
    decreases ms, 0
  {
    hide Unescape, Decode, Eval, Intended, EvalMembers, LastWins, LastRead, LastMeant, ReadsAs, PrototypeKept;
    ReadValues(ms, x);
    MeantValues(ns, x);
    if LastRead(ms, x).Some? && LastMeant(ns, x).Some? {
      ReadsAsExactly(LastRead(ms, x).value, LastMeant(ns, x).value);
    }
    if x !in Names(ms, ns) {
      NotRead(ms, x);
      NotMeant(ns, x);
    }
  }

  lemma {:induction false} MembersReadAs(ms: Members, ns: Members)
    ensures EvalMembers(ms) == JsObject(LastWins(ns), ObjectPrototype) <==> ReadsAs(Obj(ms), Obj(ns))
    decreases ms, 1
  {
    hide Unescape, Decode, EvalMembers, LastWins, LastRead, LastMeant, NameReadsAs, Names, PrototypeKept, SameProperty;
    ReadPrototype(ms);
    if PrototypeKept(ms) {
      MeantValues(ns, PROTO);
      forall x: Text | x != PROTO
        ensures SameProperty(ms, ns, x) <==> NameReadsAs(ms, ns, x)
        ensures x !in Names(ms, ns) ==> NameReadsAs(ms, ns, x)
      {
        SamePropertyExactly(ms, ns, x);
      }
      SameProperties(ms, ns);
    }
  }

  lemma SameProperties(ms: Members, ns: Members)
    requires EvalMembers(ms).JsObject? && PROTO !in EvalMembers(ms).props
    ensures EvalMembers(ms).props == LastWins(ns) <==>
      PROTO !in LastWins(ns) && forall x: Text :: x != PROTO ==> SameProperty(ms, ns, x)
  {
    hide EvalMembers, LastWins;
    var o, m := EvalMembers(ms).props, LastWins(ns);
    if PROTO !in m && forall x: Text :: x != PROTO ==> SameProperty(ms, ns, x) {
      forall x: Text
        ensures (x in o <==> x in m) && (x in m ==> o[x] == m[x])
      {
        assert x != PROTO ==> SameProperty(ms, ns, x);
      }
      assert o == m;
    }
  }

  lemma {:induction false} ElementsReadAsExactly(es: Elements, fs: Elements)
    ensures EvalElements(es) == IntendedElements(fs) <==> ElementsReadAs(es, fs)
    decreases es, 1
  {
    hide Eval, Intended, ReadsAs;
    if es.AddElement? && fs.AddElement? {
      ElementsReadAsExactly(es.init, fs.init);
      ReadsAsExactly(es.val, fs.val);
      AppendEqual(EvalElements(es.init), Eval(es.val), IntendedElements(fs.init), Intended(fs.val));
    }
  }

  /** The value read from a is the value b means exactly if their texts say so, without any condition on either. */
  lemma {:induction false} ReadsAsExactly(a: Json, b: Json)
    ensures Eval(a) == Intended(b) <==> ReadsAs(a, b)
    decreases a, 2
  {
    hide Unescape, Decode, EvalMembers, LastWins, EvalElements, IntendedElements;
    if a.Obj? && b.Obj? {
      MembersReadAs(a.members, b.members);
    } else if a.Arr? && b.Arr? {
      ElementsReadAsExactly(a.elements, b.elements);
    } else {
      EvalKind(a);
    }
  }

  /** Only a key that means `__proto__` is read as it. */
  lemma ReadAsProto(k: Text)
    requires Lexable(k) && Unescape(k) == PROTO
    ensures Decode(k) == PROTO
  {
    hide Unescape, Decode, Readable, Lexable, Stage;
    ReadExactly(k);
    UnescapeIsStage(k);
    if !Readable(k) {
      WrongReadingShows(k);
    }
  }

  lemma {:induction false} NotReadAsProto(ms: Members)
    requires LexicalMembers(ms) && forall k :: k in Keys(ms) ==> Decode(k) != PROTO
    ensures PrototypeKept(ms)
    decreases ms
  {
    hide Unescape, Decode, Lexable;
    if ms.AddMember? {
      assert ms.key in Keys(ms) && forall k :: k in Keys(ms.init) ==> k in Keys(ms);
      NotReadAsProto(ms.init);
      if Unescape(ms.key) == PROTO {
        ReadAsProto(ms.key);
      }
    }
  }

  lemma {:induction false} MeantByKey(ms: Members, k: Text)
    requires k in Keys(ms)
    ensures LastMeant(ms, Decode(k)).Some?
    decreases ms
  {
    hide Decode;
    if k != ms.key {
      MeantByKey(ms.init, k);
    }
  }

  /**
     Any object, also one that spells a name in two ways, is read as it is meant exactly if no key means
     `__proto__` and, for each name of one of its keys, the last value read under it is the one last meant.
   */
  lemma ObjectExactly(ms: Members)
    requires LexicalMembers(ms)
    ensures Eval(Obj(ms)) == Intended(Obj(ms)) <==>
      (forall k :: k in Keys(ms) ==> Decode(k) != PROTO)
      && forall x :: x in Names(ms, ms) && x != PROTO ==> NameReadsAs(ms, ms, x)
  {
    hide Unescape, Decode, Lexable, EvalMembers, LastWins, LastRead, LastMeant, Keys, Names, NameReadsAs;
    MembersReadAs(ms, ms);
    if forall k :: k in Keys(ms) ==> Decode(k) != PROTO {
      NotReadAsProto(ms);
      NotMeant(ms, PROTO);
    } else {
      var k :| k in Keys(ms) && Decode(k) == PROTO;
      MeantByKey(ms, k);
    }
  }

  // ---- the theorem and its witnesses ----

  /**
     A JSON text comes back with its meaning exactly if it reads as itself.  If its objects spell no name
     in two ways that is so exactly if it is clean, and a clean text always does.
   */
  lemma RoundTrip(input: seq<Token>, j: Json)
    requires ReadsAt(input, 0, Yield(j) + [Plain(EOF)]) && Lexical(j)
    ensures ParseResult(input) == Returned(Intended(j)) <==> ReadsAs(j, j)
    ensures OneSpelling(j) ==> (ParseResult(input) == Returned(Intended(j)) <==> Clean(j))
    ensures Clean(j) ==> ParseResult(input) == Returned(Intended(j))
  {
    hide Clean, OneSpelling, ReadsAs;
    ParseComplete(input, j);
    EvalIntended(j);
    ReadsAsExactly(j, j);
  }

  /** The text {"__proto__":1} is read as the empty object. */
  lemma ProtoKeyIsLost()
    ensures (var j := Obj(AddMember(NoMembers, PROTO, Num([49])));
      Lexical(j) && Eval(j) == EMPTY_OBJECT && Intended(j) == JsObject(map[PROTO := JsNumber([49])], ObjectPrototype))
  {
    hide Unescape, SetProperty, Decode, Readable, Lexable;
    var ms := AddMember(NoMembers, PROTO, Num([49]));
    PlainText(PROTO);
    ReadExactly(PROTO);
    ProtoAssignment(JsNumber([49]));
    assert LastWins(ms) == LastWins(NoMembers)[PROTO := JsNumber([49])];
  }

  lemma ProtoAssignment(v: JsValue)
    ensures SetProperty(EMPTY_OBJECT, PROTO, v) ==
      if v.JsObject? || v.JsArray? then JsObject(map[], Inherits(v))
      else if v.JsNull? then JsObject(map[], NoPrototype) else EMPTY_OBJECT
  {
  }

  /** A text without escapes spells itself and is readable. */
  lemma {:induction false} PlainText(t: Text)
    requires forall k :: 0 <= k < |t| ==> t[k] >= 32 && t[k] != BACKSLASH && t[k] != QUOTE
    ensures Lexable(t) && Readable(t) && Decode(t) == t
    decreases |t|
  {
    if t != [] {
      PlainText(t[1..]);
    }
  }

  /**
     An object that spells one name in two ways can come back with its meaning by coincidence: the
     keys a, backslash-u0061 and a spelled by its four-digit escape, all with the same value.
   */
  lemma TwoSpellingsCoincide(v: Json)
    requires Lexical(v) && Eval(v) == Intended(v)
    ensures (var four: Text := [BACKSLASH, LETTER_U, 48, 48, 54, 49];
      var j := Obj(AddMember(AddMember(AddMember(NoMembers, [97], v), [BACKSLASH] + four, v), four, v));
      Lexical(j) && !OneSpelling(j) && !Clean(j) && Eval(j) == Intended(j))
  {
    hide Unescape, Decode, Readable, Lexable;
    var a: Text := [97];
    var four: Text := [BACKSLASH, LETTER_U, 48, 48, 54, 49];
    var b := [BACKSLASH] + four;
    PlainText(a);
    ReadExactly(a);
    SpellingsOfA();
    ReadExactly(b);
    assert |a| == 1 && |b| == 7 && |four| == 6 && |PROTO| == 9;
    ThreeKeys(a, b, four, v);
  }

  /** b spells what c is read as, and c spells a. */
  lemma ThreeKeys(a: Text, b: Text, c: Text, v: Json)
    requires Lexical(v) && Eval(v) == Intended(v) && a != c && a != PROTO && c != PROTO
    requires Lexable(a) && Lexable(b) && Lexable(c) && !Readable(c)
    requires Unescape(a) == a == Decode(a) && Unescape(b) == c == Decode(b) && Unescape(c) == c && Decode(c) == a
    ensures (var j := Obj(AddMember(AddMember(AddMember(NoMembers, a, v), b, v), c, v));
      Lexical(j) && !OneSpelling(j) && !Clean(j) && Eval(j) == Intended(j))
  {
    hide Unescape, Decode, Readable, Lexable;
    var first := AddMember(NoMembers, a, v);
    var second := AddMember(first, b, v);
    var third := AddMember(second, c, v);
    var e := Eval(v);
    assert EvalMembers(first) == JsObject(map[a := e], ObjectPrototype);
    assert EvalMembers(second) == JsObject(map[a := e][c := e], ObjectPrototype);
    assert EvalMembers(third) == JsObject(map[a := e][c := e][c := e], ObjectPrototype);
    assert LastWins(first) == map[a := e];
    assert LastWins(second) == map[a := e][c := e];
    assert LastWins(third) == map[a := e][c := e][a := e];
    assert map[a := e][c := e][c := e] == map[a := e][c := e][a := e];
    assert a in Keys(first) && a in Keys(second) && a in Keys(third) && c in Keys(third);
    assert LexicalMembers(NoMembers) && LexicalMembers(first) && LexicalMembers(second) && LexicalMembers(third);
  }

  lemma SpellingsOfA()
    ensures (var four: Text := [BACKSLASH, LETTER_U, 48, 48, 54, 49];
      && Lexable(four) && Decode(four) == [97] && Unescape(four) == four && !Readable(four)
      && Lexable([BACKSLASH] + four) && Readable([BACKSLASH] + four) && Decode([BACKSLASH] + four) == four)
  {
    var four: Text := [BACKSLASH, LETTER_U, 48, 48, 54, 49];
    assert four[2..6] == [48, 48, 54, 49] && four[6..] == [];
    UnescapeIsStage(four);
    StageOfHex(four);
    assert four[..6] == four;
    var t := [BACKSLASH] + four;
    assert t[2..] == [LETTER_U, 48, 48, 54, 49];
    PlainText(t[2..]);
    assert Decode(t) == [BACKSLASH] + Decode(t[2..]);
  }
}
