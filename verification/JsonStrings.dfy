/**
 What the linter's chain of global replacements makes of a string's text, and exactly when that
 is what section 7 of RFC 8259 says the text spells.
 */
module JsonStrings {
  import opened JsonValues

  // ---- the texts of string tokens and what they spell ----

  predicate IsHexDigit(c: Unit) {
    48 <= c <= 57 || 65 <= c <= 70 || 97 <= c <= 102
  }

  predicate AreHexDigits(h: Text) {
    forall k :: 0 <= k < |h| ==> IsHexDigit(h[k])
  }

  function HexDigit(c: Unit): (d: int)
    requires IsHexDigit(c)
    ensures 0 <= d < 16
  {
    if c <= 57 then c - 48 else if c <= 70 then c - 55 else c - 87
  }

  function HexValue(h: Text): Unit
    requires |h| == 4 && AreHexDigits(h)
  {
    HexDigit(h[0]) * 4096 + HexDigit(h[1]) * 256 + HexDigit(h[2]) * 16 + HexDigit(h[3])
  }

  /** The characters that may follow a backslash by themselves. */
  predicate IsEscaped(c: Unit) {
    c == BACKSLASH || c == QUOTE || c == SLASH
    || c == LETTER_B || c == LETTER_F || c == LETTER_N || c == LETTER_R || c == LETTER_T
  }

  /** The lexer's string rule, between the quotes. */
  predicate Lexable(t: Text) {
    if t == [] then true
    else if t[0] == BACKSLASH then
      |t| >= 2 &&
      (if t[1] == LETTER_U then |t| >= 6 && AreHexDigits(t[2..6]) && Lexable(t[6..])
       else IsEscaped(t[1]) && Lexable(t[2..]))
    else t[0] >= 32 && t[0] != QUOTE && Lexable(t[1..])
  }

  /** The character that a two-character escape stands for. */
  function Escaped(c: Unit): Unit {
    if c == LETTER_B then BACKSPACE else if c == LETTER_F then FORM_FEED else if c == LETTER_N then LINE_FEED
    else if c == LETTER_R then CARRIAGE_RETURN else if c == LETTER_T then TAB else c
  }

  /** The string that a text spells, by section 7 of RFC 8259. */
  function Decode(t: Text): Text {
    if t == [] then []
    else if t[0] != BACKSLASH || |t| == 1 then [t[0]] + Decode(t[1..])
    else if t[1] == LETTER_U && |t| >= 6 && AreHexDigits(t[2..6]) then [HexValue(t[2..6])] + Decode(t[6..])
    else [Escaped(t[1])] + Decode(t[2..])
  }

  // ---- the condition ----

  /** The letters that the chain replaces behind a backslash. */
  predicate IsLetter(c: Unit) {
    c == LETTER_N || c == LETTER_R || c == LETTER_T || c == LETTER_V || c == LETTER_F || c == LETTER_B
  }

  /** No four-digit escape, no escaped slash, and no escaped backslash before one of the letters. */
  predicate Readable(t: Text) {
    if |t| < 2 then true
    else if t[0] != BACKSLASH then Readable(t[1..])
    else if t[1] == LETTER_U || t[1] == SLASH then false
    else if t[1] == BACKSLASH && |t| >= 3 && IsLetter(t[2]) then false
    else Readable(t[2..])
  }

  // ---- the chain of replacements ----

  function Control(c: Unit): Unit
    requires IsLetter(c)
  {
    if c == LETTER_V then VERTICAL_TAB else Escaped(c)
  }

  /**
   The text after quotes and backslashes are unescaped and the letters in `done` are replaced: an
   escaped backslash before such a letter has been taken for the start of an escape.
   */
  function Stage(t: Text, done: set<Unit>): Text {
    if t == [] then []
    else if t[0] != BACKSLASH || |t| == 1 then [t[0]] + Stage(t[1..], done)
    else if t[1] == BACKSLASH then
      if |t| >= 3 && IsLetter(t[2]) && t[2] in done then [Control(t[2])] + Stage(t[3..], done)
      else [BACKSLASH] + Stage(t[2..], done)
    else if t[1] == QUOTE then [QUOTE] + Stage(t[2..], done)
    else if IsLetter(t[1]) && t[1] in done then [Control(t[1])] + Stage(t[2..], done)
    else [BACKSLASH, t[1]] + Stage(t[2..], done)
  }

  lemma DropCons(c: Unit, t: Text)
    requires c != BACKSLASH
    ensures DropEscapes([c] + t) == [c] + DropEscapes(t)
  {
    assert ([c] + t)[1..] == t;
  }

  lemma ReplaceCons(x: Unit, t: Text, c: Unit, r: Unit)
    requires x != BACKSLASH || t == [] || t[0] != c
    ensures ReplaceEscape([x] + t, c, r) == [x] + ReplaceEscape(t, c, r)
  {
    assert ([x] + t)[1..] == t;
  }

  lemma {:induction false} DropsToStage(t: Text)
    requires Lexable(t)
    ensures DropEscapes(t) == Stage(t, {})
    decreases |t|
  {
    hide IsEscaped;
    if t == [] {
    } else if t[0] != BACKSLASH {
      DropsToStage(t[1..]);
    } else if t[1] == BACKSLASH || t[1] == QUOTE {
      assert IsEscaped(t[1]) && Lexable(t[2..]) by { hide AreHexDigits; }
      DropsToStage(t[2..]);
    } else {
      LexableTail(t);
      DropsToStage(t[2..]);
      assert t[1..] == [t[1]] + t[2..];
      DropCons(t[1], t[2..]);
    }
  }

  /** Behind the first two characters of any escape the text goes on like a text. */
  lemma LexableTail(t: Text)
    requires Lexable(t) && t != [] && t[0] == BACKSLASH
    ensures |t| >= 2 && Lexable(t[2..]) && (t[1] == LETTER_U || IsEscaped(t[1]))
  {
    if t[1] == LETTER_U {
      var h, rest := t[2..6], t[6..];
      assert t[2..] == [h[0]] + ([h[1]] + ([h[2]] + ([h[3]] + rest)));
      hide Lexable, IsEscaped;
      LexableCons(h[3], rest);
      LexableCons(h[2], [h[3]] + rest);
      LexableCons(h[1], [h[2]] + ([h[3]] + rest));
      LexableCons(h[0], [h[1]] + ([h[2]] + ([h[3]] + rest)));
    }
  }

  lemma LexableCons(c: Unit, t: Text)
    requires IsHexDigit(c) && Lexable(t)
    ensures Lexable([c] + t)
  {
    assert ([c] + t)[1..] == t;
  }

  lemma ReplaceHit(t: Text, c: Unit, r: Unit)
    ensures ReplaceEscape([BACKSLASH, c] + t, c, r) == [r] + ReplaceEscape(t, c, r)
  {
    assert ([BACKSLASH, c] + t)[2..] == t;
  }

  lemma ReplacePair(m: Unit, t: Text, c: Unit, r: Unit)
    requires m != BACKSLASH
    ensures ReplaceEscape([BACKSLASH, m] + t, c, r) ==
      if m == c then [r] + ReplaceEscape(t, c, r) else [BACKSLASH, m] + ReplaceEscape(t, c, r)
  {
    hide ReplaceEscape;
    if m == c {
      ReplaceHit(t, c, r);
    } else {
      assert [BACKSLASH, m] + t == [BACKSLASH] + ([m] + t);
      ReplaceCons(BACKSLASH, [m] + t, c, r);
      ReplaceCons(m, t, c, r);
      assert [BACKSLASH] + ([m] + ReplaceEscape(t, c, r)) == [BACKSLASH, m] + ReplaceEscape(t, c, r);
    }
  }

  /** One global replacement settles one more letter. */
  lemma {:induction false} ReplaceAdvances(t: Text, done: set<Unit>, l: Unit)
    requires Lexable(t) && IsLetter(l) && l !in done
    ensures ReplaceEscape(Stage(t, done), l, Control(l)) == Stage(t, done + {l})
    decreases |t|, 1
  {
    if t == [] {
    } else if t[0] != BACKSLASH {
      ReplaceAdvances(t[1..], done, l);
      ReplaceCons(t[0], Stage(t[1..], done), l, Control(l));
    } else {
      LexableTail(t);
      if t[1] == BACKSLASH {
        AdvanceBackslash(t, done, l);
      } else {
        AdvanceEscape(t, done, l);
      }
    }
  }

  lemma {:induction false} AdvanceEscape(t: Text, done: set<Unit>, l: Unit)
    requires Lexable(t) && IsLetter(l) && l !in done && |t| >= 2 && t[0] == BACKSLASH && t[1] != BACKSLASH
    requires Lexable(t[2..])
    ensures ReplaceEscape(Stage(t, done), l, Control(l)) == Stage(t, done + {l})
    decreases |t|, 0
  {
    hide Lexable, ReplaceEscape;
    var rest := Stage(t[2..], done);
    ReplaceAdvances(t[2..], done, l);
    if t[1] == QUOTE {
      ReplaceCons(QUOTE, rest, l, Control(l));
    } else if IsLetter(t[1]) && t[1] in done {
      ReplaceCons(Control(t[1]), rest, l, Control(l));
    } else {
      ReplacePair(t[1], rest, l, Control(l));
    }
  }

  lemma {:induction false} AdvanceBackslash(t: Text, done: set<Unit>, l: Unit)
    requires IsLetter(l) && l !in done && |t| >= 2 && t[0] == BACKSLASH == t[1] && Lexable(t[2..])
    ensures ReplaceEscape(Stage(t, done), l, Control(l)) == Stage(t, done + {l})
    decreases |t|, 0
  {
    hide ReplaceEscape;
    if |t| >= 3 && IsLetter(t[2]) {
      assert t[2..][1..] == t[3..];
      ReplaceAdvances(t[3..], done, l);
      StageBackslash(t, done);
      StageBackslash(t, done + {l});
      hide Stage;
      var rest := Stage(t[3..], done);
      if t[2] in done {
        ReplaceCons(Control(t[2]), rest, l, Control(l));
      } else {
        ReplacePair(t[2], rest, l, Control(l));
      }
    } else {
      ReplaceAdvances(t[2..], done, l);
      StageHead(t[2..], done);
      ReplaceCons(BACKSLASH, Stage(t[2..], done), l, Control(l));
    }
  }

  lemma StageBackslash(t: Text, done: set<Unit>)
    requires |t| >= 3 && t[0] == BACKSLASH == t[1] && IsLetter(t[2])
    ensures Stage(t, done) ==
      if t[2] in done then [Control(t[2])] + Stage(t[3..], done) else [BACKSLASH, t[2]] + Stage(t[3..], done)
  {
    assert t[2..][1..] == t[3..];
    if t[2] !in done {
      assert [BACKSLASH] + ([t[2]] + Stage(t[3..], done)) == [BACKSLASH, t[2]] + Stage(t[3..], done);
    }
  }

  /** A stage starts with a letter only if the text does. */
  lemma StageHead(t: Text, done: set<Unit>)
    requires t == [] || !IsLetter(t[0])
    ensures Stage(t, done) == [] || !IsLetter(Stage(t, done)[0])
  {
  }

  const ALL: set<Unit> := {LETTER_N, LETTER_R, LETTER_T, LETTER_V, LETTER_F, LETTER_B}

  /** The whole chain at once. */
  lemma UnescapeIsStage(t: Text)
    requires Lexable(t)
    ensures Unescape(t) == Stage(t, ALL)
  {
    hide Stage, ReplaceEscape, DropEscapes, Lexable;
    var d1, d2 := {LETTER_N}, {LETTER_N, LETTER_R};
    var d3, d4 := d2 + {LETTER_T}, d2 + {LETTER_T} + {LETTER_V};
    var d5 := d4 + {LETTER_F};
    DropsToStage(t);
    ReplaceAdvances(t, {}, LETTER_N);
    assert {} + {LETTER_N} == d1 && d1 + {LETTER_R} == d2;
    ReplaceAdvances(t, d1, LETTER_R);
    ReplaceAdvances(t, d2, LETTER_T);
    ReplaceAdvances(t, d3, LETTER_V);
    ReplaceAdvances(t, d4, LETTER_F);
    ReplaceAdvances(t, d5, LETTER_B);
    assert d5 + {LETTER_B} == ALL;
  }

  // ---- what a wrong reading costs ----

  /** The number of control characters. */
  function Controls(s: Text): nat {
    if s == [] then 0 else (if s[0] < 32 then 1 else 0) + Controls(s[1..])
  }

  /** The length, with control characters counted twice. */
  function Size(s: Text): nat {
    |s| + Controls(s)
  }

  /** Either larger, or as large with more of it control characters. */
  predicate Exceeds(a: Text, b: Text) {
    Size(a) > Size(b) || (Size(a) == Size(b) && Controls(a) > Controls(b))
  }

  lemma ControlsCons(c: Unit, s: Text)
    ensures Controls([c] + s) == (if c < 32 then 1 else 0) + Controls(s)
  {
    assert ([c] + s)[1..] == s;
  }

  lemma ControlsPair(c: Unit, d: Unit, s: Text)
    ensures Controls([c, d] + s) == (if c < 32 then 1 else 0) + (if d < 32 then 1 else 0) + Controls(s)
  {
    assert ([c, d] + s)[1..] == [d] + s;
    ControlsCons(d, s);
  }

  /** Adding the same in front keeps the order. */
  lemma ExceedsCons(c: Unit, a: Text, b: Text)
    ensures Exceeds([c] + a, [c] + b) <==> Exceeds(a, b)
  {
    ControlsCons(c, a);
    ControlsCons(c, b);
  }

  lemma {:induction false} StageOfHex(t: Text)
    requires |t| >= 6 && t[0] == BACKSLASH && t[1] == LETTER_U && AreHexDigits(t[2..6])
    ensures Stage(t, ALL) == t[..6] + Stage(t[6..], ALL)
  {
    var h, rest := t[2..6], t[6..];
    assert t[2..] == [h[0]] + ([h[1]] + ([h[2]] + ([h[3]] + rest)));
    StageCons(h[3], rest);
    StageCons(h[2], [h[3]] + rest);
    StageCons(h[1], [h[2]] + ([h[3]] + rest));
    StageCons(h[0], [h[1]] + ([h[2]] + ([h[3]] + rest)));
    assert Stage(t, ALL) == [BACKSLASH, LETTER_U] + Stage(t[2..], ALL);
    hide Stage;
    assert t[..6] == [BACKSLASH, LETTER_U, h[0], h[1], h[2], h[3]];
  }

  lemma StageCons(c: Unit, t: Text)
    requires IsHexDigit(c)
    ensures Stage([c] + t, ALL) == [c] + Stage(t, ALL)
  {
    assert ([c] + t)[1..] == t;
  }

  lemma {:induction false} ControlsJoin(a: Text, b: Text)
    ensures Controls(a + b) == Controls(a) + Controls(b)
    decreases |a|
  {
    if a == [] {
      assert a + b == b;
    } else {
      ControlsJoin(a[1..], b);
      assert (a + b)[1..] == a[1..] + b;
    }
  }

  /** A four-digit escape stays six characters. */
  lemma HexCosts(t: Text)
    requires |t| >= 6 && t[0] == BACKSLASH && t[1] == LETTER_U && AreHexDigits(t[2..6])
    requires Size(Stage(t[6..], ALL)) >= Size(Decode(t[6..]))
    ensures Exceeds(Stage(t, ALL), Decode(t))
  {
    StageOfHex(t);
    assert Decode(t) == [HexValue(t[2..6])] + Decode(t[6..]);
    hide Stage, Decode, HexValue;
    ControlsJoin(t[..6], Stage(t[6..], ALL));
    ControlsCons(HexValue(t[2..6]), Decode(t[6..]));
  }

  /** An escaped slash keeps its backslash. */
  lemma SlashCosts(t: Text)
    requires |t| >= 2 && t[0] == BACKSLASH && t[1] == SLASH && Size(Stage(t[2..], ALL)) >= Size(Decode(t[2..]))
    ensures Exceeds(Stage(t, ALL), Decode(t))
  {
    assert Decode(t) == [SLASH] + Decode(t[2..]) && Stage(t, ALL) == [BACKSLASH, SLASH] + Stage(t[2..], ALL);
    hide Stage, Decode;
    ControlsPair(BACKSLASH, SLASH, Stage(t[2..], ALL));
    ControlsCons(SLASH, Decode(t[2..]));
  }

  /** An escaped backslash and a letter become one control character. */
  lemma MergeCosts(t: Text)
    requires |t| >= 3 && t[0] == BACKSLASH == t[1] && IsLetter(t[2])
    requires Stage(t[3..], ALL) == Decode(t[3..]) || Exceeds(Stage(t[3..], ALL), Decode(t[3..]))
    ensures Exceeds(Stage(t, ALL), Decode(t))
  {
    StageBackslash(t, ALL);
    assert t[2..][1..] == t[3..];
    assert Decode(t) == [BACKSLASH] + ([t[2]] + Decode(t[3..]));
    hide Stage, Decode;
    ControlsCons(Control(t[2]), Stage(t[3..], ALL));
    ControlsCons(t[2], Decode(t[3..]));
    ControlsCons(BACKSLASH, [t[2]] + Decode(t[3..]));
  }

  /** Every other piece is read as it is meant. */
  lemma PieceAgrees(t: Text)
    requires Lexable(t) && t != [] && (t[0] == BACKSLASH ==> t[1] != LETTER_U && t[1] != SLASH)
    requires |t| >= 3 && t[0] == BACKSLASH == t[1] ==> !IsLetter(t[2])
    ensures (var n, c := if t[0] == BACKSLASH then 2 else 1, if t[0] == BACKSLASH then Escaped(t[1]) else t[0];
      n <= |t| && Lexable(t[n..]) && (Readable(t) <==> Readable(t[n..]))
      && Stage(t, ALL) == [c] + Stage(t[n..], ALL) && Decode(t) == [c] + Decode(t[n..]))
  {
    if t[0] == BACKSLASH {
      LexableTail(t);
      hide Lexable;
      EscapeAgrees(t);
    } else {
      hide IsEscaped, AreHexDigits, HexValue, IsLetter, Control, Escaped;
      ShortReadable(t[1..]);
    }
  }

  lemma ShortReadable(t: Text)
    ensures |t| == 0 ==> Readable(t)
  {
  }

  lemma EscapeAgrees(t: Text)
    requires |t| >= 2 && t[0] == BACKSLASH && IsEscaped(t[1]) && t[1] != SLASH
    requires |t| >= 3 && t[1] == BACKSLASH ==> !IsLetter(t[2])
    ensures (Readable(t) <==> Readable(t[2..])) && Decode(t) == [Escaped(t[1])] + Decode(t[2..])
    ensures Stage(t, ALL) == [Escaped(t[1])] + Stage(t[2..], ALL)
  {
    EscapeDecodes(t);
    EscapeStages(t);
    hide Decode, Stage, Escaped, IsLetter;
  }

  lemma EscapeDecodes(t: Text)
    requires |t| >= 2 && t[0] == BACKSLASH && IsEscaped(t[1])
    ensures Decode(t) == [Escaped(t[1])] + Decode(t[2..])
  {
    hide AreHexDigits, HexValue, Escaped;
  }

  lemma EscapeStages(t: Text)
    requires |t| >= 2 && t[0] == BACKSLASH && IsEscaped(t[1]) && t[1] != SLASH
    requires |t| >= 3 && t[1] == BACKSLASH ==> !IsLetter(t[2])
    ensures Stage(t, ALL) == [Escaped(t[1])] + Stage(t[2..], ALL)
  {
    if t[1] != BACKSLASH && t[1] != QUOTE {
      assert IsLetter(t[1]) && t[1] in ALL && Control(t[1]) == Escaped(t[1]);
      hide IsLetter, Control, Escaped, IsEscaped;
    }
  }

  /**
   A readable text is read as it is meant.  Any other is read as a string that exceeds the meant
   one: what the chain leaves undone makes it larger, and what it overdoes makes it more controlled.
   */
  lemma {:induction false} ReadingGap(t: Text)
    requires Lexable(t)
    ensures Readable(t) ==> Stage(t, ALL) == Decode(t)
    ensures !Readable(t) ==> Exceeds(Stage(t, ALL), Decode(t))
    decreases |t|
  {
    hide Exceeds, Size, Stage, Decode, HexValue, IsHexDigit;
    if t == [] {
      assert Stage(t, ALL) == Decode(t) by { EmptyAgrees(); }
    } else if t[0] == BACKSLASH && t[1] == LETTER_U {
      ReadingGap(t[6..]);
      AtLeast(Stage(t[6..], ALL), Decode(t[6..]));
      HexCosts(t);
    } else if t[0] == BACKSLASH && t[1] == SLASH {
      ReadingGap(t[2..]);
      AtLeast(Stage(t[2..], ALL), Decode(t[2..]));
      SlashCosts(t);
    } else if |t| >= 3 && t[0] == BACKSLASH == t[1] && IsLetter(t[2]) {
      assert t[2..][1..] == t[3..];
      ReadingGap(t[3..]);
      MergeCosts(t);
    } else {
      PieceAgrees(t);
      var n, c := if t[0] == BACKSLASH then 2 else 1, if t[0] == BACKSLASH then Escaped(t[1]) else t[0];
      ReadingGap(t[n..]);
      ExceedsCons(c, Stage(t[n..], ALL), Decode(t[n..]));
    }
  }

  lemma EmptyAgrees()
    ensures Stage([], ALL) == [] == Decode([])
  {
  }

  lemma AtLeast(a: Text, b: Text)
    ensures a == b || Exceeds(a, b) ==> Size(a) >= Size(b)
  {
  }

  /** Nothing exceeds itself. */
  lemma ExceedsDiffers(a: Text, b: Text)
    requires Exceeds(a, b)
    ensures a != b
  {
  }

  /** The chain reads a string's text as RFC 8259 means it exactly if the text is readable. */
  lemma ReadExactly(t: Text)
    requires Lexable(t)
    ensures Unescape(t) == Decode(t) <==> Readable(t)
    ensures !Readable(t) ==> Exceeds(Unescape(t), Decode(t))
  {
    hide Unescape, Stage, Decode, Readable, Lexable, Exceeds;
    UnescapeIsStage(t);
    ReadingGap(t);
    if !Readable(t) {
      ExceedsDiffers(Stage(t, ALL), Decode(t));
    }
  }

  /** A wrong reading shows: it has a backslash or a control character. */
  lemma {:induction false} WrongReadingShows(t: Text)
    requires Lexable(t) && !Readable(t)
    ensures exists k :: 0 <= k < |Stage(t, ALL)| && (Stage(t, ALL)[k] == BACKSLASH || Stage(t, ALL)[k] < 32)
    decreases |t|
  {
    if t[0] == BACKSLASH {
      hide Lexable, Decode;
      assert Stage(t, ALL)[0] == BACKSLASH || Stage(t, ALL)[0] < 32 || t[1] == QUOTE;
      if t[1] == QUOTE {
        LexableTail(t);
        WrongReadingShows(t[2..]);
        ShowsBehind([QUOTE], Stage(t[2..], ALL));
      }
    } else {
      assert Readable(t[1..]) == Readable(t) && Stage(t, ALL) == [t[0]] + Stage(t[1..], ALL);
      WrongReadingShows(t[1..]);
      hide Stage;
      ShowsBehind([t[0]], Stage(t[1..], ALL));
    }
  }

  lemma ShowsBehind(a: Text, b: Text)
    requires exists k :: 0 <= k < |b| && (b[k] == BACKSLASH || b[k] < 32)
    ensures exists k :: 0 <= k < |a + b| && ((a + b)[k] == BACKSLASH || (a + b)[k] < 32)
  {
    var k :| 0 <= k < |b| && (b[k] == BACKSLASH || b[k] < 32);
    assert (a + b)[|a| + k] == b[k];
  }

  // ---- the usual spelling of a string ----

  /** The letter of a character's two-character escape, or 0. */
  function EscapeLetter(c: Unit): Unit {
    if c == LINE_FEED then LETTER_N else if c == CARRIAGE_RETURN then LETTER_R else if c == TAB then LETTER_T
    else if c == FORM_FEED then LETTER_F else if c == BACKSPACE then LETTER_B
    else if c == QUOTE || c == BACKSLASH then c else 0
  }

  function LowerHex(d: int): Unit
    requires 0 <= d < 16
  {
    if d < 10 then 48 + d else 87 + d
  }

  /** Two-character escapes where there are any, and four-digit ones for the other control characters. */
  function Escape(s: Text): Text {
    if s == [] then []
    else if EscapeLetter(s[0]) != 0 then [BACKSLASH, EscapeLetter(s[0])] + Escape(s[1..])
    else if s[0] < 32 then [BACKSLASH, LETTER_U, 48, 48, LowerHex(s[0] / 16), LowerHex(s[0] % 16)] + Escape(s[1..])
    else [s[0]] + Escape(s[1..])
  }

  /** No backslash is followed by one of the letters. */
  predicate NoLetterAfterBackslash(s: Text) {
    forall i :: 0 <= i < |s| - 1 ==> !(s[i] == BACKSLASH && IsLetter(s[i + 1]))
  }

  /** Every control character has a two-character escape. */
  predicate ShortControls(s: Text) {
    forall i :: 0 <= i < |s| && s[i] < 32 ==> EscapeLetter(s[i]) != 0
  }

  lemma TailConditions(s: Text)
    requires s != []
    ensures ShortControls(s) <==> (s[0] < 32 ==> EscapeLetter(s[0]) != 0) && ShortControls(s[1..])
    ensures (NoLetterAfterBackslash(s) <==>
             !(|s| >= 2 && s[0] == BACKSLASH && IsLetter(s[1])) && NoLetterAfterBackslash(s[1..]))
  {
    hide IsLetter;
    var t := s[1..];
    if ShortControls(s) {
      assert forall i :: 0 <= i < |t| ==> t[i] == s[i + 1];
    }
    if ShortControls(t) && (s[0] < 32 ==> EscapeLetter(s[0]) != 0) {
      forall i | 0 <= i < |s| && s[i] < 32
        ensures EscapeLetter(s[i]) != 0
      {
        if i > 0 { assert t[i - 1] == s[i]; }
      }
    }
    if NoLetterAfterBackslash(s) {
      forall i | 0 <= i < |t| - 1
        ensures !(t[i] == BACKSLASH && IsLetter(t[i + 1]))
      {
        assert t[i] == s[i + 1] && t[i + 1] == s[i + 1 + 1];
      }
    }
    if NoLetterAfterBackslash(t) && !(|s| >= 2 && s[0] == BACKSLASH && IsLetter(s[1])) {
      forall i | 0 <= i < |s| - 1
        ensures !(s[i] == BACKSLASH && IsLetter(s[i + 1]))
      {
        if i > 0 { assert t[i - 1] == s[i] && t[i - 1 + 1] == s[i + 1]; }
      }
    }
  }

  lemma HexOfControl(c: Unit)
    requires c < 32
    ensures (var h: Text := [48, 48, LowerHex(c / 16), LowerHex(c % 16)]; AreHexDigits(h) && HexValue(h) == c)
  {
  }

  /** The usual spelling is a string text, and it spells the string. */
  lemma {:induction false} EscapeSpells(s: Text)
    ensures Lexable(Escape(s)) && Decode(Escape(s)) == s
    decreases |s|
  {
    if s != [] {
      EscapeSpells(s[1..]);
      var rest := Escape(s[1..]);
      hide Lexable, Decode, EscapeLetter, LowerHex;
      if EscapeLetter(s[0]) != 0 {
        SpellPair(s[0], rest);
      } else if s[0] < 32 {
        SpellHex(s[0], rest);
      } else {
        SpellRaw(s[0], rest);
      }
    }
  }

  lemma SpellPair(c: Unit, rest: Text)
    requires EscapeLetter(c) != 0 && Lexable(rest)
    ensures Lexable([BACKSLASH, EscapeLetter(c)] + rest)
    ensures Decode([BACKSLASH, EscapeLetter(c)] + rest) == [c] + Decode(rest)
  {
    hide AreHexDigits, HexValue;
    assert ([BACKSLASH, EscapeLetter(c)] + rest)[2..] == rest;
  }

  lemma SpellHex(c: Unit, rest: Text)
    requires c < 32 && Lexable(rest)
    ensures (var t := [BACKSLASH, LETTER_U, 48, 48, LowerHex(c / 16), LowerHex(c % 16)] + rest;
      Lexable(t) && Decode(t) == [c] + Decode(rest))
  {
    HexOfControl(c);
    var t := [BACKSLASH, LETTER_U, 48, 48, LowerHex(c / 16), LowerHex(c % 16)] + rest;
    assert t[2..6] == [48, 48, LowerHex(c / 16), LowerHex(c % 16)] && t[6..] == rest;
    hide HexValue, LowerHex, AreHexDigits, IsEscaped, Escaped;
  }

  lemma SpellRaw(c: Unit, rest: Text)
    requires EscapeLetter(c) == 0 && c >= 32 && Lexable(rest)
    ensures Lexable([c] + rest) && Decode([c] + rest) == [c] + Decode(rest)
  {
    assert ([c] + rest)[1..] == rest;
  }

  lemma {:induction false} EscapeReadable(s: Text)
    ensures Readable(Escape(s)) <==> NoLetterAfterBackslash(s) && ShortControls(s)
    decreases |s|
  {
    hide NoLetterAfterBackslash, ShortControls;
    if s == [] {
      assert NoLetterAfterBackslash(s) && ShortControls(s) by { EmptyConditions(); }
    } else {
      TailConditions(s);
      EscapeReadable(s[1..]);
      var t, rest := Escape(s), Escape(s[1..]);
      if EscapeLetter(s[0]) != 0 {
        assert t[2..] == rest;
      } else if s[0] >= 32 {
        assert t[1..] == rest;
      }
    }
  }

  lemma EmptyConditions()
    ensures NoLetterAfterBackslash([]) && ShortControls([])
  {
  }

  /** A string written in the usual way comes back exactly if it has neither trait. */
  lemma StringRoundTrip(s: Text)
    ensures Unescape(Escape(s)) == s <==> NoLetterAfterBackslash(s) && ShortControls(s)
  {
    EscapeSpells(s);
    ReadExactly(Escape(s));
    EscapeReadable(s);
  }

  lemma DecodeOne(c: Unit)
    ensures Decode([c]) == [c]
  {
    assert [c][1..] == [];
    assert Decode([]) == [];
  }

  /** The text backslash, backslash, n spells two characters and is read as a line feed. */
  lemma BackslashNIsLost()
    ensures (var t: Text := [BACKSLASH, BACKSLASH, LETTER_N];
      Lexable(t) && Decode(t) == [BACKSLASH, LETTER_N] && Unescape(t) == [LINE_FEED])
  {
    var t: Text := [BACKSLASH, BACKSLASH, LETTER_N];
    assert t[2..] == [LETTER_N] && t[2..][1..] == [];
    assert Lexable(t[2..]);
    DecodeOne(LETTER_N);
    UnescapeIsStage(t);
    StageBackslash(t, ALL);
    assert t[3..] == [];
  }

  /** The text of the four-digit escape of A is read as its six characters. */
  lemma FourDigitsAreLost()
    ensures (var t: Text := [BACKSLASH, LETTER_U, 48, 48, 52, 49]; Lexable(t) && Decode(t) == [65] && Unescape(t) == t)
  {
    var t: Text := [BACKSLASH, LETTER_U, 48, 48, 52, 49];
    assert t[2..6] == [48, 48, 52, 49] && t[6..] == [];
    UnescapeIsStage(t);
    StageOfHex(t);
    assert t[..6] == t;
  }
}
