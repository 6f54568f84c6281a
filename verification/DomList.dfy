/**
 The child list of one DOM element, with the node operations the patch uses.  Elements are
 identified by numbers; fresh ones are numbered upwards.
 */
module DomList {
  import opened Options

  type Elm = nat

  predicate NoDup(s: seq<Elm>) {
    forall i, j :: 0 <= i < j < |s| ==> s[i] != s[j]
  }

  function Without(s: seq<Elm>, x: Elm): (r: seq<Elm>) {
    if s == [] then [] else (if s[0] == x then [] else [s[0]]) + Without(s[1..], x)
  }

  function IndexOf(s: seq<Elm>, x: Elm): (i: nat)
    ensures i <= |s| && (i < |s| ==> s[i] == x) && (i < |s| <==> x in s)
  {
    if s == [] then 0 else if s[0] == x then 0 else 1 + IndexOf(s[1..], x)
  }

  /** The sibling after x, if x is a child and not the last. */
  function NextSibling(s: seq<Elm>, x: Elm): Option<Elm> {
    var i := IndexOf(s, x);
    if i + 1 < |s| then Some(s[i + 1]) else None
  }

  /** `insertBefore(parent, x, ref)`: x leaves its old place; no reference means the end. */
  function InsertBefore(s: seq<Elm>, x: Elm, ref: Option<Elm>): seq<Elm> {
    var ref' := if ref == Some(x) then NextSibling(s, x) else ref;
    var t := Without(s, x);
    var i := if ref'.None? then |t| else IndexOf(t, ref'.value);
    t[..i] + [x] + t[i..]
  }

  lemma {:induction false} WithoutAbsent(s: seq<Elm>, x: Elm)
    requires x !in s
    ensures Without(s, x) == s
    decreases |s|
  {
    if s != [] {
      assert s[0] in s;
      WithoutAbsent(s[1..], x);
    }
  }

  lemma {:induction false} WithoutSplit(s: seq<Elm>, t: seq<Elm>, x: Elm)
    ensures Without(s + t, x) == Without(s, x) + Without(t, x)
    decreases |s|
  {
    if s == [] {
      assert s + t == t;
    } else {
      assert (s + t)[1..] == s[1..] + t;
      WithoutSplit(s[1..], t, x);
    }
  }

  lemma NoDupParts(a: seq<Elm>, x: Elm, b: seq<Elm>)
    requires NoDup(a + [x] + b)
    ensures x !in a && x !in b && NoDup(a + b)
  {
    var s := a + [x] + b;
    forall i | 0 <= i < |a|
      ensures a[i] != x
    {
      assert s[i] == a[i] && s[|a|] == x;
    }
    forall i | 0 <= i < |b|
      ensures b[i] != x
    {
      assert s[|a| + 1 + i] == b[i] && s[|a|] == x;
    }
    forall i, j | 0 <= i < j < |a + b|
      ensures (a + b)[i] != (a + b)[j]
    {
      var i', j' := if i < |a| then i else i + 1, if j < |a| then j else j + 1;
      assert (a + b)[i] == s[i'] && (a + b)[j] == s[j'];
    }
  }

  lemma NoDupInsert(a: seq<Elm>, x: Elm, b: seq<Elm>)
    requires NoDup(a + b) && x !in a && x !in b
    ensures NoDup(a + [x] + b)
  {
    var s := a + [x] + b;
    forall i, j | 0 <= i < j < |s|
      ensures s[i] != s[j]
    {
      if i != |a| && j != |a| {
        var i', j' := if i < |a| then i else i - 1, if j < |a| then j else j - 1;
        assert s[i] == (a + b)[i'] && s[j] == (a + b)[j'];
      } else if i == |a| {
        assert s[j] == b[j - |a| - 1];
      } else {
        assert s[i] == a[i];
      }
    }
  }

  lemma WithoutSelf(x: Elm)
    ensures Without([x], x) == []
  {
    assert [x][1..] == [];
  }

  lemma WithoutMiddle(a: seq<Elm>, x: Elm, b: seq<Elm>)
    requires NoDup(a + [x] + b)
    ensures Without(a + [x] + b, x) == a + b
  {
    hide NoDup, Without;
    NoDupParts(a, x, b);
    WithoutSplit(a + [x], b, x);
    WithoutSplit(a, [x], x);
    WithoutAbsent(a, x);
    WithoutAbsent(b, x);
    WithoutSelf(x);
    assert a + [] == a;
  }

  lemma {:induction false} IndexAfter(a: seq<Elm>, b: seq<Elm>)
    requires NoDup(a + b) && b != []
    ensures IndexOf(a + b, b[0]) == |a|
    decreases |a|
  {
    if a == [] {
      assert a + b == b;
    } else {
      assert (a + b)[1..] == a[1..] + b;
      assert (a + b)[0] != (a + b)[|a|];
      forall i, j | 0 <= i < j < |a[1..] + b|
        ensures (a[1..] + b)[i] != (a[1..] + b)[j]
      {
        assert (a[1..] + b)[i] == (a + b)[i + 1] && (a[1..] + b)[j] == (a + b)[j + 1];
      }
      IndexAfter(a[1..], b);
    }
  }

  function Head(s: seq<Elm>): Option<Elm> {
    if s == [] then None else Some(s[0])
  }

  /** Moving a child x between a and b. */
  lemma MoveBetween(s: seq<Elm>, x: Elm, a: seq<Elm>, b: seq<Elm>)
    requires Without(s, x) == a + b && NoDup(a + b) && x !in b
    ensures InsertBefore(s, x, Head(b)) == a + [x] + b
  {
    if b == [] {
      assert (a + b)[..|a + b|] == a && (a + b)[|a + b|..] == b;
    } else {
      assert b[0] in b;
      IndexAfter(a, b);
      assert (a + b)[..|a|] == a && (a + b)[|a|..] == b;
    }
  }

  /** Distinct elements, all created before n. */
  ghost predicate Tidy(s: seq<Elm>, n: Elm) {
    NoDup(s) && forall x :: x in s ==> x < n
  }

  lemma InsertFresh(n: Elm, a: seq<Elm>, b: seq<Elm>)
    requires Tidy(a + b, n)
    ensures InsertBefore(a + b, n, Head(b)) == a + [n] + b && Tidy(a + [n] + b, n + 1)
  {
    assert n !in a + b;
    WithoutSplit(a, b, n);
    WithoutAbsent(a, n);
    WithoutAbsent(b, n);
    MoveBetween(a + b, n, a, b);
    NoDupInsert(a, n, b);
    forall y | y in a + [n] + b
      ensures y < n + 1
    {
      assert y == n || y in a + b;
    }
  }

  /** Moving x backwards, from behind b to before it. */
  lemma MoveForward(a: seq<Elm>, b: seq<Elm>, x: Elm, c: seq<Elm>, n: Elm)
    requires Tidy(a + b + [x] + c, n) && b != []
    ensures InsertBefore(a + b + [x] + c, x, Some(b[0])) == a + [x] + b + c && Tidy(a + [x] + b + c, n)
  {
    var s := a + b + [x] + c;
    NoDupParts(a + b, x, c);
    assert a + b + c == a + (b + c);
    WithoutMiddle(a + b, x, c);
    MoveBetween(s, x, a, b + c);
    NoDupInsert(a, x, b + c);
    assert a + [x] + (b + c) == a + [x] + b + c;
    assert forall y :: y in a + [x] + b + c ==> y in s;
  }

  /** Moving x from before b to just behind it. */
  lemma MoveBackward(a: seq<Elm>, x: Elm, b: seq<Elm>, c: seq<Elm>, n: Elm)
    requires Tidy(a + [x] + b + c, n)
    ensures InsertBefore(a + [x] + b + c, x, Head(c)) == a + b + [x] + c && Tidy(a + b + [x] + c, n)
  {
    var s := a + [x] + b + c;
    assert s == a + [x] + (b + c);
    NoDupParts(a, x, b + c);
    WithoutMiddle(a, x, b + c);
    assert a + (b + c) == (a + b) + c;
    MoveBetween(s, x, a + b, c);
    NoDupInsert(a + b, x, c);
    assert forall y :: y in a + b + [x] + c ==> y in s;
  }

  /** What follows the last element of b. */
  lemma SiblingAfter(a: seq<Elm>, b: seq<Elm>, c: seq<Elm>)
    requires NoDup(a + b + c) && b != []
    ensures NextSibling(a + b + c, b[|b| - 1]) == Head(c)
  {
    var k := |b| - 1;
    assert a + b + c == (a + b[..k]) + (b[k..] + c);
    IndexAfter(a + b[..k], b[k..] + c);
  }

  /** The window loses its head x to the front of the suffix c. */
  lemma MoveBehind(s: seq<Elm>, a: seq<Elm>, x: Elm, w: seq<Elm>, c: seq<Elm>, n: Elm)
    requires s == a + ([x] + w) + c && Tidy(s, n) && w != []
    ensures InsertBefore(s, x, NextSibling(s, w[|w| - 1])) == a + w + ([x] + c) && Tidy(a + w + ([x] + c), n)
  {
    hide InsertBefore, NextSibling;
    assert s == a + [x] + w + c;
    assert ([x] + w)[|[x] + w| - 1] == w[|w| - 1];
    SiblingAfter(a, [x] + w, c);
    MoveBackward(a, x, w, c, n);
    assert a + w + [x] + c == a + w + ([x] + c);
  }

  /** The window loses an inner element or its last one to the end of the prefix a. */
  lemma MoveAhead(s: seq<Elm>, a: seq<Elm>, w: seq<Elm>, x: Elm, u: seq<Elm>, c: seq<Elm>, n: Elm)
    requires s == a + (w + ([x] + u)) + c && Tidy(s, n) && w != []
    ensures InsertBefore(s, x, Some(w[0])) == (a + [x]) + (w + u) + c && Tidy((a + [x]) + (w + u) + c, n)
  {
    hide InsertBefore;
    assert s == a + w + [x] + (u + c);
    MoveForward(a, w, x, u + c, n);
    assert a + [x] + w + (u + c) == (a + [x]) + (w + u) + c;
  }

  class Dom {
    var children: seq<Elm>
    var nextElm: Elm

    /** Children are distinct and were created before the next one. */
    ghost predicate Valid()
      reads this
    {
      Tidy(children, nextElm)
    }

    method Create() returns (x: Elm)
      modifies this`nextElm
      ensures x == old(nextElm) && nextElm == x + 1
    {
      x := nextElm;
      nextElm := nextElm + 1;
    }

    method Insert(x: Elm, ref: Option<Elm>)
      modifies this`children
      ensures children == InsertBefore(old(children), x, ref)
    {
      children := InsertBefore(children, x, ref);
    }

    method Remove(x: Elm)
      modifies this`children
      ensures children == Without(old(children), x)
    {
      children := Without(children, x);
    }
  }
}
