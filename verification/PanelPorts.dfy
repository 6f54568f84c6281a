/**
 Ports and tags of the inbounds: the check before every save keeps listeners from clashing, and
 tags printed from address and port are then pairwise distinct.
 */
module PanelPorts {

  datatype Listener = Listener(listen: string, port: int, tag: string)

  predicate IsAny(listen: string) {
    listen == "" || listen == "0.0.0.0" || listen == "::" || listen == "::0"
  }

  // ---- printing ----

  function Digit(d: int): char
    requires 0 <= d < 10
  {
    "0123456789"[d]
  }

  function Digits(n: nat): (s: string)
    ensures |s| > 0
  {
    if n < 10 then [Digit(n)] else Digits(n / 10) + [Digit(n % 10)]
  }

  /** An integer as `%v` prints it. */
  function Decimal(n: int): string {
    if n >= 0 then Digits(n) else "-" + Digits(-n)
  }

  lemma DigitInjective(a: int, b: int)
    requires 0 <= a < 10 && 0 <= b < 10 && Digit(a) == Digit(b)
    ensures a == b
  {
    forall i, j | 0 <= i < j < 10
      ensures Digit(i) != Digit(j)
    {
    }
  }

  lemma {:induction false} DigitsOnly(n: nat)
    ensures forall c :: c in Digits(n) ==> '0' <= c <= '9'
  {
    if n >= 10 {
      DigitsOnly(n / 10);
    }
  }

  lemma {:induction false} DigitsInjective(a: nat, b: nat)
    requires Digits(a) == Digits(b)
    ensures a == b
  {
    var s, t := Digits(a), Digits(b);
    assert s[|s| - 1] == Digit(a % 10) && t[|t| - 1] == Digit(b % 10);
    DigitInjective(a % 10, b % 10);
    if a >= 10 && b >= 10 {
      assert s[..|s| - 1] == Digits(a / 10) && t[..|t| - 1] == Digits(b / 10);
      DigitsInjective(a / 10, b / 10);
    }
  }

  lemma DecimalInjective(a: int, b: int)
    requires Decimal(a) == Decimal(b)
    ensures a == b
  {
    if a >= 0 {
      DigitsOnly(a);
      assert Decimal(a)[0] in Digits(a);
    }
    if b >= 0 {
      DigitsOnly(b);
      assert Decimal(b)[0] in Digits(b);
    }
    if a >= 0 && b >= 0 {
      DigitsInjective(a, b);
    } else if a < 0 && b < 0 {
      assert Decimal(a)[1..] == Digits(-a) && Decimal(b)[1..] == Digits(-b);
      DigitsInjective(-a, -b);
    }
  }

  /** The number a text of digits spells. */
  function Spelled(s: string): int {
    if s == [] then 0 else Spelled(s[..|s| - 1]) * 10 + (s[|s| - 1] as int - '0' as int)
  }

  lemma {:induction false} DigitsSpell(n: nat)
    ensures Spelled(Digits(n)) == n
  {
    DigitSpells(n % 10);
    if n >= 10 {
      DigitsSpell(n / 10);
      var s := Digits(n);
      assert s[..|s| - 1] == Digits(n / 10);
    } else {
      assert [Digit(n)][..0] == [];
    }
  }

  lemma DigitSpells(d: int)
    requires 0 <= d < 10
    ensures Digit(d) as int - '0' as int == d
  {
  }

  /** What is printed for an integer spells it. */
  lemma DecimalSpells(n: int)
    ensures n >= 0 ==> Spelled(Decimal(n)) == n
    ensures n < 0 ==> Decimal(n)[0] == '-' && Spelled(Decimal(n)[1..]) == -n
  {
    if n >= 0 {
      DigitsSpell(n);
    } else {
      DigitsSpell(-n);
      assert Decimal(n)[1..] == Digits(-n);
    }
  }

  lemma DecimalHasNoColon(n: int)
    ensures ':' !in Decimal(n)
  {
    if n >= 0 { DigitsOnly(n); } else { DigitsOnly(-n); }
  }

  /** The tag the controller and `UpdateInbound` print. */
  function Tag(listen: string, port: int): string {
    if IsAny(listen) then "inbound-" + Decimal(port) else "inbound-" + listen + ":" + Decimal(port)
  }

  /** Text behind the last colon and text before it are both determined. */
  lemma LastColon(a: string, p: string, b: string, q: string)
    requires a + ":" + p == b + ":" + q && ':' !in p && ':' !in q
    ensures a == b && p == q
  {
    var s := a + ":" + p;
    assert s[|a|] == ':' && s[|b|] == ':';
    assert s[|a| + 1..] == p && s[|b| + 1..] == q;
    assert s[..|a|] == a && s[..|b|] == b;
  }

  /** Two tags are equal exactly if the ports are, and the addresses are or both mean any address. */
  lemma TagInjective(l1: string, p1: int, l2: string, p2: int)
    ensures Tag(l1, p1) == Tag(l2, p2) <==> p1 == p2 && (l1 == l2 || (IsAny(l1) && IsAny(l2)))
  {
    var head := "inbound-";
    if Tag(l1, p1) == Tag(l2, p2) {
      DecimalHasNoColon(p1);
      DecimalHasNoColon(p2);
      var r1, r2 := Tag(l1, p1)[|head|..], Tag(l2, p2)[|head|..];
      assert IsAny(l1) ==> r1 == Decimal(p1);
      assert IsAny(l2) ==> r2 == Decimal(p2);
      assert !IsAny(l1) ==> r1 == l1 + ":" + Decimal(p1) && r1[|l1|] == ':';
      assert !IsAny(l2) ==> r2 == l2 + ":" + Decimal(p2) && r2[|l2|] == ':';
      if !IsAny(l1) && !IsAny(l2) {
        LastColon(l1, Decimal(p1), l2, Decimal(p2));
      }
      DecimalInjective(p1, p2);
    }
  }

  // ---- the operations ----

  /** What `checkPortExist` counts: a listener on the port that meets the address. */
  predicate Clash(listen: string, port: int, other: Listener) {
    other.port == port && (IsAny(listen) || other.listen == listen || IsAny(other.listen))
  }

  predicate PortExists(table: map<int, Listener>, listen: string, port: int, ignoreId: int) {
    exists id :: id in table && (ignoreId > 0 ==> id != ignoreId) && Clash(listen, port, table[id])
  }

  /** The column constraint that every save meets or fails. */
  predicate TagTaken(table: map<int, Listener>, tag: string, exceptId: int) {
    exists id :: id in table && id != exceptId && table[id].tag == tag
  }

  /** `nextId` is the key the database would assign. */
  datatype Store = Store(table: map<int, Listener>, nextId: int)

  datatype Op =
    | Add(id: int, listen: string, port: int)     // a form may carry the id of an inbound
    | Import(listen: string, port: int)
    | Update(id: int, listen: string, port: int)
    | Delete(id: int)

  /** Two inbounds share a port only if both listen on specific, different addresses. */
  ghost predicate PortsApart(table: map<int, Listener>) {
    forall i, j :: i in table && j in table && i != j ==> !Clash(table[i].listen, table[i].port, table[j])
  }

  ghost predicate TagsPrinted(table: map<int, Listener>) {
    forall i :: i in table ==> table[i].tag == Tag(table[i].listen, table[i].port)
  }

  ghost predicate TagsDistinct(table: map<int, Listener>) {
    forall i, j :: i in table && j in table && i != j ==> table[i].tag != table[j].tag
  }

  ghost predicate Valid(s: Store) {
    && PortsApart(s.table) && TagsPrinted(s.table)
    && s.nextId > 0 && forall i :: i in s.table ==> i < s.nextId
  }

  /** Inbounds on one port have different addresses, and none of them listens on all. */
  lemma PortShared(table: map<int, Listener>, i: int, j: int)
    requires PortsApart(table) && i in table && j in table && i != j && table[i].port == table[j].port
    ensures table[i].listen != table[j].listen
    ensures table[i].listen != "" && table[i].listen != "0.0.0.0" && table[i].listen != "::" && table[i].listen != "::0"
  {
    assert !Clash(table[i].listen, table[i].port, table[j]) && !Clash(table[j].listen, table[j].port, table[i]);
  }

  /** Without clashes, all tags differ. */
  lemma ApartMeansDistinct(table: map<int, Listener>)
    requires PortsApart(table) && TagsPrinted(table)
    ensures TagsDistinct(table)
  {
    forall i, j | i in table && j in table && i != j
      ensures table[i].tag != table[j].tag
    {
      TagInjective(table[i].listen, table[i].port, table[j].listen, table[j].port);
    }
  }

  /** Putting a listener that meets none of the others under a key keeps the store valid. */
  lemma SavedApart(s: Store, key: int, l: Listener, nextId: int)
    requires Valid(s) && key < nextId && s.nextId <= nextId
    requires l.tag == Tag(l.listen, l.port)
    requires forall i :: i in s.table && i != key ==> !Clash(l.listen, l.port, s.table[i])
    ensures Valid(Store(s.table[key := l], nextId)) && !TagTaken(s.table, l.tag, key)
  {
    var after := s.table[key := l];
    forall i, j | i in after && j in after && i != j
      ensures !Clash(after[i].listen, after[i].port, after[j])
    {
    }
    forall i | i in s.table && i != key
      ensures s.table[i].tag != l.tag
    {
      TagInjective(s.table[i].listen, s.table[i].port, l.listen, l.port);
    }
  }

  /** Storing a listener keeps ports apart exactly if it clashes with no other one. */
  lemma StoringClashes(s: Store, key: int, listen: string, port: int, ignoreId: int)
    requires Valid(s) && key == if ignoreId > 0 then ignoreId else s.nextId
    ensures (PortExists(s.table, listen, port, ignoreId)
      <==> !PortsApart(s.table[key := Listener(listen, port, Tag(listen, port))]))
  {
    hide Tag, IsAny;
    var l := Listener(listen, port, Tag(listen, port));
    var after := s.table[key := l];
    if i :| i in s.table && (ignoreId > 0 ==> i != ignoreId) && Clash(listen, port, s.table[i]) {
      assert i != key && after[i] == s.table[i] && after[key] == l;
      assert Clash(after[key].listen, after[key].port, after[i]);
    }
    if !PortExists(s.table, listen, port, ignoreId) {
      forall i, j | i in after && j in after && i != j
        ensures !Clash(after[i].listen, after[i].port, after[j])
      {
        if i == key {
          assert !Clash(listen, port, s.table[j]);
        } else if j == key {
          assert !Clash(listen, port, s.table[i]);
        }
      }
    }
  }

  class InboundTable {
    var store: Store

    constructor ()
      ensures Valid(store) && store.table == map[]
    {
      store := Store(map[], 1);
    }

    /** True exactly if storing the listener, under the ignored key or a new one, would make two inbounds clash. */
    method CheckPortExist(listen: string, port: int, ignoreId: int) returns (exist: bool)
      ensures exist <==> PortExists(store.table, listen, port, ignoreId)
      ensures Valid(store) ==>
        var key := if ignoreId > 0 then ignoreId else store.nextId;
        (exist <==> !PortsApart(store.table[key := Listener(listen, port, Tag(listen, port))]))
    {
      if Valid(store) {
        StoringClashes(store, if ignoreId > 0 then ignoreId else store.nextId, listen, port, ignoreId);
      }
      exist := exists id ::
        id in store.table && (ignoreId > 0 ==> id != ignoreId) && Clash(listen, port, store.table[id]);
    }

    /** `Save`: refused if another row has the tag.  Key 0 asks for a new key. */
    method Save(id: int, l: Listener) returns (saved: bool)
      modifies this
      ensures (var key := if id == 0 then old(store).nextId else id;
        if TagTaken(old(store).table, l.tag, key) then !saved && store == old(store)
        else
          var next := if key < old(store).nextId then old(store).nextId else key + 1;
          saved && store == Store(old(store).table[key := l], next))
    {
      var key := if id == 0 then store.nextId else id;
      if exists i :: i in store.table && i != key && store.table[i].tag == l.tag {
        return false;
      }
      store := Store(store.table[key := l], if key < store.nextId then store.nextId else key + 1);
      return true;
    }

    /**
       Adding, as the handlers do it: the tag is printed, then `AddInbound` checks the port and
       saves.  It fails exactly on a clash: the tag is never what a save trips over.
     */
    method Add(id: int, listen: string, port: int) returns (ok: bool)
      requires Valid(store)
      modifies this
      ensures Valid(store)
      ensures ok <==> !PortExists(old(store).table, listen, port, 0)
      ensures !ok ==> store == old(store)
      ensures ok ==>
        var key := if id == 0 then old(store).nextId else id;
        store.table == old(store).table[key := Listener(listen, port, Tag(listen, port))]
    {
      hide Clash, IsAny;
      var tag := Tag(listen, port);
      var exist := CheckPortExist(listen, port, 0);
      if exist {
        return false;
      }
      ghost var key := if id == 0 then store.nextId else id;
      SavedApart(store, key, Listener(listen, port, tag), if key < store.nextId then store.nextId else key + 1);
      ok := Save(id, Listener(listen, port, tag));
    }

    /** `importInbound` clears the key first. */
    method Import(listen: string, port: int) returns (ok: bool)
      requires Valid(store)
      modifies this
      ensures Valid(store)
      ensures ok <==> !PortExists(old(store).table, listen, port, 0)
      ensures !ok ==> store == old(store)
      ensures ok ==> store.table == old(store).table[old(store).nextId := Listener(listen, port, Tag(listen, port))]
    {
      ok := Add(0, listen, port);
    }

    /** `UpdateInbound`: the inbound itself does not count as a clash, and its tag is printed anew. */
    method Update(id: int, listen: string, port: int) returns (ok: bool)
      requires Valid(store)
      modifies this
      ensures Valid(store)
      ensures ok <==> !PortExists(old(store).table, listen, port, id) && id in old(store).table && id != 0
      ensures !ok ==> store == old(store)
      ensures ok ==> store.table == old(store).table[id := Listener(listen, port, Tag(listen, port))]
    {
      hide Clash, IsAny;
      var exist := CheckPortExist(listen, port, id);
      if exist {
        return false;
      }
      if id !in store.table || id == 0 {
        return false;
      }
      SavedApart(store, id, Listener(listen, port, Tag(listen, port)), store.nextId);
      ok := Save(id, Listener(listen, port, Tag(listen, port)));
    }

    method Delete(id: int)
      requires Valid(store)
      modifies this
      ensures Valid(store) && store.table == old(store).table - {id}
    {
      store := store.(table := store.table - {id});
    }

    /** Any run of operations keeps ports apart and tags distinct. */
    method RunAll(ops: seq<Op>)
      requires Valid(store)
      modifies this
      ensures Valid(store) && TagsDistinct(store.table)
    {
      for k := 0 to |ops|
        invariant Valid(store)
      {
        match ops[k] {
          case Add(id, listen, port) => var _ := Add(id, listen, port);
          case Import(listen, port) => var _ := Import(listen, port);
          case Update(id, listen, port) => var _ := Update(id, listen, port);
          case Delete(id) => Delete(id);
        }
      }
      ApartMeansDistinct(store.table);
    }
  }
}
