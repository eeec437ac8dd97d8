/**
  The stable sort behind the Sort button: List.sort with
  Comparator.comparing(Contact::getName) or Comparator.comparing(Contact::getPhone),
  both of which compare with String.compareTo. SortBy is a reference stable
  sort (insertion from the front); SortedStableUnique shows that every stable
  sort yields the same sequence, so SortBy is also what the library's merge
  sort produces.
*/
module Sorting {
  import opened Text
  import opened Contacts

  datatype SortKey = ByName | ByPhone

  /** The field a contact is compared on. */
  function Key(c: Contact, k: SortKey): string {
    match k
    case ByName => c.GetName()
    case ByPhone => c.GetPhone()
  }

  /** Every contact of s sorts no later than every contact after it. */
  ghost predicate Sorted(s: seq<Contact>, k: SortKey) {
    forall i, j :: 0 <= i < j < |s| ==> LessEq(Key(s[i], k), Key(s[j], k))
  }

  /** The contacts of s whose key is v, in their order in s. */
  function WithKey(s: seq<Contact>, k: SortKey, v: string): seq<Contact> {
    if s == [] then []
    else (if Key(s[0], k) == v then [s[0]] else []) + WithKey(s[1..], k, v)
  }

  /** Picks out the contacts of key v from a sequence with a known first contact. */
  lemma WithKeyCons(c: Contact, s: seq<Contact>, k: SortKey, v: string)
    ensures WithKey([c] + s, k, v) == (if Key(c, k) == v then [c] else []) + WithKey(s, k, v)
  {
    assert ([c] + s)[1..] == s;
  }

  /** A contact is picked out for v exactly when it is in s and has key v. */
  lemma {:induction false} InWithKey(d: Contact, s: seq<Contact>, k: SortKey, v: string)
    ensures d in WithKey(s, k, v) <==> d in s && Key(d, k) == v
  {
    if s != [] {
      InWithKey(d, s[1..], k, v);
      assert s == [s[0]] + s[1..];
    }
  }

  /** Places c before the first contact whose key is not smaller than c's. */
  function Insert(c: Contact, s: seq<Contact>, k: SortKey): seq<Contact> {
    if s == [] then [c]
    else if LessEq(Key(c, k), Key(s[0], k)) then [c] + s
    else [s[0]] + Insert(c, s[1..], k)
  }

  /** Stable sort of s ascending on key k. */
  function SortBy(s: seq<Contact>, k: SortKey): seq<Contact> {
    if s == [] then [] else Insert(s[0], SortBy(s[1..], k), k)
  }

  lemma {:induction false} InsertPermutes(c: Contact, s: seq<Contact>, k: SortKey)
    ensures multiset(Insert(c, s, k)) == multiset(s) + multiset{c}
  {
    if s != [] && !LessEq(Key(c, k), Key(s[0], k)) {
      InsertPermutes(c, s[1..], k);
      assert s == [s[0]] + s[1..];
    }
  }

  /** [c] + s is sorted when s is and c sorts no later than every contact of s. */
  lemma ConsSorted(c: Contact, s: seq<Contact>, k: SortKey)
    requires Sorted(s, k)
    requires forall d :: d in s ==> LessEq(Key(c, k), Key(d, k))
    ensures Sorted([c] + s, k)
  {
  }

  lemma {:induction false} InsertSorted(c: Contact, s: seq<Contact>, k: SortKey)
    requires Sorted(s, k)
    ensures Sorted(Insert(c, s, k), k)
  {
    if s == [] {
    } else if LessEq(Key(c, k), Key(s[0], k)) {
      forall d | d in s ensures LessEq(Key(c, k), Key(d, k)) {
        var j :| 0 <= j < |s| && s[j] == d;
        if j > 0 {
          LessEqTransitive(Key(c, k), Key(s[0], k), Key(d, k));
        }
      }
      ConsSorted(c, s, k);
    } else {
      var rest := s[1..];
      assert Sorted(rest, k);
      InsertSorted(c, rest, k);
      InsertPermutes(c, rest, k);
      forall d | d in Insert(c, rest, k) ensures LessEq(Key(s[0], k), Key(d, k)) {
        assert d in multiset(Insert(c, rest, k));
        if d == c {
          LessEqTotal(Key(c, k), Key(s[0], k));
        } else {
          assert d in multiset(rest);
          var j :| 0 <= j < |rest| && rest[j] == d;
          assert s[j + 1] == d;
        }
      }
      ConsSorted(s[0], Insert(c, rest, k), k);
    }
  }

  /**
    Inserting c into a sorted s adds c in front of the contacts with the same
    key and leaves the order of every key's contacts as it was.
  */
  lemma {:induction false} InsertKeepsKeyOrder(c: Contact, s: seq<Contact>, k: SortKey, v: string)
    ensures WithKey(Insert(c, s, k), k, v)
         == (if Key(c, k) == v then [c] else []) + WithKey(s, k, v)
  {
    if s == [] {
      WithKeyCons(c, [], k, v);
    } else if LessEq(Key(c, k), Key(s[0], k)) {
      WithKeyCons(c, s, k, v);
    } else {
      var rest := s[1..];
      var ins := Insert(c, rest, k);
      assert Insert(c, s, k) == [s[0]] + ins;
      InsertKeepsKeyOrder(c, rest, k, v);
      WithKeyCons(s[0], ins, k, v);
      if Key(c, k) == v {
        // c's key sorts strictly after s[0]'s, so s[0] is not picked out for v
        CompareToZeroIffEqual(Key(c, k), Key(s[0], k));
        assert WithKey(s, k, v) == WithKey(rest, k, v);
        assert WithKey([s[0]] + ins, k, v) == WithKey(ins, k, v) == [c] + WithKey(rest, k, v);
      } else {
        assert WithKey(ins, k, v) == WithKey(rest, k, v);
      }
    }
  }

  /** SortBy yields a permutation of its input. */
  lemma {:induction false} SortByPermutes(s: seq<Contact>, k: SortKey)
    ensures multiset(SortBy(s, k)) == multiset(s)
  {
    if s != [] {
      SortByPermutes(s[1..], k);
      InsertPermutes(s[0], SortBy(s[1..], k), k);
      assert s == [s[0]] + s[1..];
    }
  }

  /** SortBy yields a sequence ordered by key. */
  lemma {:induction false} SortBySorted(s: seq<Contact>, k: SortKey)
    ensures Sorted(SortBy(s, k), k)
  {
    if s != [] {
      SortBySorted(s[1..], k);
      InsertSorted(s[0], SortBy(s[1..], k), k);
    }
  }

  /** SortBy is stable: the contacts that share a key keep their relative order. */
  lemma {:induction false} SortByStable(s: seq<Contact>, k: SortKey, v: string)
    ensures WithKey(SortBy(s, k), k, v) == WithKey(s, k, v)
  {
    if s != [] {
      SortByStable(s[1..], k, v);
      InsertKeepsKeyOrder(s[0], SortBy(s[1..], k), k, v);
    }
  }

  /** A sorted sequence that holds a contact with key v starts with a key no larger than v. */
  lemma FirstKeyIsLeast(s: seq<Contact>, k: SortKey, v: string)
    requires Sorted(s, k) && s != [] && WithKey(s, k, v) != []
    ensures LessEq(Key(s[0], k), v)
  {
    var d := WithKey(s, k, v)[0];
    InWithKey(d, s, k, v);
    var j :| 0 <= j < |s| && s[j] == d;
    if j == 0 {
      CompareToZeroIffEqual(v, v);
    }
  }

  /** The contacts that share the first contact's key start with that contact. */
  lemma HeadOfWithKey(s: seq<Contact>, k: SortKey)
    requires s != []
    ensures WithKey(s, k, Key(s[0], k)) != []
    ensures WithKey(s, k, Key(s[0], k))[0] == s[0]
  {
  }

  /** Two keys that each sort no later than the other are equal. */
  lemma LessEqAntisymmetric(u: string, w: string)
    requires LessEq(u, w) && LessEq(w, u)
    ensures u == w
  {
    CompareToAntisymmetric(u, w);
    CompareToZeroIffEqual(u, w);
  }

  /** Two sorted sequences that list every key's contacts alike start with the same contact. */
  lemma SameHead(a: seq<Contact>, b: seq<Contact>, k: SortKey)
    requires Sorted(a, k) && Sorted(b, k) && a != [] && b != []
    requires forall v :: WithKey(a, k, v) == WithKey(b, k, v)
    ensures a[0] == b[0]
  {
    var va, vb := Key(a[0], k), Key(b[0], k);
    HeadOfWithKey(a, k);
    HeadOfWithKey(b, k);
    var wa := WithKey(a, k, va);
    var wb := WithKey(b, k, vb);
    assert WithKey(b, k, va) == wa;
    assert WithKey(a, k, vb) == wb;
    FirstKeyIsLeast(b, k, va);
    FirstKeyIsLeast(a, k, vb);
    LessEqAntisymmetric(va, vb);
    assert a[0] == wa[0] == wb[0] == b[0];
  }

  /** Dropping a common first contact keeps the per-key order of the rest alike. */
  lemma SameTails(a: seq<Contact>, b: seq<Contact>, k: SortKey, v: string)
    requires a != [] && b != [] && a[0] == b[0]
    requires WithKey(a, k, v) == WithKey(b, k, v)
    ensures WithKey(a[1..], k, v) == WithKey(b[1..], k, v)
  {
    assert a == [a[0]] + a[1..] && b == [b[0]] + b[1..];
    WithKeyCons(a[0], a[1..], k, v);
    WithKeyCons(b[0], b[1..], k, v);
    var head := if Key(a[0], k) == v then [a[0]] else [];
    assert (head + WithKey(a[1..], k, v))[|head|..] == WithKey(a[1..], k, v);
    assert (head + WithKey(b[1..], k, v))[|head|..] == WithKey(b[1..], k, v);
  }

  /**
    Any two sequences that are sorted on k and list the contacts of every key
    in the same order are equal: a stable sort has exactly one possible result.
  */
  lemma {:induction false} SortedStableUnique(a: seq<Contact>, b: seq<Contact>, k: SortKey)
    requires Sorted(a, k) && Sorted(b, k)
    requires forall v :: WithKey(a, k, v) == WithKey(b, k, v)
    ensures a == b
    decreases |a|
  {
    if a == [] && b == [] {
    } else if a == [] {
      InWithKey(b[0], b, k, Key(b[0], k));
    } else if b == [] {
      InWithKey(a[0], a, k, Key(a[0], k));
    } else {
      SameHead(a, b, k);
      forall v ensures WithKey(a[1..], k, v) == WithKey(b[1..], k, v) {
        SameTails(a, b, k, v);
      }
      assert Sorted(a[1..], k) && Sorted(b[1..], k);
      SortedStableUnique(a[1..], b[1..], k);
      assert a == [a[0]] + a[1..] && b == [b[0]] + b[1..];
    }
  }

  /** Upper-case "Bob" sorts before "alice", and the two Bobs keep their order. */
  lemma SortByNameExample(b2: Contact, a1: Contact, b3: Contact)
    requires b2.name == "Bob" && b2.phone == "2"
    requires a1.name == "alice" && a1.phone == "1"
    requires b3.name == "Bob" && b3.phone == "3"
    ensures SortBy([b2, a1, b3], ByName) == [b2, b3, a1]
  {
    CapitalSortsFirst();
    assert [b2, a1, b3][1..] == [a1, b3];
    assert [a1, b3][1..] == [b3];
    assert [b3][1..] == [];
    assert SortBy([b3], ByName) == [b3];
    assert SortBy([a1, b3], ByName) == Insert(a1, [b3], ByName) == [b3, a1];
    assert Insert(b2, [b3, a1], ByName) == [b2, b3, a1];
  }
}
