/**
  The contact store of PhoneDirectory: the ordered list `contacts` and the
  operations the window calls on it (add, delete, search, sort, save, load).
*/
module Directory {
  import opened Wrappers
  import opened Text
  import opened Contacts
  import opened Sorting
  import opened Persistence

  /**
    cs without its first occurrence of c, matched by identity, as
    List.remove(Object) does for a class that keeps Object.equals.
  */
  function RemoveFirst(cs: seq<Contact>, c: Contact): seq<Contact> {
    if cs == [] then []
    else if cs[0] == c then cs[1..]
    else [cs[0]] + RemoveFirst(cs[1..], c)
  }

  /** Deleting a contact that is not listed changes nothing. */
  lemma {:induction false} RemoveFirstAbsent(cs: seq<Contact>, c: Contact)
    requires c !in cs
    ensures RemoveFirst(cs, c) == cs
  {
    if cs != [] {
      assert c !in cs[1..];
      RemoveFirstAbsent(cs[1..], c);
    }
  }

  /** Deleting a listed contact cuts out exactly its first position. */
  lemma {:induction false} RemoveFirstCutsFirst(cs: seq<Contact>, c: Contact)
    requires c in cs
    ensures RemoveFirst(cs, c) == cs[..IndexOf(cs, c)] + cs[IndexOf(cs, c) + 1..]
  {
    if cs[0] != c {
      var rest := cs[1..];
      assert c in rest;
      RemoveFirstCutsFirst(rest, c);
      var k := IndexOf(rest, c);
      assert IndexOf(cs, c) == k + 1;
      assert cs[..k + 1] == [cs[0]] + rest[..k];
      assert cs[k + 2..] == rest[k + 1..];
    }
  }

  /** Deleting removes one occurrence of c and nothing else. */
  lemma {:induction false} RemoveFirstMultiset(cs: seq<Contact>, c: Contact)
    ensures multiset(RemoveFirst(cs, c)) == multiset(cs) - multiset{c}
  {
    if cs != [] {
      var rest := cs[1..];
      assert cs == [cs[0]] + rest;
      assert multiset(cs) == multiset{cs[0]} + multiset(rest);
      if cs[0] != c {
        RemoveFirstMultiset(rest, c);
        assert multiset(RemoveFirst(cs, c)) == multiset{cs[0]} + multiset(RemoveFirst(rest, c));
      }
    }
  }

  /** Deleting a contact that was just appended gives back the list as it was before. */
  lemma {:induction false} RemoveFirstUndoesAppend(cs: seq<Contact>, c: Contact)
    requires c !in cs
    ensures RemoveFirst(cs + [c], c) == cs
  {
    if cs != [] {
      assert (cs + [c])[1..] == cs[1..] + [c];
      RemoveFirstUndoesAppend(cs[1..], c);
      assert cs == [cs[0]] + cs[1..];
    }
  }

  /** The sort key chosen in the "Sort by" box; any other value sorts nothing. */
  function ParseSortKey(sortBy: string): Option<SortKey> {
    if sortBy == "Name" then Some(ByName)
    else if sortBy == "Phone" then Some(ByPhone)
    else None
  }

  /**
    The matching rule of the search field: an absent or empty query accepts
    every contact; otherwise the lower-cased query must occur in the
    lower-cased name or in the lower-cased phone.
  */
  ghost predicate MatchesQuery(searchText: Option<string>, c: Contact) {
    match searchText
    case None => true
    case Some(q) =>
      q == [] || IsSubstring(ToLower(q), ToLower(c.name)) || IsSubstring(ToLower(q), ToLower(c.phone))
  }

  /**
    What loadContacts does to the list: with a complete, readable data file
    it appends a fresh decoding of the file; with no file, or one that cannot
    be read, the list stays as it was.
  */
  ghost predicate LoadEffect(before: seq<Contact>, after: seq<Contact>, state: FileState) {
    if state.Stored? && WellFormed(state.data) then
      |before| <= |after| && after[..|before|] == before && Decodes(after[|before|..], state.data)
    else
      after == before
  }

  class PhoneDirectory {
    var contacts: seq<Contact>

    /** A directory with an empty list, as the tests set it up. */
    constructor ()
      ensures contacts == []
    {
      contacts := [];
    }

    /** The part of start that concerns the store: a fresh empty list, then loadContacts. */
    method Start(file: DataFile)
      modifies this
      ensures LoadEffect([], contacts, file.state)
      ensures forall i :: 0 <= i < |contacts| ==> fresh(contacts[i])
    {
      contacts := [];
      LoadContacts(file);
    }

    /** Appends a non-null contact; null is ignored. */
    method AddContact(c: Contact?)
      modifies this
      ensures c != null ==> contacts == old(contacts) + [c]
      ensures c == null ==> contacts == old(contacts)
    {
      if c != null {
        contacts := contacts + [c];
      }
    }

    /** Removes the first entry that is the object c; no effect when c is not listed. */
    method DeleteContact(c: Contact)
      modifies this
      ensures contacts == RemoveFirst(old(contacts), c)
      ensures c in old(contacts) ==>
        var k := IndexOf(old(contacts), c);
        contacts == old(contacts)[..k] + old(contacts)[k + 1..] && |contacts| == |old(contacts)| - 1
      ensures c !in old(contacts) ==> contacts == old(contacts)
      ensures multiset(contacts) == multiset(old(contacts)) - multiset{c}
    {
      RemoveFirstMultiset(contacts, c);
      if c in contacts {
        RemoveFirstCutsFirst(contacts, c);
      } else {
        RemoveFirstAbsent(contacts, c);
      }
      contacts := RemoveFirst(contacts, c);
    }

    /** The Sort button: a stable sort on the chosen field, or nothing for any other choice. */
    method Sort(sortBy: string)
      modifies this
      ensures ParseSortKey(sortBy).None? ==> contacts == old(contacts)
      ensures ParseSortKey(sortBy).Some? ==>
        var k := ParseSortKey(sortBy).value;
        && contacts == SortBy(old(contacts), k)
        && Sorted(contacts, k)
        && multiset(contacts) == multiset(old(contacts))
        && (forall v :: WithKey(contacts, k, v) == WithKey(old(contacts), k, v))
    {
      var key := ParseSortKey(sortBy);
      if key.Some? {
        var before := contacts;
        contacts := SortBy(contacts, key.value);
        SortBySorted(before, key.value);
        SortByPermutes(before, key.value);
        forall v ensures WithKey(contacts, key.value, v) == WithKey(before, key.value, v) {
          SortByStable(before, key.value, v);
        }
      }
    }

    /**
      Writes a snapshot of the list to the data file. The list itself is
      never changed; a file that cannot be opened keeps its old content, and a
      write that fails part-way leaves a file that cannot be read back.
    */
    method SaveContacts(file: DataFile, fault: WriteFault)
      modifies file
      ensures fault == NoFault ==> file.state == Stored(Encode(contacts)) && Decodes(contacts, file.state.data)
      ensures fault == OpenFails ==> file.state == old(file.state)
      ensures fault == WriteFails ==> file.state == Unreadable
    {
      match fault
      case NoFault =>
        file.state := Stored(Encode(contacts));
        EncodeDecodes(contacts);
      case OpenFails =>
      case WriteFails =>
        file.state := Unreadable;
    }

    /** Appends the contacts read from the data file, if it exists and can be read. */
    method LoadContacts(file: DataFile)
      modifies this
      ensures LoadEffect(old(contacts), contacts, file.state)
      ensures forall i :: |old(contacts)| <= i < |contacts| ==> fresh(contacts[i])
    {
      if file.state.Stored? && WellFormed(file.state.data) {
        var saved := Deserialize(file.state.data);
        var before := contacts;
        contacts := contacts + saved;
        assert contacts[..|before|] == before && contacts[|before|..] == saved;
      }
    }

    /**
      The predicate the search field installs on the filtered view. It reads
      no state of the directory, and the category never takes part.
    */
    function GetSearchPredicate(searchText: Option<string>): Contact -> bool {
      if searchText.None? || searchText.value == [] then
        (c: Contact) => true
      else
        var lowercaseSearchText := ToLower(searchText.value);
        (c: Contact) => Contains(ToLower(c.GetName()), lowercaseSearchText)
                      || Contains(ToLower(c.GetPhone()), lowercaseSearchText)
    }

    method GetContacts() returns (cs: seq<Contact>)
      ensures cs == contacts
    {
      cs := contacts;
    }

    method SetContacts(cs: seq<Contact>)
      modifies this
      ensures contacts == cs
    {
      contacts := cs;
    }
  }

  /** The search predicate accepts exactly the contacts that match the query. */
  lemma SearchPredicateMatches(d: PhoneDirectory, searchText: Option<string>, c: Contact)
    ensures d.GetSearchPredicate(searchText)(c) == MatchesQuery(searchText, c)
  {
  }

  /** A query whose first lower-cased character is in neither lower-cased field rejects the contact. */
  lemma SearchRejects(d: PhoneDirectory, q: string, c: Contact)
    requires q != [] && ToLower(q)[0] !in ToLower(c.name) && ToLower(q)[0] !in ToLower(c.phone)
    ensures !d.GetSearchPredicate(Some(q))(c)
  {
    FirstCharAbsent(ToLower(q), ToLower(c.name));
    FirstCharAbsent(ToLower(q), ToLower(c.phone));
  }

  /** Two contacts that agree on name and phone are accepted by the same queries. */
  lemma SearchIgnoresCategory(d: PhoneDirectory, searchText: Option<string>, a: Contact, b: Contact)
    requires a.name == b.name && a.phone == b.phone
    ensures d.GetSearchPredicate(searchText)(a) == d.GetSearchPredicate(searchText)(b)
  {
  }

  /** A query and its lower-cased form accept the same contacts. */
  lemma SearchIsCaseInsensitive(d: PhoneDirectory, q: string, c: Contact)
    ensures d.GetSearchPredicate(Some(q))(c) == d.GetSearchPredicate(Some(ToLower(q)))(c)
  {
    ToLowerIdempotent(q);
    SearchPredicateMatches(d, Some(q), c);
    SearchPredicateMatches(d, Some(ToLower(q)), c);
  }

  /** The name matches whatever the case of the query. */
  lemma SearchMatchesName(d: PhoneDirectory, c: Contact)
    requires c.name == "John Doe" && c.phone == "1234567890"
    ensures d.GetSearchPredicate(Some("john"))(c)
    ensures d.GetSearchPredicate(Some("JOHN"))(c)
  {
    assert ToLower("John Doe") == "john doe";
    assert ToLower("JOHN") == "john";
    assert "john" <= "john doe";
  }

  /** A part of the phone number matches. */
  lemma SearchMatchesPhone(d: PhoneDirectory, c: Contact)
    requires c.name == "John Doe" && c.phone == "1234567890"
    ensures d.GetSearchPredicate(Some("456"))(c)
  {
    SearchPredicateMatches(d, Some("456"), c);
    LowerDigits();
    assert "456" <= "1234567890"[3..];
  }

  /** The type "Mobile" is not searched. */
  lemma SearchSkipsCategory(d: PhoneDirectory, c: Contact)
    requires c.name == "John Doe" && c.phone == "1234567890" && c.category == "Mobile"
    ensures !d.GetSearchPredicate(Some("mobile"))(c)
  {
    LowerJohnDoe();
    LowerDigits();
    LowerMobile();
    SearchRejects(d, "mobile", c);
  }

  /** A query found in neither field matches nothing. */
  lemma SearchNoMatch(d: PhoneDirectory, c: Contact)
    requires c.name == "John Doe" && c.phone == "1234567890"
    ensures !d.GetSearchPredicate(Some("zzz"))(c)
  {
    LowerJohnDoe();
    LowerDigits();
    LowerZzz();
    SearchRejects(d, "zzz", c);
  }

  // Lower-case forms of the strings in the search examples, one per lemma to keep each proof small.
  lemma LowerJohnDoe() ensures ToLower("John Doe") == "john doe" {}
  lemma LowerDigits() ensures ToLower("1234567890") == "1234567890" {}
  lemma LowerMobile() ensures ToLower("mobile") == "mobile" {}
  lemma LowerZzz() ensures ToLower("zzz") == "zzz" {}

  /** An empty or absent query accepts every contact. */
  lemma SearchEmptyAcceptsAll(d: PhoneDirectory, c: Contact)
    ensures d.GetSearchPredicate(Some(""))(c)
    ensures d.GetSearchPredicate(None)(c)
  {
  }

  /** The two-contact sort of the end-to-end scenario: "111" sorts before "222". */
  lemma SortByPhoneExample(alice: Contact, bob: Contact)
    requires alice.phone == "111" && bob.phone == "222"
    ensures SortBy([alice, bob], ByPhone) == [alice, bob]
  {
    assert [alice, bob][1..] == [bob];
    assert [bob][1..] == [];
    assert SortBy([bob], ByPhone) == [bob];
  }

  /** The add test: adding to an empty directory makes the contact its only entry. */
  method AddToEmpty(c: Contact) returns (d: PhoneDirectory)
    ensures d.contacts == [c]
  {
    d := new PhoneDirectory();
    d.AddContact(c);
  }

  /** The delete test: adding and then deleting the same contact leaves the directory empty. */
  method AddThenDelete(c: Contact) returns (d: PhoneDirectory)
    ensures d.contacts == []
  {
    d := new PhoneDirectory();
    d.AddContact(c);
    d.DeleteContact(c);
    RemoveFirstUndoesAppend([], c);
  }

  /**
    Two contacts built from the same values are different entries: both can be
    listed, and deleting one leaves the other.
  */
  method DeleteMatchesIdentity(name: string, phone: string, category: string)
    returns (d: PhoneDirectory, a: Contact, b: Contact)
    ensures a != b && FieldsOf(a) == FieldsOf(b)
    ensures d.contacts == [b]
  {
    a := new Contact(name, phone, category);
    b := new Contact(name, phone, category);
    d := new PhoneDirectory();
    d.AddContact(a);
    d.AddContact(b);
    d.DeleteContact(a);
    assert [a, b][1..] == [b];
  }

  /**
    Saving a directory and starting a new one from the file reproduces the
    list: the same field values in the same order, and the same positions
    share an object.
  */
  method SaveThenLoad(d: PhoneDirectory, file: DataFile) returns (e: PhoneDirectory)
    modifies file
    ensures fresh(e)
    ensures forall i :: 0 <= i < |e.contacts| ==> fresh(e.contacts[i])
    ensures d.contacts == old(d.contacts)
    ensures Records(e.contacts) == Records(d.contacts)
    ensures forall i, j :: 0 <= i < |d.contacts| && 0 <= j < |d.contacts| ==>
      (e.contacts[i] == e.contacts[j] <==> d.contacts[i] == d.contacts[j])
  {
    d.SaveContacts(file, NoFault);
    e := new PhoneDirectory();
    e.Start(file);
    assert e.contacts[0..] == e.contacts;
    DecodingsAgree(e.contacts, d.contacts, file.state.data);
  }

  /**
    An end-to-end scenario: add Alice and Bob, search, sort by phone, delete
    Alice, save, and start a new directory from the saved file.
  */
  method EndToEnd() returns (e: PhoneDirectory)
    ensures Records(e.contacts) == [Record("Bob", "222", "Work")]
  {
    var file := new DataFile(Absent);
    var d := new PhoneDirectory();
    d.Start(file);
    var alice := new Contact("Alice", "111", "Home");
    var bob := new Contact("Bob", "222", "Work");
    d.AddContact(alice);
    d.AddContact(bob);
    SearchScenarioSkipsAlice(d, alice);
    SearchScenarioFindsBob(d, bob);
    SortByPhoneExample(alice, bob);
    assert ParseSortKey("Phone") == Some(ByPhone);
    d.Sort("Phone");
    d.DeleteContact(alice);
    assert d.contacts == [bob];
    e := SaveThenLoad(d, file);
    assert Records([bob]) == [FieldsOf(bob)];
  }

  /** Searching "22" does not find Alice ("111"). */
  lemma SearchScenarioSkipsAlice(d: PhoneDirectory, alice: Contact)
    requires alice.name == "Alice" && alice.phone == "111"
    ensures !d.GetSearchPredicate(Some("22"))(alice)
  {
    assert ToLower("22") == "22";
    assert ToLower("Alice") == "alice" && ToLower("111") == "111";
    SearchRejects(d, "22", alice);
  }

  /** Searching "22" finds Bob ("222"). */
  lemma SearchScenarioFindsBob(d: PhoneDirectory, bob: Contact)
    requires bob.phone == "222"
    ensures d.GetSearchPredicate(Some("22"))(bob)
  {
  }
}
