# Phone directory contact store, modelled in Dafny

This project models the contact store of the JavaFX phone directory
(`PhoneDirectory` with its `Contact` entries). The store is an ordered list of
contacts. Each contact has a name, a phone number and a type. The store
supports:

- appending a contact;
- deleting the first entry that is the given object;
- a case-insensitive search predicate over name and phone;
- a stable sort by name or by phone;
- saving the list to the data file `phone_directory.dat` and appending the
  file's contents when loading.

Modules, one per concern:

- `Wrappers` (wrappers.dfy): `Option`, which stands for a Java reference that may be null.
- `Text` (text.dfy): `String.toLowerCase` on ASCII letters, `String.contains`
  (`Contains`, proved equal to a declarative `IsSubstring`), and
  `String.compareTo` (`CompareTo`). The lemmas show that `CompareTo` gives a
  total preorder on strings.
- `Contacts` (contact.dfy): class `Contact`. Its three `const` fields are set only by the
  constructor, and it has its getters and `ToString`. `Record` holds a contact's
  field values without its identity. Contact does not override `equals`, so two contacts are the same
  entry only when they are the same object. Dafny's reference equality on
  class instances models exactly that.
- `Sorting` (sorting.dfy): the key of the Sort button, a reference stable sort `SortBy`, and
  proofs that its result has the right order, is a permutation, and keeps the order of
  equal keys. `SortedStableUnique` shows that any stable sort gives this same
  result, so the sort that `List.sort` runs gives it too.
- `Persistence` (persistence.dfy): the data file as a `DataFile` object whose
  `state` is absent, unreadable, or a stored list. A stored list is abstracted
  from Java serialization as the field values of each distinct object plus,
  for each position, which of those objects stands there. Within one
  `writeObject` call, Java serialization writes each shared object only once.
  `Deserialize` stands for `readObject`: it builds fresh objects.
- `Directory` (directory.dfy): class `PhoneDirectory`, whose field `contacts` the
  methods update in place, plus the search predicate, the two unit tests as
  methods, and worked examples of search, sort and the save/load round trip.

The file system is a parameter. Saving and loading take the `DataFile`.
Saving also takes a `WriteFault` that says whether opening or writing the
file fails. These are the `IOException` cases the source catches and prints.

Two points about loading and the round trip:

- A failed load leaves the list exactly as it was, because `addAll`
  (PhoneDirectory.java:242) runs only after `readObject` has returned.
  `LoadContacts` states that.
- A save followed by a load keeps object sharing: entries that were the same
  object stay one object, and the loaded contacts are new objects.
  `SaveThenLoad` states both.

## Model

| member | source | states |
|---|---|---|
| Contacts.Contact.constructor | DEMO3/src/main/java/com/telephone/phonedirectory/Contact.java:20-24 | the new contact's name, phone and type are the arguments. The fields are `const`, so getName/getPhone/getType return these values for the contact's lifetime |
| Contacts.Contact.ToString | DEMO3/src/main/java/com/telephone/phonedirectory/Contact.java:59-61 | the display text is the name, then " - ", the phone, " (", the type and ")", at the stated positions and with the stated total length |
| Contacts.ParseDisplayOfToString | DEMO3/src/main/java/com/telephone/phonedirectory/Contact.java:59-61 | when the name holds no '-' and the phone no '(', the three fields can be read back from the display text |
| Contacts.DisplayAmbiguous | DEMO3/src/main/java/com/telephone/phonedirectory/Contact.java:59-61 | when a name may contain " - ", the display text is ambiguous: ("a - b", "c", "d") and ("a", "b - c", "d") are different field values that both show as "a - b - c (d)" |
| Text.Contains | DEMO3/src/main/java/com/telephone/phonedirectory/PhoneDirectory.java:260-261 | the scanning substring test is true exactly when the pattern occurs at some position of the text (String.contains) |
| Text.ToLowerIdempotent | DEMO3/src/main/java/com/telephone/phonedirectory/PhoneDirectory.java:259 | lower-casing a lower-cased string changes nothing |
| Text.CompareToZeroIffEqual | DEMO3/src/main/java/com/telephone/phonedirectory/PhoneDirectory.java:71 | compareTo returns 0 exactly when the two strings are equal |
| Text.CompareToAntisymmetric | DEMO3/src/main/java/com/telephone/phonedirectory/PhoneDirectory.java:71 | compareTo(t, s) is the negation of compareTo(s, t) |
| Text.LessEqTotal | DEMO3/src/main/java/com/telephone/phonedirectory/PhoneDirectory.java:71 | of any two strings, at least one sorts no later than the other |
| Text.LessEqTransitive | DEMO3/src/main/java/com/telephone/phonedirectory/PhoneDirectory.java:71 | "sorts no later than" is transitive |
| Text.ProperPrefixSortsFirst | DEMO3/src/main/java/com/telephone/phonedirectory/PhoneDirectory.java:71 | a proper prefix sorts strictly before the longer string |
| Text.CapitalSortsFirst | DEMO3/src/main/java/com/telephone/phonedirectory/PhoneDirectory.java:71 | the comparison is case-sensitive and ordinal: "Bob" sorts before "alice" |
| Sorting.SortByPermutes | DEMO3/src/main/java/com/telephone/phonedirectory/PhoneDirectory.java:70-73 | sorting yields a permutation of the list (same multiset of contacts) |
| Sorting.SortBySorted | DEMO3/src/main/java/com/telephone/phonedirectory/PhoneDirectory.java:70-73 | after sorting, every contact's key sorts no later than the key of every contact after it |
| Sorting.SortByStable | DEMO3/src/main/java/com/telephone/phonedirectory/PhoneDirectory.java:70-73 | for every key value, the contacts with that key appear in the same relative order before and after sorting |
| Sorting.SortedStableUnique | DEMO3/src/main/java/com/telephone/phonedirectory/PhoneDirectory.java:70-73 | two sequences that are both sorted and keep every key's contacts in the same order are equal. So every stable sort, List.sort's included, gives SortBy's result |
| Sorting.SortByNameExample | DEMO3/src/main/java/com/telephone/phonedirectory/PhoneDirectory.java:71 | [Bob 2, alice 1, Bob 3] sorted by name is [Bob 2, Bob 3, alice 1] |
| Persistence.EncodeDecodes | DEMO3/src/main/java/com/telephone/phonedirectory/PhoneDirectory.java:227 | the saved data records every position's field values, and two positions share a recorded object exactly when they hold the same contact |
| Persistence.DecodingsAgree | DEMO3/src/main/java/com/telephone/phonedirectory/PhoneDirectory.java:240-242 | any two lists read from the same data have the same field values in the same order and share objects at the same positions |
| Persistence.Deserialize | DEMO3/src/main/java/com/telephone/phonedirectory/PhoneDirectory.java:241 | readObject builds fresh contacts that decode the data: one per position, with the recorded fields and the recorded sharing |
| Directory.RemoveFirstAbsent | DEMO3/src/main/java/com/telephone/phonedirectory/PhoneDirectory.java:215 | removing a contact that is not listed leaves the list unchanged |
| Directory.RemoveFirstCutsFirst | DEMO3/src/main/java/com/telephone/phonedirectory/PhoneDirectory.java:215 | removing a listed contact cuts out exactly its first position, matched by identity, and keeps the order of the rest |
| Directory.RemoveFirstMultiset | DEMO3/src/main/java/com/telephone/phonedirectory/PhoneDirectory.java:215 | removing takes away one occurrence of the contact and nothing else |
| Directory.RemoveFirstUndoesAppend | DEMO3/src/test/java/com/telephone/phonedirectory/PhoneDirectoryTest.java:47-50 | deleting a contact that was just appended, and was not listed before, gives back the earlier list |
| Directory.PhoneDirectory.constructor | DEMO3/src/test/java/com/telephone/phonedirectory/PhoneDirectoryTest.java:19-21 | a new directory, set up with an empty list as the tests do, holds no contacts |
| Directory.PhoneDirectory.Start | DEMO3/src/main/java/com/telephone/phonedirectory/PhoneDirectory.java:41-42 | at start-up the list is the decoding of a readable data file, and otherwise empty. Every loaded contact is a new object |
| Directory.PhoneDirectory.AddContact | DEMO3/src/main/java/com/telephone/phonedirectory/PhoneDirectory.java:188-197 | a non-null contact is appended at the end and the earlier entries are kept in order. null leaves the list unchanged |
| Directory.PhoneDirectory.DeleteContact | DEMO3/src/main/java/com/telephone/phonedirectory/PhoneDirectory.java:214-220 | the first position holding the same object is cut out, so the list is one shorter. If the contact is absent the list is unchanged. Either way one occurrence and nothing else is removed |
| Directory.PhoneDirectory.Sort | DEMO3/src/main/java/com/telephone/phonedirectory/PhoneDirectory.java:68-75 | "Name" or "Phone" gives the stable sort on that field: sorted, a permutation, equal keys in their prior order. Any other choice leaves the list unchanged |
| Directory.PhoneDirectory.SaveContacts | DEMO3/src/main/java/com/telephone/phonedirectory/PhoneDirectory.java:225-231 | a successful save stores a snapshot of the current list, which the list itself decodes. A file that cannot be opened keeps its old state. A failed write leaves an unreadable file. The list is never changed |
| Directory.PhoneDirectory.LoadContacts | DEMO3/src/main/java/com/telephone/phonedirectory/PhoneDirectory.java:237-247 | a readable file appends a fresh decoding of its data after the old entries. No file, or an unreadable one, leaves the list unchanged |
| Directory.PhoneDirectory.GetContacts | DEMO3/src/main/java/com/telephone/phonedirectory/PhoneDirectory.java:269-271 | returns the current list |
| Directory.PhoneDirectory.SetContacts | DEMO3/src/main/java/com/telephone/phonedirectory/PhoneDirectory.java:273-275 | replaces the list with the given one |
| Directory.SearchPredicateMatches | DEMO3/src/main/java/com/telephone/phonedirectory/PhoneDirectory.java:255-262 | the predicate accepts every contact when the query is absent or empty. Otherwise it accepts exactly the contacts whose lower-cased name or lower-cased phone contains the lower-cased query |
| Directory.SearchIgnoresCategory | DEMO3/src/main/java/com/telephone/phonedirectory/PhoneDirectory.java:260-261 | two contacts with the same name and phone are accepted by the same queries, whatever their types |
| Directory.SearchIsCaseInsensitive | DEMO3/src/main/java/com/telephone/phonedirectory/PhoneDirectory.java:259-261 | a query and its lower-cased form accept the same contacts |
| Directory.SearchRejects | DEMO3/src/main/java/com/telephone/phonedirectory/PhoneDirectory.java:260-261 | a query whose first lower-cased character appears in neither lower-cased field rejects the contact |
| Directory.SearchMatchesName | DEMO3/src/main/java/com/telephone/phonedirectory/PhoneDirectory.java:259-260 | "john" and "JOHN" both find "John Doe" |
| Directory.SearchMatchesPhone | DEMO3/src/main/java/com/telephone/phonedirectory/PhoneDirectory.java:261 | "456" finds the phone "1234567890" |
| Directory.SearchSkipsCategory | DEMO3/src/main/java/com/telephone/phonedirectory/PhoneDirectory.java:260-261 | "mobile" does not find a contact whose only match would be its type "Mobile" |
| Directory.SearchNoMatch | DEMO3/src/main/java/com/telephone/phonedirectory/PhoneDirectory.java:260-261 | "zzz" does not find "John Doe" / "1234567890" |
| Directory.SearchEmptyAcceptsAll | DEMO3/src/main/java/com/telephone/phonedirectory/PhoneDirectory.java:256-257 | the empty query and the absent (null) query accept every contact |
| Directory.SortByPhoneExample | DEMO3/src/main/java/com/telephone/phonedirectory/PhoneDirectory.java:73 | phones "111" and "222" are already in order, so sorting by phone keeps [Alice, Bob] |
| Directory.AddToEmpty | DEMO3/src/test/java/com/telephone/phonedirectory/PhoneDirectoryTest.java:37-40 | after one add to an empty directory, the list is exactly that contact |
| Directory.AddThenDelete | DEMO3/src/test/java/com/telephone/phonedirectory/PhoneDirectoryTest.java:47-50 | adding and then deleting the same contact leaves the directory empty |
| Directory.DeleteMatchesIdentity | DEMO3/src/main/java/com/telephone/phonedirectory/PhoneDirectory.java:215 | two contacts built from the same values are distinct, and both can be listed. Deleting one leaves exactly the other |
| Directory.SaveThenLoad | DEMO3/src/main/java/com/telephone/phonedirectory/PhoneDirectory.java:225-247 | saving, then starting a new directory from the file, gives the same field values in the same order, with objects shared at the same positions, and every loaded contact is a new object. The saved directory is unchanged |
| Directory.SearchScenarioSkipsAlice | DEMO3/src/main/java/com/telephone/phonedirectory/PhoneDirectory.java:260-261 | "22" does not find Alice with phone "111" |
| Directory.SearchScenarioFindsBob | DEMO3/src/main/java/com/telephone/phonedirectory/PhoneDirectory.java:261 | "22" finds Bob with phone "222" |
| Directory.EndToEnd | DEMO3/src/main/java/com/telephone/phonedirectory/PhoneDirectory.java:188-247 | add Alice and Bob, sort by phone, delete Alice, save, and load into a new directory: the result is exactly [("Bob", "222", "Work")] |

## Left out

- The JavaFX window is not modelled: layout, list cells, combo boxes, the add-contact dialog and its empty-field alert. All of this is presentation, and the field check sits in a GUI event filter rather than in the store.
- The `FilteredList` live view and the observable-list change notifications are library behaviour. The model gives the predicate itself.
- The scroll handler is floating-point UI code and is not modelled.
- The log4j records written on add and delete are an observability side channel.
- The byte format of `ObjectOutputStream`, and the `printStackTrace` calls, are not modelled. The data file is abstracted to its logical content. Its fixed name `phone_directory.dat` is not modelled, because there is only one data file.
- A data file whose content is a list of something other than contacts is not modelled. The unchecked cast would let such a list into the store.
- LoadContacts: a readable file whose object is not a `List` makes the cast at PhoneDirectory.java:241 throw `ClassCastException`. A serialized `null` makes `addAll` at :242 throw `NullPointerException`. Neither exception is caught at :243, so both escape `loadContacts` and `start`. The model has no outcome for an escaping exception: it treats both files as `Unreadable` and returns normally with the list unchanged. The list is unchanged in Java too, but the exception is lost.
- `PhoneDirectoryApp.java` only launches the application and is not part of this model.
- Java's `toLowerCase` follows Unicode and the default locale, and `compareTo` compares UTF-16 code units. The model lower-cases ASCII letters only and compares Dafny characters by code point. Non-ASCII case mappings, including those that change a string's length, are outside the model.
- null field values are not modelled. A contact with a null name or phone makes the sort and the search throw `NullPointerException`.
- DeleteContact: takes a non-null contact. In the source, `deleteContact(null)` removes nothing and then throws `NullPointerException` when it logs.
- Sort: takes the combo box value as a non-null string. A null value would throw in `sortBy.equals`.
- GetContacts: returns the current list as a value. The source returns the live observable list, which the caller could then change behind the store's back.
- PhoneDirectory.constructor: Java's `new PhoneDirectory()` leaves `contacts` null (PhoneDirectory.java:31 has no initializer), so any operation on the store before `start` or `setContacts` throws `NullPointerException`. The model's constructor stands for the constructor followed by `setContacts(FXCollections.observableArrayList())`, as the test set-up does (PhoneDirectoryTest.java:19-21). The null state is not modelled.
- SetContacts: the source stores the caller's list object itself, so later changes through either reference are shared. The model copies the list as a value and does not capture that aliasing.
