/**
  The data file phone_directory.dat, abstracted from its byte format.
  saveContacts writes the list with one ObjectOutputStream.writeObject call,
  and Java serialization writes each distinct object once and refers back to
  it when it occurs again; readObject builds one fresh object per distinct
  object written. SavedData keeps exactly that: the field values of the
  distinct contacts, and for each position of the list which of them stands
  there.
*/
module Persistence {
  import opened Contacts

  datatype SavedData = SavedData(records: seq<Record>, slots: seq<nat>)

  predicate WellFormed(d: SavedData) {
    forall i :: 0 <= i < |d.slots| ==> d.slots[i] < |d.records|
  }

  /**
    Absent: no file; Unreadable: a file whose opening or reading fails with an
    IOException or ClassNotFoundException; Stored: a complete serialized list
    of contacts.
  */
  datatype FileState = Absent | Unreadable | Stored(data: SavedData)

  /**
    How a write goes: it succeeds, the file cannot be opened (the old content
    stays), or the stream fails after the file was opened and truncated.
  */
  datatype WriteFault = NoFault | OpenFails | WriteFails

  /** The file on disk, which outlives any one directory object. */
  class DataFile {
    var state: FileState

    constructor (state: FileState)
      ensures this.state == state
    {
      this.state := state;
    }
  }

  /** cs holds no object twice. */
  ghost predicate NoDuplicates(cs: seq<Contact>) {
    forall i, j :: 0 <= i < j < |cs| ==> cs[i] != cs[j]
  }

  /** The distinct objects of cs, in order of first occurrence. */
  function Distinct(cs: seq<Contact>): (d: seq<Contact>)
    ensures NoDuplicates(d)
    ensures forall i :: 0 <= i < |cs| ==> cs[i] in d
    ensures forall i :: 0 <= i < |d| ==> d[i] in cs
  {
    if cs == [] then []
    else
      var init := Distinct(cs[..|cs| - 1]);
      var last := cs[|cs| - 1];
      assert cs == cs[..|cs| - 1] + [last];
      if last in init then init else init + [last]
  }

  /** The position of c in d. */
  function IndexOf(d: seq<Contact>, c: Contact): (k: nat)
    requires c in d
    ensures k < |d| && d[k] == c
    ensures c !in d[..k]
  {
    if d[0] == c then 0
    else
      var k := 1 + IndexOf(d[1..], c);
      assert d[..k] == [d[0]] + d[1..][..k - 1];
      k
  }

  /** What writeObject(new ArrayList<>(contacts)) records about the list. */
  function Encode(cs: seq<Contact>): SavedData {
    var d := Distinct(cs);
    SavedData(Records(d), seq(|cs|, i requires 0 <= i < |cs| => IndexOf(d, cs[i])))
  }

  /**
    cs is what reading d back produces: one contact per slot, carrying the
    recorded fields, and two positions hold the same object exactly when they
    name the same recorded object.
  */
  ghost predicate Decodes(cs: seq<Contact>, d: SavedData) {
    && |cs| == |d.slots|
    && WellFormed(d)
    && (forall i :: 0 <= i < |cs| ==> FieldsOf(cs[i]) == d.records[d.slots[i]])
    && (forall i, j :: 0 <= i < |cs| && 0 <= j < |cs| ==> (cs[i] == cs[j] <==> d.slots[i] == d.slots[j]))
  }

  /** The list that was written is itself a decoding of what was written. */
  lemma EncodeDecodes(cs: seq<Contact>)
    ensures Decodes(cs, Encode(cs))
  {
  }

  /**
    Two decodings of the same data hold the same field values in the same
    order, and share objects at the same positions: reading back what was
    written reproduces the written list up to the identity of its objects.
  */
  lemma DecodingsAgree(a: seq<Contact>, b: seq<Contact>, d: SavedData)
    requires Decodes(a, d) && Decodes(b, d)
    ensures Records(a) == Records(b)
    ensures forall i, j :: 0 <= i < |a| && 0 <= j < |a| ==> (a[i] == a[j] <==> b[i] == b[j])
  {
  }

  /** ObjectInputStream.readObject: build the recorded objects afresh, then the list. */
  method Deserialize(d: SavedData) returns (cs: seq<Contact>)
    requires WellFormed(d)
    ensures Decodes(cs, d)
    ensures forall i :: 0 <= i < |cs| ==> fresh(cs[i])
  {
    var objs: seq<Contact> := [];
    var n := 0;
    while n < |d.records|
      invariant n <= |d.records| && |objs| == n
      invariant forall i :: 0 <= i < n ==> FieldsOf(objs[i]) == d.records[i]
      invariant NoDuplicates(objs)
      invariant forall i :: 0 <= i < n ==> fresh(objs[i])
    {
      var r := d.records[n];
      var c := new Contact(r.name, r.phone, r.category);
      objs := objs + [c];
      n := n + 1;
    }
    cs := [];
    var m := 0;
    while m < |d.slots|
      invariant m <= |d.slots| && |cs| == m
      invariant forall i :: 0 <= i < m ==> cs[i] == objs[d.slots[i]]
    {
      cs := cs + [objs[d.slots[m]]];
      m := m + 1;
    }
  }
}
