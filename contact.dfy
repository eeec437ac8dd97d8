/**
  One directory entry. The three fields are set once by the constructor and
  never assigned again, so they are `const`. Contact does not override
  equality: two contacts are the same entry only when they are the same
  object, which a Dafny class gives by reference equality.
*/
module Contacts {
  import opened Wrappers
  import opened Text

  /** The field values of a contact, without its identity. */
  datatype Record = Record(name: string, phone: string, category: string)

  class Contact {
    const name: string
    const phone: string
    /** The Java field `type` (a reserved word in Dafny). */
    const category: string

    constructor (name: string, phone: string, category: string)
      ensures this.name == name && this.phone == phone && this.category == category
    {
      this.name := name;
      this.phone := phone;
      this.category := category;
    }

    function GetName(): string {
      name
    }

    function GetPhone(): string {
      phone
    }

    function GetType(): string {
      category
    }

    /** The display text "name - phone (type)". */
    function ToString(): (r: string)
      ensures |r| == |name| + |phone| + |category| + 6
      ensures r[..|name|] == name
      ensures r[|name|..|name| + 3] == " - "
      ensures r[|name| + 3..|name| + 3 + |phone|] == phone
      ensures r[|name| + 3 + |phone|..|name| + 5 + |phone|] == " ("
      ensures r[|name| + 5 + |phone|..|r| - 1] == category
      ensures r[|r| - 1] == ')'
    {
      name + " - " + phone + " (" + category + ")"
    }
  }

  function FieldsOf(c: Contact): Record {
    Record(c.name, c.phone, c.category)
  }

  /** The field values of every contact of cs, in order. */
  function Records(cs: seq<Contact>): (r: seq<Record>)
    ensures |r| == |cs|
    ensures forall i :: 0 <= i < |cs| ==> r[i] == FieldsOf(cs[i])
  {
    if cs == [] then [] else [FieldsOf(cs[0])] + Records(cs[1..])
  }

  /**
    Reads the three fields back from a display text: the name runs up to the
    first " - ", the phone up to the next " (", and the type up to the final ")".
  */
  function ParseDisplay(s: string): Option<Record> {
    var i := IndexOfChar(s, '-');
    if i == 0 || i + 2 > |s| || s[i - 1] != ' ' || s[i + 1] != ' ' then None
    else
      match ParseTail(s[i + 2..])
      case None => None
      case Some(pc) => Some(Record(s[..i - 1], pc.0, pc.1))
  }

  /** Splits "phone (type)" into the phone and the type. */
  function ParseTail(rest: string): Option<(string, string)> {
    var j := IndexOfChar(rest, '(');
    if j == 0 || j + 2 > |rest| || rest[j - 1] != ' ' || rest[|rest| - 1] != ')' then None
    else Some((rest[..j - 1], rest[j + 1..|rest| - 1]))
  }

  /** The display layout, with the separators written as character lists. */
  lemma DisplayLayout(c: Contact)
    ensures c.ToString() == c.name + ([' ', '-', ' '] + (c.phone + ([' ', '('] + c.category + [')'])))
  {
  }

  /** The phone and the type can be read back from "phone (type)". */
  lemma ParseTailOfLayout(phone: string, category: string)
    requires '(' !in phone
    ensures ParseTail(phone + ([' ', '('] + category + [')'])) == Some((phone, category))
  {
    var tail := [' ', '('] + category + [')'];
    var rest := phone + tail;
    var p := |phone|;
    IndexOfCharSkips(phone, tail, '(');
    assert IndexOfChar(tail, '(') == 1;
    assert rest[p] == ' ' && rest[|rest| - 1] == ')';
    assert rest[..p] == phone && rest[p + 2..|rest| - 1] == category;
  }

  /** The fields can be read back from the layout "name - phone (type)". */
  lemma ParseDisplayOfLayout(name: string, phone: string, category: string)
    requires '-' !in name && '(' !in phone
    ensures ParseDisplay(name + ([' ', '-', ' '] + (phone + ([' ', '('] + category + [')']))))
         == Some(Record(name, phone, category))
  {
    var rest := phone + ([' ', '('] + category + [')']);
    var s := name + ([' ', '-', ' '] + rest);
    var n := |name|;
    IndexOfCharSkips(name, [' ', '-', ' '] + rest, '-');
    assert IndexOfChar([' ', '-', ' '] + rest, '-') == 1;
    assert s[n] == ' ' && s[n + 1] == '-' && s[n + 2] == ' ';
    assert s[..n] == name && s[n + 3..] == rest;
    ParseTailOfLayout(phone, category);
  }

  /**
    The display text is unambiguous: when the name holds no '-' and the phone
    no '(', the fields can be read back from it.
  */
  lemma ParseDisplayOfToString(c: Contact)
    requires '-' !in c.name && '(' !in c.phone
    ensures ParseDisplay(c.ToString()) == Some(FieldsOf(c))
  {
    DisplayLayout(c);
    ParseDisplayOfLayout(c.name, c.phone, c.category);
  }

  /**
    Without the restriction on the name, the display text is ambiguous: two
    contacts with different fields can show the same text.
  */
  lemma DisplayAmbiguous(a: Contact, b: Contact)
    requires a.name == "a - b" && a.phone == "c" && a.category == "d"
    requires b.name == "a" && b.phone == "b - c" && b.category == "d"
    ensures FieldsOf(a) != FieldsOf(b)
    ensures a.ToString() == b.ToString()
  {
    assert a.ToString() == "a - b - c (d)";
    assert b.ToString() == "a - b - c (d)";
  }
}
