/** `Record`: one contact's name, ordered phone list and optional birthday,
    with the phone operations that look up the FIRST entry holding a given
    value. */
module Records {
  import opened Wrappers
  import opened Calendar
  import opened Fields
  import DateFormat

  datatype Record = Record(name: string, phones: seq<string>, birthday: Option<Date>)

  /** A stored birthday is always a real calendar date. */
  predicate WellFormed(r: Record) {
    r.birthday.Some? ==> ValidDate(r.birthday.value)
  }

  /** No phone value appears twice. */
  predicate NoDuplicates(phones: seq<string>) {
    forall i, j :: 0 <= i < j < |phones| ==> phones[i] != phones[j]
  }

  /** `Record(name)`: no phones and no birthday yet. */
  function NewRecord(name: string): (r: Record)
    ensures r.name == name && |r.phones| == 0 && r.birthday.None?
    ensures WellFormed(r) && NoDuplicates(r.phones)
  {
    Record(name, [], None)
  }

  /** Position of the first entry equal to `phone`, scanning from the front
      as the `for p in self.phones` loops do. */
  function FirstIndex(phones: seq<string>, phone: string): (r: Option<nat>)
    ensures r.None? <==> phone !in phones
    ensures r.Some? ==> r.value < |phones| && phones[r.value] == phone && phone !in phones[..r.value]
  {
    if |phones| == 0 then None
    else if phones[0] == phone then Some(0)
    else
      match FirstIndex(phones[1..], phone)
      case None => None
      case Some(i) =>
        assert phones[..i + 1] == [phones[0]] + phones[1..][..i];
        Some(i + 1)
  }

  /** `add_phone`: a value already on the list leaves the record as it is,
      without checking its length; a new value must pass the phone check
      and is appended at the end. */
  function AddPhone(r: Record, phone: string): (res: Result<Record>)
    ensures phone in r.phones ==> res == Ok(r)
    ensures phone !in r.phones && |phone| != PhoneLength ==> res == Err(ValueError)
    ensures phone !in r.phones && |phone| == PhoneLength ==>
      res.Ok? && res.value == r.(phones := r.phones + [phone])
  {
    if phone in r.phones then Ok(r)
    else
      match MakePhone(phone)
      case Err(e) => Err(e)
      case Ok(p) => Ok(r.(phones := r.phones + [p]))
  }

  /** `remove_phone`: deletes the first entry equal to `phone` and keeps
      the rest in order; ValueError when there is none. */
  function RemovePhone(r: Record, phone: string): (res: Result<Record>)
    ensures res.Err? <==> phone !in r.phones
    ensures res.Err? ==> res.error == ValueError
    ensures res.Ok? ==> res.value.name == r.name && res.value.birthday == r.birthday
    ensures res.Ok? ==> exists i :: 0 <= i <= |res.value.phones| && phone !in res.value.phones[..i]
                          && r.phones == res.value.phones[..i] + [phone] + res.value.phones[i..]
  {
    match FirstIndex(r.phones, phone)
    case None => Err(ValueError)
    case Some(i) =>
      var rest := r.phones[..i] + r.phones[i + 1..];
      assert rest[..i] == r.phones[..i] && rest[i..] == r.phones[i + 1..];
      assert r.phones == rest[..i] + [phone] + rest[i..];
      Ok(r.(phones := rest))
  }

  /** `edit_phone`: rewrites the value of the first entry equal to
      `oldPhone`; the new value is not length-checked. ValueError when no
      entry matches. */
  function EditPhone(r: Record, oldPhone: string, newPhone: string): (res: Result<Record>)
    ensures res.Err? <==> oldPhone !in r.phones
    ensures res.Err? ==> res.error == ValueError
    ensures res.Ok? ==> res.value.name == r.name && res.value.birthday == r.birthday
    ensures res.Ok? ==> exists i :: 0 <= i < |r.phones| && r.phones[i] == oldPhone
                          && oldPhone !in r.phones[..i] && res.value.phones == r.phones[i := newPhone]
  {
    match FirstIndex(r.phones, oldPhone)
    case None => Err(ValueError)
    case Some(i) => Ok(r.(phones := r.phones[i := newPhone]))
  }

  /** `find_phone`: the stored value equal to `phone`, or ValueError. */
  function FindPhone(r: Record, phone: string): (res: Result<string>)
    ensures res.Ok? <==> phone in r.phones
    ensures res.Ok? ==> res.value == phone
    ensures res.Err? ==> res.error == ValueError
  {
    match FirstIndex(r.phones, phone)
    case None => Err(ValueError)
    case Some(i) => Ok(r.phones[i])
  }

  /** `add_birthday`: parses the text and replaces any earlier birthday;
      on a parse error the record is unchanged (the exception escapes). */
  function AddBirthday(r: Record, text: string): (res: Result<Record>)
    ensures res.Ok? ==> res.value.name == r.name && res.value.phones == r.phones
    ensures res.Ok? ==> res.value.birthday.Some? && MakeBirthday(text) == Ok(res.value.birthday.value)
    ensures res.Err? <==> MakeBirthday(text).Err?
    ensures res.Err? ==> res.error == ValueError
    ensures WellFormed(r) && res.Ok? ==> WellFormed(res.value)
  {
    match MakeBirthday(text)
    case Err(e) => Err(e)
    case Ok(d) => Ok(r.(birthday := Some(d)))
  }

  // ---------------------------------------------------------------------
  // Properties relating the operations

  /** Adding a phone twice is the same as adding it once. */
  lemma AddPhoneIdempotent(r: Record, phone: string)
    requires AddPhone(r, phone).Ok?
    ensures AddPhone(AddPhone(r, phone).value, phone) == AddPhone(r, phone)
  {
  }

  /** After a successful add the phone can be found. */
  lemma AddThenFind(r: Record, phone: string)
    requires AddPhone(r, phone).Ok?
    ensures FindPhone(AddPhone(r, phone).value, phone) == Ok(phone)
  {
  }

  /** Removing a phone that was just appended restores the record. */
  lemma AddThenRemove(r: Record, phone: string)
    requires phone !in r.phones && |phone| == PhoneLength
    ensures RemovePhone(AddPhone(r, phone).value, phone) == Ok(r)
  {
    var added := r.phones + [phone];
    assert FirstIndex(added, phone) == Some(|r.phones|) by {
      assert added[..|r.phones|] == r.phones;
    }
    assert added[..|r.phones|] + added[|r.phones| + 1..] == r.phones;
  }

  /** The length grows by exactly one on a fresh add and shrinks by
      exactly one on a remove. */
  lemma PhoneCounts(r: Record, phone: string)
    ensures AddPhone(r, phone).Ok? && phone !in r.phones ==>
      |AddPhone(r, phone).value.phones| == |r.phones| + 1
    ensures RemovePhone(r, phone).Ok? ==> |RemovePhone(r, phone).value.phones| + 1 == |r.phones|
  {
  }

  /** `add_phone` and `remove_phone` keep the phone list free of repeats. */
  lemma AddKeepsNoDuplicates(r: Record, phone: string)
    requires NoDuplicates(r.phones)
    requires AddPhone(r, phone).Ok?
    ensures NoDuplicates(AddPhone(r, phone).value.phones)
  {
  }

  lemma RemoveKeepsNoDuplicates(r: Record, phone: string)
    requires NoDuplicates(r.phones)
    requires RemovePhone(r, phone).Ok?
    ensures NoDuplicates(RemovePhone(r, phone).value.phones)
  {
    DropAt(r.phones, FirstIndex(r.phones, phone).value);
  }

  /** Dropping the entry at position `i` from a repeat-free list leaves a
      repeat-free list holding every other value, with the dropped value
      sitting between the kept prefix and suffix. */
  lemma DropAt(s: seq<string>, i: nat)
    requires NoDuplicates(s) && i < |s|
    ensures var t := s[..i] + s[i + 1..];
      && NoDuplicates(t)
      && (forall x :: x in t <==> x in s && x != s[i])
      && s == t[..i] + [s[i]] + t[i..]
  {
    var t := s[..i] + s[i + 1..];
    assert t[..i] == s[..i] && t[i..] == s[i + 1..];
    forall a, b | 0 <= a < b < |t|
      ensures t[a] != t[b]
    {
      var a' := if a < i then a else a + 1;
      var b' := if b < i then b else b + 1;
      assert t[a] == s[a'] && t[b] == s[b'];
    }
    forall x
      ensures x in t <==> x in s && x != s[i]
    {
      if x in s && x != s[i] {
        var k :| 0 <= k < |s| && s[k] == x;
        if k < i {
          assert t[k] == x;
        } else {
          assert t[k - 1] == x;
        }
      }
      if x in t {
        var k :| 0 <= k < |t| && t[k] == x;
        var k' := if k < i then k else k + 1;
        assert s[k'] == x;
      }
    }
  }

  /** Entering the `DD.MM.YYYY` rendering of a date as the birthday stores
      exactly that date and changes nothing else. */
  lemma AddBirthdayOfRendering(r: Record, d: Date)
    requires ValidDate(d)
    ensures AddBirthday(r, DateFormat.FormatDate(d)) == Ok(r.(birthday := Some(d)))
  {
    DateFormat.ParseFormat(d);
  }

  /** Editing a phone to a value not on the record, then editing it back,
      restores the record. */
  lemma EditThenEditBack(r: Record, oldPhone: string, newPhone: string)
    requires oldPhone in r.phones && newPhone !in r.phones
    ensures EditPhone(r, oldPhone, newPhone).Ok?
    ensures EditPhone(EditPhone(r, oldPhone, newPhone).value, newPhone, oldPhone) == Ok(r)
  {
    var i := FirstIndex(r.phones, oldPhone).value;
    var r1 := EditPhone(r, oldPhone, newPhone).value;
    assert r1.phones == r.phones[i := newPhone];
    assert r1.phones[..i] == r.phones[..i];
    FirstIndexAt(r1.phones, newPhone, i);
    assert r1.phones[i := oldPhone] == r.phones;
  }

  /** A position holding the value with no earlier occurrence is the one
      the front-to-back scan stops at. */
  lemma {:induction false} FirstIndexAt(phones: seq<string>, phone: string, i: nat)
    requires i < |phones| && phones[i] == phone && phone !in phones[..i]
    ensures FirstIndex(phones, phone) == Some(i)
  {
    if i > 0 {
      assert phones[..i][0] == phones[0];
      assert phones[1..][..i - 1] == phones[..i][1..];
      FirstIndexAt(phones[1..], phone, i - 1);
    }
  }

  /** `edit_phone` does not keep the list free of repeats: renaming one
      phone to the value of another leaves two equal entries. */
  lemma EditMayDuplicate()
    ensures var r := Record("Ann", ["0501112233", "0674445566"], None);
      NoDuplicates(r.phones)
      && EditPhone(r, "0501112233", "0674445566") == Ok(r.(phones := ["0674445566", "0674445566"]))
      && !NoDuplicates(EditPhone(r, "0501112233", "0674445566").value.phones)
  {
    var r := Record("Ann", ["0501112233", "0674445566"], None);
    assert FirstIndex(r.phones, "0501112233") == Some(0);
    var edited := r.phones[0 := "0674445566"];
    assert edited == ["0674445566", "0674445566"];
    assert edited[0] == edited[1];
  }
}
