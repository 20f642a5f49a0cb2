/** The `add` and `change` command handlers. Each takes the split argument
    list and the book, and gives back the book afterwards together with
    either the outcome the handler reports or the exception its error
    decorator turns into a message. */
module Handlers {
  import opened Wrappers
  import opened Fields
  import opened Records
  import opened AddressBook

  /** "Контакт додано." for a new name, "Контакт оновлено." otherwise. */
  datatype AddOutcome = ContactAdded | ContactUpdated

  /** "Номер телефону було змінено." or "Контакт відсутній.". The handler's
      third message, for a phone it cannot find, is never produced: the
      lookup raises before that branch is reached. */
  datatype ChangeOutcome = PhoneChanged | ContactMissing

  /** The phones filed under `name` before a handler runs (none for an
      unknown name). */
  function PhonesOf(b: Book, name: string): seq<string>
  {
    if name in b.records then b.records[name].phones else []
  }

  /** `add_contact`: fewer than two arguments is a ValueError. */
  function AddContact(b: Book, args: seq<string>): (res: (Book, Result<AddOutcome>))
    requires Valid(b)
    ensures Valid(res.0)
    ensures |args| < 2 ==> res == (b, Err(ValueError))
    ensures |args| >= 2 ==> res == AddContactWith(b, args[0], args[1])
  {
    if |args| < 2 then (b, Err(ValueError)) else AddContactWith(b, args[0], args[1])
  }

  /** `add_contact` once the arguments are unpacked. An unknown name gets an
      empty record filed under it BEFORE the phone is checked, so a bad
      phone still leaves that empty record in the book. An empty phone
      argument is skipped. */
  function AddContactWith(b: Book, name: string, phone: string): (res: (Book, Result<AddOutcome>))
    requires Valid(b)
    ensures Valid(res.0)
    ensures res.1.Err? <==> phone != "" && phone !in PhonesOf(b, name) && |phone| != PhoneLength
    ensures res.1.Err? ==> res.1.error == ValueError
    ensures res.1.Ok? ==> (res.1.value == ContactAdded <==> name !in b.records)
    ensures name in res.0.records && forall n :: n != name ==> Find(res.0, n) == Find(b, n)
    ensures name in b.records ==> res.0.keys == b.keys
    ensures name !in b.records ==> res.0.keys == b.keys + [name]
    ensures res.1.Err? ==> res.0.records[name] == (if name in b.records then b.records[name] else NewRecord(name))
    ensures res.1.Ok? ==> (res.0.records[name].phones
              == PhonesOf(b, name) + (if phone == "" || phone in PhonesOf(b, name) then [] else [phone]))
    ensures res.0.records[name].name == name
    ensures res.0.records[name].birthday == (if name in b.records then b.records[name].birthday else None)
  {
    var outcome := if name in b.records then ContactUpdated else ContactAdded;
    var record := if name in b.records then b.records[name] else NewRecord(name);
    var b1 := AddRecord(b, record);
    if phone == "" then (b1, Ok(outcome))
    else
      match AddPhone(record, phone)
      case Err(e) => (b1, Err(e))
      case Ok(updated) => (AddRecord(b1, updated), Ok(outcome))
  }

  /** `change_contact`: fewer than three arguments is a ValueError. */
  function ChangeContact(b: Book, args: seq<string>): (res: (Book, Result<ChangeOutcome>))
    requires Valid(b)
    ensures Valid(res.0)
    ensures |args| < 3 ==> res == (b, Err(ValueError))
    ensures |args| >= 3 ==> res == ChangeContactWith(b, args[0], args[1], args[2])
  {
    if |args| < 3 then (b, Err(ValueError)) else ChangeContactWith(b, args[0], args[1], args[2])
  }

  /** `change_contact` once the arguments are unpacked. The new phone's
      length is checked before the book is consulted; only a successful
      change touches the book, and then only the one record's phones. */
  function ChangeContactWith(b: Book, name: string, oldPhone: string, newPhone: string)
    : (res: (Book, Result<ChangeOutcome>))
    requires Valid(b)
    ensures Valid(res.0)
    ensures |newPhone| != PhoneLength ==> res == (b, Err(ValueError))
    ensures |newPhone| == PhoneLength && name !in b.records ==> res == (b, Ok(ContactMissing))
    ensures (|newPhone| == PhoneLength && name in b.records && oldPhone !in b.records[name].phones)
              ==> res == (b, Err(ValueError))
    ensures (res.1 == Ok(PhoneChanged))
              <==> (|newPhone| == PhoneLength && name in b.records && oldPhone in b.records[name].phones)
    ensures res.1 != Ok(PhoneChanged) ==> res.0 == b
    ensures res.1 == Ok(PhoneChanged) ==>
              && res.0.keys == b.keys
              && (forall n :: n != name ==> Find(res.0, n) == Find(b, n))
              && name in res.0.records
              && res.0.records[name].name == name
              && res.0.records[name].birthday == b.records[name].birthday
              && exists i :: 0 <= i < |b.records[name].phones| && b.records[name].phones[i] == oldPhone
                   && oldPhone !in b.records[name].phones[..i]
                   && res.0.records[name].phones == b.records[name].phones[i := newPhone]
  {
    if |newPhone| != PhoneLength then (b, Err(ValueError))
    else
      match Find(b, name)
      case None => (b, Ok(ContactMissing))
      case Some(record) =>
        match FindPhone(record, oldPhone)
        case Err(e) => (b, Err(e))
        case Ok(_) =>
          var edited := EditPhone(record, oldPhone, newPhone).value;
          (AddRecord(b, edited), Ok(PhoneChanged))
  }

  // ---------------------------------------------------------------------
  // Properties relating the handlers

  /** Repeating a successful `add` reports an update and changes nothing
      more. */
  lemma AddContactRepeat(b: Book, name: string, phone: string)
    requires Valid(b) && AddContactWith(b, name, phone).1.Ok?
    ensures var b1 := AddContactWith(b, name, phone).0;
      AddContactWith(b1, name, phone) == (b1, Ok(ContactUpdated))
  {
    var b1 := AddContactWith(b, name, phone).0;
    AddExistingIsIdentity(b1, name);
  }

  /** Changing a phone and then changing it back restores the book, as long
      as the new value was not already on the record. */
  lemma ChangeThenChangeBack(b: Book, name: string, oldPhone: string, newPhone: string)
    requires Valid(b) && |oldPhone| == PhoneLength && |newPhone| == PhoneLength
    requires name in b.records && oldPhone in b.records[name].phones && newPhone !in b.records[name].phones
    ensures var b1 := ChangeContactWith(b, name, oldPhone, newPhone).0;
      ChangeContactWith(b1, name, newPhone, oldPhone) == (b, Ok(PhoneChanged))
  {
    var r := b.records[name];
    EditThenEditBack(r, oldPhone, newPhone);
    var r1 := EditPhone(r, oldPhone, newPhone).value;
    var b1 := ChangeContactWith(b, name, oldPhone, newPhone).0;
    assert b1 == AddRecord(b, r1);
    assert AddRecord(b1, r) == b by {
      assert b1.records[name := r] == b.records;
    }
  }

  /** A nine-digit new number is refused and the record keeps its old
      number. */
  lemma ShortNumberRefused()
    ensures var b := AddRecord(Empty(), Record("Ann", ["0501112233"], None));
      ChangeContact(b, ["Ann", "0501112233", "050111223"]) == (b, Err(ValueError))
  {
  }

  /** A bad phone for a new name still files an empty record under the
      name before the error is reported. */
  lemma BadPhoneLeavesEmptyContact()
    ensures AddContact(Empty(), ["Ann", "123"])
         == (Book(["Ann"], map["Ann" := NewRecord("Ann")]), Err(ValueError))
  {
    assert |"123"| != PhoneLength;
    assert Empty().keys + ["Ann"] == ["Ann"];
    assert Empty().records["Ann" := NewRecord("Ann")] == map["Ann" := NewRecord("Ann")];
  }
}
