/** `AddressBook`: records keyed by name. Python's dict remembers insertion
    order, and the birthday scan reports in that order, so the book is a
    map together with the sequence of its keys in insertion order. */
module AddressBook {
  import opened Wrappers
  import opened Records

  datatype Book = Book(keys: seq<string>, records: map<string, Record>)

  /** Keys are listed once each, exactly the map's keys, and every record
      is filed under its own name. */
  predicate Valid(b: Book) {
    && NoDuplicates(b.keys)
    && (forall k :: k in b.records ==> k in b.keys)
    && (forall k :: k in b.keys ==> k in b.records)
    && (forall k :: k in b.records ==> b.records[k].name == k && WellFormed(b.records[k]))
  }

  function Empty(): (b: Book)
    ensures Valid(b) && |b.keys| == 0 && forall n :: Find(b, n).None?
  {
    Book([], map[])
  }

  /** `find`: the record filed under `name`, or None (not an error). */
  function Find(b: Book, name: string): (r: Option<Record>)
    ensures r.Some? <==> name in b.records
    ensures r.Some? ==> r.value == b.records[name]
    ensures Valid(b) && r.Some? ==> r.value.name == name && WellFormed(r.value)
  {
    if name in b.records then Some(b.records[name]) else None
  }

  /** `add_record`: files `r` under its name, replacing any record already
      there. A replaced key keeps its place in the order; a new key goes
      last. */
  function AddRecord(b: Book, r: Record): (b': Book)
    requires Valid(b) && WellFormed(r)
    ensures Valid(b')
    ensures Find(b', r.name) == Some(r)
    ensures forall n :: n != r.name ==> Find(b', n) == Find(b, n)
    ensures r.name in b.records ==> b'.keys == b.keys
    ensures r.name !in b.records ==> b'.keys == b.keys + [r.name]
  {
    var keys := if r.name in b.records then b.keys else b.keys + [r.name];
    Book(keys, b.records[r.name := r])
  }

  /** `delete`: removes the record filed under `name`, keeping the other
      keys in order; KeyError when there is none. */
  function Delete(b: Book, name: string): (res: Result<Book>)
    requires Valid(b)
    ensures res.Err? <==> name !in b.records
    ensures res.Err? ==> res.error == KeyError
    ensures res.Ok? ==> Valid(res.value) && Find(res.value, name).None?
    ensures res.Ok? ==> forall n :: n != name ==> Find(res.value, n) == Find(b, n)
    ensures res.Ok? ==> exists i :: 0 <= i <= |res.value.keys|
                          && b.keys == res.value.keys[..i] + [name] + res.value.keys[i..]
  {
    match FirstIndex(b.keys, name)
    case None => Err(KeyError)
    case Some(i) =>
      var keys := b.keys[..i] + b.keys[i + 1..];
      RemoveKeyAt(b, i);
      assert b.keys == keys[..i] + [name] + keys[i..];
      Ok(Book(keys, b.records - {name}))
  }

  /** Dropping the key at position `i` and its record keeps the book valid,
      and the dropped key sits between the kept prefix and suffix. */
  lemma RemoveKeyAt(b: Book, i: nat)
    requires Valid(b) && i < |b.keys|
    ensures var keys := b.keys[..i] + b.keys[i + 1..];
      && Valid(Book(keys, b.records - {b.keys[i]}))
      && b.keys == keys[..i] + [b.keys[i]] + keys[i..]
  {
    DropAt(b.keys, i);
  }

  /** The records in key order: what `self.values()` iterates over. */
  function Values(b: Book): (vs: seq<Record>)
    requires Valid(b)
    ensures |vs| == |b.keys|
    ensures forall i :: 0 <= i < |b.keys| ==> vs[i] == b.records[b.keys[i]]
    ensures forall i :: 0 <= i < |vs| ==> WellFormed(vs[i]) && vs[i].name == b.keys[i]
  {
    seq(|b.keys|, i requires 0 <= i < |b.keys| => b.records[b.keys[i]])
  }

  /** A record added under a new name is iterated after all the others. */
  lemma ValuesAfterAdd(b: Book, r: Record)
    requires Valid(b) && WellFormed(r) && r.name !in b.records
    ensures Values(AddRecord(b, r)) == Values(b) + [r]
  {
    var b' := AddRecord(b, r);
    assert b'.keys == b.keys + [r.name];
    forall i | 0 <= i < |b.keys|
      ensures Values(b')[i] == Values(b)[i]
    {
      assert b'.keys[i] == b.keys[i] && b.keys[i] != r.name;
    }
  }

  /** Deleting a record that was just added under a new name restores the
      book. */
  lemma AddThenDelete(b: Book, r: Record)
    requires Valid(b) && WellFormed(r) && r.name !in b.records
    ensures Delete(AddRecord(b, r), r.name) == Ok(b)
  {
    var b' := AddRecord(b, r);
    assert FirstIndex(b'.keys, r.name) == Some(|b.keys|) by {
      assert b'.keys[..|b.keys|] == b.keys;
    }
    assert b'.keys[..|b.keys|] + b'.keys[|b.keys| + 1..] == b.keys;
    assert b'.records - {r.name} == b.records;
  }

  /** Re-adding the record a name already holds changes nothing. */
  lemma AddExistingIsIdentity(b: Book, name: string)
    requires Valid(b) && name in b.records
    ensures AddRecord(b, b.records[name]) == b
  {
    assert b.records[name := b.records[name]] == b.records;
  }
}
