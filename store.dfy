/**
 * The record store of the telephone directory: a fixed array of 100 records,
 * of which the first `count` are live, kept in insertion order, together with
 * the records the data file `contacts.dat` holds.
 *
 * The first part states, over plain sequences of records, what a duplicate
 * is, when a store has no duplicates, how a record is removed and how a file
 * is read back. The class `Directory` then holds the program's global state
 * and changes it in place as the C functions do; each of its methods is
 * proved to leave the live records equal to a function of the old ones.
 */
module Store {
  import opened Contacts
  import opened Validation

  /** Two records clash when they agree on the name, the phone or the e-mail. */
  predicate Clashes(a: Contact, b: Contact)
  {
    a.name == b.name || a.phone == b.phone || a.email == b.email
  }

  /** `c` duplicates some record of `s`. */
  predicate IsDuplicateIn(s: seq<Contact>, c: Contact)
  {
    exists i :: 0 <= i < |s| && Clashes(s[i], c)
  }

  /** No two records of `s` share a name, a phone or an e-mail. */
  predicate Distinct(s: seq<Contact>)
  {
    forall i, j :: 0 <= i < j < |s| ==> !Clashes(s[i], s[j])
  }

  /** Every record of `s` passes the validators and fits its fields. */
  predicate AllValid(s: seq<Contact>)
  {
    forall i :: 0 <= i < |s| ==> ValidContact(s[i])
  }

  /** `s` without its record at position `i`; the others keep their order. */
  function RemoveAt(s: seq<Contact>, i: nat): (r: seq<Contact>)
    requires i < |s|
    ensures |r| == |s| - 1
    ensures forall k :: 0 <= k < i ==> r[k] == s[k]
    ensures forall k :: i <= k < |r| ==> r[k] == s[k + 1]
  {
    s[..i] + s[i + 1..]
  }

  /** One line of the listing: the 1-based number shown and the record. */
  datatype Listed = Listed(number: nat, contact: Contact)

  /** The listing of `s`: each record with its 1-based position. */
  function Numbered(s: seq<Contact>): (r: seq<Listed>)
    ensures |r| == |s|
    ensures forall k :: 0 <= k < |s| ==> r[k].number == k + 1 && r[k].contact == s[k]
  {
    seq(|s|, k requires 0 <= k < |s| => Listed(k + 1, s[k]))
  }

  /** The contents of the data file: absent, or a sequence of whole records. */
  datatype DataFile = Missing | Present(records: seq<Contact>)

  /**
   * The live records after loading `file` into a store holding `current`:
   * a missing file leaves the store alone; otherwise the store holds the
   * file's first records, as many as fit.
   */
  function Loaded(file: DataFile, current: seq<Contact>): (r: seq<Contact>)
    ensures file.Missing? ==> r == current
    ensures file.Present? ==> |r| == Min(|file.records|, MAX_CONTACTS)
    ensures file.Present? ==> r == file.records[..|r|]
  {
    match file
    case Missing => current
    case Present(records) => records[..Min(|records|, MAX_CONTACTS)]
  }

  datatype AddOutcome = Added | DirectoryFull | DuplicateContact

  /** Outcome of delete and update: done, nothing stored, or a number out of range. */
  datatype EditOutcome = Done | NoContacts | InvalidIndex

  /**
   * The program's global state: the array `entries` (the C `directory`), the
   * number `count` of live records (the C `contactCount`) and the contents of
   * the data file. `canOpen` parameters say whether opening the data file for
   * writing succeeds.
   */
  class Directory {
    const entries: array<Contact>
    var count: nat
    var file: DataFile

    ghost predicate Valid()
      reads this
    {
      entries.Length == MAX_CONTACTS && count <= MAX_CONTACTS
    }

    /** The live records, in order. */
    ghost function Contents(): seq<Contact>
      reads this, entries
      requires Valid()
    {
      entries[..count]
    }

    /**
     * Program start: the zero-initialized globals, then the data file
     * `onDisk` is loaded.
     */
    constructor Start(onDisk: DataFile)
      ensures Valid() && fresh(entries)
      ensures file == onDisk
      ensures Contents() == Loaded(onDisk, [])
    {
      entries := new Contact[MAX_CONTACTS](_ => EMPTY_CONTACT);
      count := 0;
      file := onDisk;
      new;
      LoadContactsFromFile();
    }

    /** The linear scan of isDuplicateContact over the live records. */
    method IsDuplicateContact(c: Contact) returns (dup: bool)
      requires Valid()
      ensures dup <==> IsDuplicateIn(Contents(), c)
    {
      var i := 0;
      while i < count
        invariant 0 <= i <= count
        invariant forall k :: 0 <= k < i ==> !Clashes(entries[k], c)
      {
        if entries[i].name == c.name {
          return true;
        }
        if entries[i].phone == c.phone {
          return true;
        }
        if entries[i].email == c.email {
          assert Contents()[i] == entries[i];
          return true;
        }
        i := i + 1;
      }
      assert forall k :: 0 <= k < count ==> Contents()[k] == entries[k];
      return false;
    }

    /**
     * addContact, once its input loops have produced the validated record
     * `c`: refuse when the array is full or `c` duplicates a live record,
     * otherwise store `c` after the live records and save the file.
     */
    method AddContact(c: Contact, canOpen: bool) returns (outcome: AddOutcome)
      requires Valid() && ValidContact(c)
      modifies this`count, this`file, entries
      ensures Valid()
      ensures outcome == (if old(count) >= MAX_CONTACTS then DirectoryFull
                          else if IsDuplicateIn(old(Contents()), c) then DuplicateContact
                          else Added)
      ensures outcome == Added ==> count == old(count) + 1
      ensures outcome == Added ==> entries[..] == old(entries[..])[old(count) := c]
      ensures Contents() == if outcome == Added then old(Contents()) + [c] else old(Contents())
      ensures outcome != Added ==> unchanged(this, entries)
      ensures file == if outcome == Added && canOpen then Present(Contents()) else old(file)
    {
      if count >= MAX_CONTACTS {
        return DirectoryFull;
      }
      var dup := IsDuplicateContact(c);
      if dup {
        return DuplicateContact;
      }
      entries[count] := c;
      count := count + 1;
      SaveContactsToFile(canOpen);
      return Added;
    }

    /** viewContacts: the live records, numbered from 1 in store order. */
    method ViewContacts() returns (lines: seq<Listed>)
      requires Valid()
      ensures lines == Numbered(Contents())
    {
      lines := [];
      var i := 0;
      while i < count
        invariant 0 <= i <= count
        invariant |lines| == i
        invariant forall k :: 0 <= k < i ==> lines[k] == Listed(k + 1, entries[k])
      {
        lines := lines + [Listed(i + 1, entries[i])];
        i := i + 1;
      }
    }

    /**
     * deleteContact for the 1-based `index` the user chose: refuse on an empty
     * store or an index outside 1..count, otherwise shift the later records
     * one place left, drop the count and save the file.
     */
    method DeleteContact(index: int, canOpen: bool) returns (outcome: EditOutcome)
      requires Valid()
      modifies this`count, this`file, entries
      ensures Valid()
      ensures outcome == (if old(count) == 0 then NoContacts
                          else if index < 1 || index > old(count) then InvalidIndex
                          else Done)
      ensures outcome == Done ==> count == old(count) - 1
      ensures outcome == Done ==>
        entries[..] == RemoveAt(old(entries[..count]), index - 1) + old(entries[..])[old(count) - 1..]
      ensures Contents() == if outcome == Done then RemoveAt(old(Contents()), index - 1) else old(Contents())
      ensures outcome != Done ==> unchanged(this, entries)
      ensures file == if outcome == Done && canOpen then Present(Contents()) else old(file)
    {
      if count == 0 {
        return NoContacts;
      }
      if index < 1 || index > count {
        return InvalidIndex;
      }
      var i := index - 1;
      while i < count - 1
        invariant Valid() && count == old(count) && file == old(file)
        invariant index - 1 <= i <= count - 1
        invariant forall k :: 0 <= k < index - 1 ==> entries[k] == old(entries[k])
        invariant forall k :: index - 1 <= k < i ==> entries[k] == old(entries[k + 1])
        invariant forall k :: i <= k < MAX_CONTACTS ==> entries[k] == old(entries[k])
      {
        entries[i] := entries[i + 1];
        i := i + 1;
      }
      count := count - 1;
      SaveContactsToFile(canOpen);
      return Done;
    }

    /**
     * updateContact for the 1-based `index` the user chose, once its input
     * loops have produced the validated record `c`: refuse on an empty store
     * or an index outside 1..count, otherwise overwrite that one record and
     * save the file. The new record is not checked against the others.
     */
    method UpdateContact(index: int, c: Contact, canOpen: bool) returns (outcome: EditOutcome)
      requires Valid() && ValidContact(c)
      modifies this`file, entries
      ensures Valid()
      ensures outcome == (if count == 0 then NoContacts
                          else if index < 1 || index > count then InvalidIndex
                          else Done)
      ensures outcome == Done ==> entries[..] == old(entries[..])[index - 1 := c]
      ensures Contents() == if outcome == Done then old(Contents())[index - 1 := c] else old(Contents())
      ensures outcome != Done ==> unchanged(this, entries)
      ensures file == if outcome == Done && canOpen then Present(Contents()) else old(file)
    {
      if count == 0 {
        return NoContacts;
      }
      if index < 1 || index > count {
        return InvalidIndex;
      }
      entries[index - 1] := c;
      SaveContactsToFile(canOpen);
      return Done;
    }

    /**
     * saveContactsToFile: when the file opens for writing, it is replaced by
     * the live records; when it does not, nothing changes.
     */
    method SaveContactsToFile(canOpen: bool)
      requires Valid()
      modifies this`file
      ensures file == if canOpen then Present(Contents()) else old(file)
    {
      if !canOpen {
        return;
      }
      file := Present(entries[..count]);
    }

    /**
     * loadContactsFromFile: a missing file changes nothing; otherwise the
     * file's leading records, at most MAX_CONTACTS of them, are copied over
     * the front of the array and become the live records.
     */
    method LoadContactsFromFile()
      requires Valid()
      modifies this`count, entries
      ensures Valid()
      ensures Contents() == Loaded(file, old(Contents()))
      ensures file.Missing? ==> unchanged(this, entries)
      ensures file.Present? ==> entries[count..] == old(entries[..])[count..]
    {
      match file
      case Missing =>
        return;
      case Present(records) =>
        var n := Min(|records|, MAX_CONTACTS);
        forall k | 0 <= k < n {
          entries[k] := records[k];
        }
        count := n;
    }

    /**
     * A later run of the program: it starts from the data file this run left.
     * When the file last saved the live records, the next run starts with
     * exactly those records.
     */
    method Restart() returns (next: Directory)
      requires Valid()
      ensures fresh(next) && next.Valid()
      ensures next.file == file
      ensures file == Present(Contents()) ==> next.Contents() == Contents()
    {
      next := new Directory.Start(file);
      if file == Present(Contents()) {
        LoadAfterSave(Contents(), []);
      }
    }
  }

  // Records used by the examples below.
  const ALICE: Contact := Contact("Alice Smith", "5551234567", "alice@x.co")
  const BOB_WITH_ALICES_PHONE: Contact := Contact("Bob", "5551234567", "b@x.co")
  const ANN: Contact := Contact("Ann", "0123456789", "a@x.co")
  const BOB: Contact := Contact("Bob", "9876543210", "b@x.co")
  const SECOND_BOB: Contact := Contact("Bob", "5550001111", "c@x.co")

  /**
   * A first run with no data file: the store starts empty; a valid record is
   * added; a second record with the same phone number is refused; deleting
   * record 1 empties the store again, and the file then holds no records.
   */
  method FirstRun() returns (d: Directory)
    ensures fresh(d) && d.Valid()
    ensures d.Contents() == [] && d.file == Present([])
  {
    d := new Directory.Start(Missing);
    assert d.Contents() == [];
    var alice := ALICE;
    AliceIsValid();
    var added := d.AddContact(alice, true);
    assert added == Added && d.Contents() == [alice];
    var other := BOB_WITH_ALICES_PHONE;
    BobWithAlicesPhoneIsValid();
    assert IsDuplicateIn(d.Contents(), other) by { assert Clashes(d.Contents()[0], other); }
    var again := d.AddContact(other, true);
    assert again == DuplicateContact && d.Contents() == [alice];
    var deleted := d.DeleteContact(1, true);
    assert deleted == Done;
  }

  lemma AliceIsValid()
    ensures ValidContact(ALICE)
  {
  }

  lemma BobWithAlicesPhoneIsValid()
    ensures ValidContact(BOB_WITH_ALICES_PHONE)
  {
  }

  /**
   * Given a store without duplicates, appending `c` keeps it without
   * duplicates exactly when `c` duplicates none of its records.
   */
  lemma {:induction false} AppendKeepsDistinct(s: seq<Contact>, c: Contact)
    requires Distinct(s)
    ensures Distinct(s + [c]) <==> !IsDuplicateIn(s, c)
  {
    var t := s + [c];
    if IsDuplicateIn(s, c) {
      var i :| 0 <= i < |s| && Clashes(s[i], c);
      assert t[i] == s[i] && t[|s|] == c;
    }
  }

  /** Removing a record keeps a store without duplicates. */
  lemma {:induction false} RemoveAtKeepsDistinct(s: seq<Contact>, i: nat)
    requires i < |s| && Distinct(s)
    ensures Distinct(RemoveAt(s, i))
  {
    var r := RemoveAt(s, i);
    forall p, q | 0 <= p < q < |r| ensures !Clashes(r[p], r[q]) {
      var p' := if p < i then p else p + 1;
      var q' := if q < i then q else q + 1;
      assert r[p] == s[p'] && r[q] == s[q'];
    }
  }

  /**
   * In a store without duplicates, the removed record is gone, and the
   * records left are the old ones less exactly that one.
   */
  lemma {:induction false} RemoveAtRemoves(s: seq<Contact>, i: nat)
    requires i < |s| && Distinct(s)
    ensures s[i] !in RemoveAt(s, i)
    ensures multiset(RemoveAt(s, i)) + multiset{s[i]} == multiset(s)
  {
    var r := RemoveAt(s, i);
    forall k | 0 <= k < |r| ensures r[k] != s[i] {
      var k' := if k < i then k else k + 1;
      assert r[k] == s[k'];
      assert !Clashes(s[if k' < i then k' else i], s[if k' < i then i else k']);
    }
    assert s == s[..i] + [s[i]] + s[i + 1..];
  }

  /** Add, delete and update keep every record valid. */
  lemma {:induction false} EditsKeepValid(s: seq<Contact>, c: Contact, i: nat)
    requires AllValid(s) && ValidContact(c) && i < |s|
    ensures AllValid(s + [c])
    ensures AllValid(RemoveAt(s, i))
    ensures AllValid(s[i := c])
  {
    var r := RemoveAt(s, i);
    forall k | 0 <= k < |r| ensures ValidContact(r[k]) {
      assert r[k] == s[if k < i then k else k + 1];
    }
  }

  /**
   * Update does not keep a store without duplicates: overwriting the first of
   * two distinct valid records with a valid record that reuses the second
   * one's name leaves two records with the same name.
   */
  lemma UpdateMayBreakDistinct()
    ensures var s, c := [ANN, BOB],
                        SECOND_BOB;
      Distinct(s) && AllValid(s) && ValidContact(c) && !Distinct(s[0 := c])
  {
    var ann, bob := ANN, BOB;
    var c := SECOND_BOB;
    AnnIsValid();
    BobIsValid();
    SecondBobIsValid();
    var s := [ann, bob];
    assert !Clashes(s[0], s[1]);
    var u := s[0 := c];
    assert u[0] == c && u[1] == bob && Clashes(c, bob);
  }

  // The three records of the example above pass every validator. Each is a
  // lemma of its own: checked together, the unfolding of the scans is too costly.
  lemma AnnIsValid()
    ensures ValidContact(ANN)
  {
  }

  lemma BobIsValid()
    ensures ValidContact(BOB)
  {
  }

  lemma SecondBobIsValid()
    ensures ValidContact(SECOND_BOB)
  {
  }

  /**
   * Save then load gives back the live records: a file written from at most
   * MAX_CONTACTS records loads as exactly those records, whatever the store
   * held before.
   */
  lemma LoadAfterSave(s: seq<Contact>, current: seq<Contact>)
    requires |s| <= MAX_CONTACTS
    ensures Loaded(Present(s), current) == s
  {
  }

  /** The number a listing shows for a record is the index delete and update accept for that record. */
  lemma {:induction false} ListedNumberSelects(s: seq<Contact>, e: Listed)
    requires e in Numbered(s)
    ensures 1 <= e.number <= |s|
    ensures s[e.number - 1] == e.contact
  {
    var k :| 0 <= k < |s| && Numbered(s)[k] == e;
  }
}
