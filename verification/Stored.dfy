/** The bytes of an entry read through its directory record, and readers that give no others. */
module Stored {
  import opened Wrappers
  import opened Text
  import opened LittleEndian
  import opened Zip

  // ---- the records of an archive ----

  /** Where the records of the directory start. */
  function Starts(zip: Bytes, at: nat, count: nat): (r: seq<nat>)
    ensures |r| == count
    decreases count
  {
    if count == 0 then [] else [at] + Starts(zip, NextAt(zip, at), count - 1)
  }

  /** The records of the archive's own directory, which holds `names`. */
  ghost predicate AreRecords(zip: Bytes, text: Bytes -> string, names: seq<string>, starts: seq<nat>) {
    exists end ::
      && LastEnd(zip, end) && Located(zip, end).Ok?
      && var d := Located(zip, end).value;
         |names| == d.count && starts == Starts(zip, d.offset, d.count) && Walk(zip, d.offset, d.count, text) == Ok(names)
  }

  lemma {:induction false} WalkNames(zip: Bytes, at: nat, count: nat, text: Bytes -> string)
    requires Walk(zip, at, count, text).Ok?
    ensures |Walk(zip, at, count, text).value| == count
    ensures forall k :: 0 <= k < count ==>
              RecordAt(zip, Starts(zip, at, count)[k]) && Walk(zip, at, count, text).value[k] == text(NameAt(zip, Starts(zip, at, count)[k]))
    decreases count
  {
    if count > 0 {
      WalkNames(zip, NextAt(zip, at), count - 1, text);
      hide RecordAt, NameAt, NextAt;
    }
  }

  /** A reader that gives, for each name the directory lists and no other, what it makes of some record of that name. */
  ghost predicate ReadsRecords<T(!new)>(found: map<string, T>, zip: Bytes, names: seq<string>, starts: seq<nat>, make: (Bytes, nat) -> T)
    requires |names| == |starts|
  {
    && (forall name <- found :: exists k :: 0 <= k < |names| && names[k] == name && found[name] == make(zip, starts[k]))
    && (forall name <- names :: name in found)
  }

  /** With distinct names it does not matter which record of a name a reader takes. */
  lemma DistinctReadersAgree<T(!new)>(a: map<string, T>, b: map<string, T>, zip: Bytes, names: seq<string>, starts: seq<nat>,
                                      make: (Bytes, nat) -> T)
    requires |names| == |starts| && Distinct(names)
    requires ReadsRecords(a, zip, names, starts, make) && ReadsRecords(b, zip, names, starts, make)
    ensures a == b
  {
    hide Folded;
    forall name | name in a && name in b
      ensures a[name] == b[name]
    {
      var j :| 0 <= j < |names| && names[j] == name && a[name] == make(zip, starts[j]);
      var k :| 0 <= k < |names| && names[k] == name && b[name] == make(zip, starts[k]);
    }
    assert a.Keys == b.Keys;
  }

  lemma DistinctReaderFinds<T(!new)>(found: map<string, T>, zip: Bytes, names: seq<string>, starts: seq<nat>, make: (Bytes, nat) -> T, k: nat)
    requires |names| == |starts| && Distinct(names) && k < |names| && ReadsRecords(found, zip, names, starts, make)
    ensures names[k] in found && found[names[k]] == make(zip, starts[k])
  {
    hide Folded;
    assert names[k] in names;
    var j :| 0 <= j < |names| && names[j] == names[k] && found[names[k]] == make(zip, starts[j]);
  }

  // ---- the bytes a record leads to ----

  /** What an archive holds of a file: the method, the declared length, and as many bytes as are stored. */
  datatype Body = Body(compression: nat, size: nat, data: Bytes)

  /** The bytes of a stored entry: as many as its record says, behind its local header. */
  function StoredAt(zip: Bytes, at: nat): Option<Body> {
    var compression, size := Or(Le(zip, at + 10, 2), 0), Or(Le(zip, at + 24, 4), 0);
    var stored, local := Or(Le(zip, at + 20, 4), 0), Or(Le(zip, at + 42, 4), 0);
    var start := local + 30 + Or(Le(zip, local + 26, 2), 0) + Or(Le(zip, local + 28, 2), 0);
    if Le(zip, local, 4) == Some(LOCAL) && start + stored <= |zip| then Some(Body(compression, size, zip[start..start + stored])) else None
  }

  function BodyOf(entry: Entry): Body {
    Body(entry.compression, |entry.bytes|, entry.data)
  }

  lemma CommonParts(entry: Entry, crc: Bytes -> nat)
    ensures Common(entry, crc)[4..6] == ToLe(entry.compression, 2)
    ensures Common(entry, crc)[14..18] == ToLe(|entry.data|, 4) && Common(entry, crc)[18..22] == ToLe(|entry.bytes|, 4)
  {
    hide ToLe;
  }

  lemma SizeAndOffset(entry: Entry, offset: nat, crc: Bytes -> nat)
    ensures var r := Record(entry, offset, crc);
            && |r| >= RECORD_LEN && r[10..12] == ToLe(entry.compression, 2) && r[24..28] == ToLe(|entry.bytes|, 4)
            && r[20..24] == ToLe(|entry.data|, 4) && r[42..46] == ToLe(offset, 4)
  {
    CommonParts(entry, crc);
    hide Common, ToLe;
    var opening := Opening(entry, crc);
    assert opening[10..12] == Common(entry, crc)[4..6] && opening[24..28] == Common(entry, crc)[18..22];
    assert opening[20..24] == Common(entry, crc)[14..18];
    assert Closing(offset)[8..12] == ToLe(offset, 4);
    hide Opening, Lengths, Closing, Trailer;
    FourPieces(opening, Lengths(entry), Closing(offset), Trailer(entry));
  }

  lemma FourPieces(a: Bytes, b: Bytes, c: Bytes, d: Bytes)
    requires |a| == 28 && |b| == 6 && |c| == 12
    ensures var r := a + b + c + d;
            r[10..12] == a[10..12] && r[20..24] == a[20..24] && r[24..28] == a[24..28] && r[42..46] == c[8..12]
  {
  }

  lemma LocalParts(entry: Entry, crc: Bytes -> nat)
    ensures var r, n := LocalEntry(entry, crc), |entry.name|;
            && |r| == 30 + n + |entry.data|
            && r[0..4] == ToLe(LOCAL, 4) && r[26..28] == ToLe(n, 2) && r[28..30] == ToLe(0, 2) && r[30 + n..30 + n + |entry.data|] == entry.data
  {
    hide Common, ToLe;
    SixPieces(ToLe(LOCAL, 4), Common(entry, crc), ToLe(|entry.name|, 2), ToLe(0, 2), entry.name, entry.data);
    hide LocalEntry;
    assert LocalEntry(entry, crc) ==
           ToLe(LOCAL, 4) + Common(entry, crc) + ToLe(|entry.name|, 2) + ToLe(0, 2) + entry.name + entry.data by {
      LocalIs(entry, crc);
    }
  }

  lemma LocalIs(entry: Entry, crc: Bytes -> nat)
    ensures LocalEntry(entry, crc) ==
            ToLe(LOCAL, 4) + Common(entry, crc) + ToLe(|entry.name|, 2) + ToLe(0, 2) + entry.name + entry.data
  {
  }

  lemma SixPieces(a: Bytes, b: Bytes, c: Bytes, d: Bytes, e: Bytes, f: Bytes)
    requires |a| == 4 && |b| == 22 && |c| == 2 && |d| == 2
    ensures var r := a + b + c + d + e + f;
            && |r| == 30 + |e| + |f| && r[0..4] == a && r[26..28] == c && r[28..30] == d && r[30 + |e|..30 + |e| + |f|] == f
  {
  }

  lemma RecordLeads(zip: Bytes, at: nat, entry: Entry, offset: nat, crc: Bytes -> nat)
    requires EntryFits(entry) && |entry.data| < 0x1_0000_0000 && offset < 0x1_0000_0000 && Holds(zip, at, Record(entry, offset, crc))
    ensures Le(zip, at + 10, 2) == Some(entry.compression) && Le(zip, at + 24, 4) == Some(|entry.bytes|)
    ensures Le(zip, at + 20, 4) == Some(|entry.data|) && Le(zip, at + 42, 4) == Some(offset)
  {
    hide Record, ToLe, Power, Value, Holds, Le;
    var record := Record(entry, offset, crc);
    SizeAndOffset(entry, offset, crc);
    Powers();
    HoldsIsInside(zip, at, record);
    Embedded(zip, at, record, 10, 12);
    Embedded(zip, at, record, 20, 24);
    Embedded(zip, at, record, 24, 28);
    Embedded(zip, at, record, 42, 46);
    LeOf(zip, at + 10, entry.compression, 2);
    LeOf(zip, at + 20, |entry.data|, 4);
    LeOf(zip, at + 24, |entry.bytes|, 4);
    LeOf(zip, at + 42, offset, 4);
  }

  lemma LocalLeads(zip: Bytes, offset: nat, entry: Entry, crc: Bytes -> nat)
    requires |entry.name| < 0x1_0000 && Holds(zip, offset, LocalEntry(entry, crc))
    ensures Le(zip, offset, 4) == Some(LOCAL) && Le(zip, offset + 26, 2) == Some(|entry.name|) && Le(zip, offset + 28, 2) == Some(0)
    ensures var start := offset + 30 + |entry.name|;
            start + |entry.data| <= |zip| && zip[start..start + |entry.data|] == entry.data
  {
    hide LocalEntry, ToLe, Power, Value, Holds, Le;
    var local, n := LocalEntry(entry, crc), |entry.name|;
    LocalParts(entry, crc);
    Powers();
    HoldsIsInside(zip, offset, local);
    Embedded(zip, offset, local, 0, 4);
    Embedded(zip, offset, local, 26, 28);
    Embedded(zip, offset, local, 28, 30);
    Embedded(zip, offset, local, 30 + n, 30 + n + |entry.data|);
    LeOf(zip, offset, LOCAL, 4);
    LeOf(zip, offset + 26, n, 2);
    LeOf(zip, offset + 28, 0, 2);
  }

  /** A record and its local entry, each held where it says, lead to the entry's bytes. */
  lemma StoredIsRead(zip: Bytes, at: nat, entry: Entry, offset: nat, crc: Bytes -> nat)
    requires EntryFits(entry) && |entry.data| < 0x1_0000_0000 && offset < 0x1_0000_0000
    requires Holds(zip, at, Record(entry, offset, crc)) && Holds(zip, offset, LocalEntry(entry, crc))
    ensures StoredAt(zip, at) == Some(BodyOf(entry))
  {
    hide Record, LocalEntry, Holds, Le;
    RecordLeads(zip, at, entry, offset, crc);
    LocalLeads(zip, offset, entry, crc);
  }

  lemma StartsNext(zip: Bytes, at: nat, count: nat)
    requires count > 0
    ensures Starts(zip, at, count) == [at] + Starts(zip, NextAt(zip, at), count - 1)
  {
    hide NextAt;
  }

  lemma LocalsNext(entries: seq<Entry>, offset: nat, crc: Bytes -> nat)
    requires entries != [] && EntriesFit(entries)
    ensures var record, local := Record(entries[0], offset, crc), LocalEntry(entries[0], crc);
            && Records(entries, offset, crc) == record + Records(entries[1..], offset + |local|, crc)
            && Locals(entries, crc) == local + Locals(entries[1..], crc)
            && |entries[0].data| <= |local| && EntryFits(entries[0]) && EntriesFit(entries[1..])
  {
    LocalParts(entries[0], crc);
    hide Record, LocalEntry;
  }

  lemma {:induction false} AllStoredAreRead(zip: Bytes, at: nat, entries: seq<Entry>, offset: nat, crc: Bytes -> nat)
    requires EntriesFit(entries) && offset + |Locals(entries, crc)| < 0x1_0000_0000
    requires Holds(zip, at, Records(entries, offset, crc)) && Holds(zip, offset, Locals(entries, crc))
    ensures forall k :: 0 <= k < |entries| ==> StoredAt(zip, Starts(zip, at, |entries|)[k]) == Some(BodyOf(entries[k]))
    decreases entries
  {
    hide *;
    if entries != [] {
      var record, local := Record(entries[0], offset, crc), LocalEntry(entries[0], crc);
      LocalsNext(entries, offset, crc);
      HoldsBoth(zip, at, record, Records(entries[1..], offset + |local|, crc));
      HoldsBoth(zip, offset, local, Locals(entries[1..], crc));
      RecordIsRead(zip, at, entries[0], offset, crc);
      StoredIsRead(zip, at, entries[0], offset, crc);
      AllStoredAreRead(zip, at + |record|, entries[1..], offset + |local|, crc);
      StartsNext(zip, at, |entries|);
    }
  }

  /** Every entry of a written archive is read back through its record: its name, its method, its length and its bytes. */
  lemma ArchiveIsStored(entries: seq<Entry>, crc: Bytes -> nat, text: Bytes -> string) returns (starts: seq<nat>)
    requires Fits(entries, crc)
    ensures AreRecords(Archive(entries, crc, []), text, Texts(entries, text), starts) && |starts| == |entries|
    ensures forall k :: 0 <= k < |entries| ==> StoredAt(Archive(entries, crc, []), starts[k]) == Some(BodyOf(entries[k]))
  {
    hide *;
    var locals, records := Locals(entries, crc), Records(entries, 0, crc);
    var zip, body := Archive(entries, crc, []), locals + records;
    NoCommentIsPlain(zip);
    ArchiveIs(entries, crc, []);
    FitsMeans(entries, crc);
    EndSmallIsRead(body, |entries|, |records|, |locals|, [], zip);
    var end := EndRecord(|entries|, |records|, |locals|, []);
    HoldsMiddle(locals, records, end);
    HoldsFirst(locals, records + end);
    Rejoined(locals, records, end);
    WalkReadsRecords(zip, |locals|, entries, 0, crc, text);
    AllStoredAreRead(zip, |locals|, entries, 0, crc);
    starts := Starts(zip, |locals|, |entries|);
    TextsAreAsMany(entries, text);
    RecordsAre(zip, |body|, |locals|, text, Texts(entries, text), starts);
  }

  lemma HoldsFirst(a: Bytes, b: Bytes)
    ensures Holds(a + b, 0, a)
  {
  }

  lemma {:induction false} TextsAreAsMany(entries: seq<Entry>, text: Bytes -> string)
    ensures |Texts(entries, text)| == |entries|
    ensures forall k :: 0 <= k < |entries| ==> Texts(entries, text)[k] == text(entries[k].name)
  {
    if entries != [] {
      TextsAreAsMany(entries[1..], text);
    }
  }

  lemma RecordsAre(zip: Bytes, end: nat, offset: nat, text: Bytes -> string, names: seq<string>, starts: seq<nat>)
    requires LastEnd(zip, end) && Located(zip, end) == Ok(Directory(|names|, offset))
    requires Walk(zip, offset, |names|, text) == Ok(names) && starts == Starts(zip, offset, |names|)
    ensures AreRecords(zip, text, names, starts)
  {
    hide LastEnd, Located, Walk, Starts;
  }

  /** An archive whose names are listed has one list of records. */
  lemma RecordsAreFixed(zip: Bytes, text: Bytes -> string, names: seq<string>, a: seq<nat>, b: seq<nat>)
    requires AreRecords(zip, text, names, a) && AreRecords(zip, text, names, b)
    ensures a == b
  {
    hide EndsAt, Located, Walk, Starts;
  }

  lemma NamesHaveRecords(zip: Bytes, text: Bytes -> string) returns (starts: seq<nat>)
    requires Names(zip, text).Ok?
    ensures AreRecords(zip, text, Names(zip, text).value, starts) && |starts| == |Names(zip, text).value|
  {
    hide EndsAt, Located, Walk, Starts;
    var end :| LastEnd(zip, end);
    var d := Located(zip, end).value;
    WalkNames(zip, d.offset, d.count, text);
    starts := Starts(zip, d.offset, d.count);
  }
}
