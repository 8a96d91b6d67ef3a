/** The ZIP central directory, walked record by record, and the archive it inverts. */
module Zip {
  import opened Wrappers
  import opened Text
  import opened Catalog
  import opened LittleEndian

  const END := 0x0605_4b50
  const LOCATOR := 0x0706_4b50
  const END64 := 0x0606_4b50
  const HEADER := 0x0201_4b50
  const LOCAL := 0x0403_4b50
  const U64_MAX := 0xFFFF_FFFF_FFFF_FFFF
  const RECORD_LEN := 46

  // ---- where the directory is ----

  /** Whether an end record stands at `at`, its comment reaching exactly to the end of the file. */
  predicate EndsAt(zip: Bytes, at: nat) {
    Le(zip, at, 4) == Some(END) && Le(zip, at + 20, 2).Some? && at + 22 + Le(zip, at + 20, 2).value == |zip|
  }

  /** `at` is where the last end record stands. */
  ghost predicate LastEnd(zip: Bytes, at: nat) {
    EndsAt(zip, at) && forall later: nat :: later > at ==> !EndsAt(zip, later)
  }

  /** An end record can only start where its comment, at most 65535 bytes, leaves room. */
  lemma EndIsNearTheEnd(zip: Bytes, at: nat)
    requires EndsAt(zip, at)
    ensures at + 22 <= |zip| <= at + 22 + 0xffff
  {
    var two := zip[at + 20..at + 22];
    assert Value(two) == two[0] + 256 * Value(two[1..]);
    assert Value(two[1..]) == two[1] + 256 * Value(two[1..][1..]);
  }

  method FindEnd(zip: Bytes) returns (end: Option<nat>)
    ensures end.Some? ==> LastEnd(zip, end.value)
    ensures end.None? ==> forall at: nat :: !EndsAt(zip, at)
  {
    var top := if |zip| >= 22 then |zip| - 22 else 0;
    var floor := if |zip| >= 22 + 0xffff then |zip| - 22 - 0xffff else 0;
    forall at: nat | EndsAt(zip, at)
      ensures floor <= at <= top
    {
      EndIsNearTheEnd(zip, at);
    }
    hide EndsAt;
    var at := top + 1;
    while at > floor
      invariant floor <= at <= top + 1
      invariant forall later: nat :: at <= later ==> !EndsAt(zip, later)
    {
      at := at - 1;
      if EndsAt(zip, at) {
        return Some(at);
      }
    }
    return None;
  }

  datatype Directory = Directory(count: nat, offset: nat)

  /** What the end record at `end` says of the directory, through the ZIP64 record where it says nothing itself. */
  function Located(zip: Bytes, end: nat): Result<Directory, Reason> {
    var count, offset := Or(Le(zip, end + 10, 2), 0), Or(Le(zip, end + 16, 4), 0);
    if count != 0xffff && offset != 0xffff_ffff then Ok(Directory(count, offset))
    else if end < 20 || Le(zip, end - 20, 4) != Some(LOCATOR) then Err(CatalogIntegrityFailure)
    else
      var record := Or(Le(zip, end - 12, 8), U64_MAX);
      if Le(zip, record, 4) != Some(END64) then Err(CatalogIntegrityFailure)
      else Ok(Directory(Or(Le(zip, record + 32, 8), U64_MAX), Or(Le(zip, record + 48, 8), U64_MAX)))
  }

  // ---- the records ----

  function Field(zip: Bytes, at: nat, rel: nat): nat {
    Or(Le(zip, at + rel, 2), 0)
  }

  predicate RecordAt(zip: Bytes, at: nat) {
    Le(zip, at, 4) == Some(HEADER) && at + RECORD_LEN + Field(zip, at, 28) <= |zip|
  }

  function NameAt(zip: Bytes, at: nat): Bytes
    requires RecordAt(zip, at)
  {
    zip[at + RECORD_LEN..at + RECORD_LEN + Field(zip, at, 28)]
  }

  /** Where the record after this one starts: past its name, its extra field and its comment. */
  function NextAt(zip: Bytes, at: nat): (r: nat)
    ensures r >= at + RECORD_LEN
  {
    at + RECORD_LEN + Field(zip, at, 28) + Field(zip, at, 30) + Field(zip, at, 32)
  }

  lemma RecordIsInside(zip: Bytes, at: nat)
    requires RecordAt(zip, at)
    ensures at + RECORD_LEN <= |zip| && NextAt(zip, at) >= at + RECORD_LEN
  {
  }

  function Walk(zip: Bytes, at: nat, count: nat, text: Bytes -> string): Result<seq<string>, Reason>
    decreases count
  {
    if count == 0 then Ok([])
    else if !RecordAt(zip, at) then Err(CatalogIntegrityFailure)
    else After([text(NameAt(zip, at))], Walk(zip, NextAt(zip, at), count - 1, text))
  }

  /** The names the archive lists, or why it lists none. */
  ghost function Names(zip: Bytes, text: Bytes -> string): Result<seq<string>, Reason> {
    if exists end :: LastEnd(zip, end) then
      var end :| LastEnd(zip, end);
      var directory := Located(zip, end);
      if directory.Err? then Err(directory.error) else Walk(zip, directory.value.offset, directory.value.count, text)
    else Err(CatalogIntegrityFailure)
  }

  /**
   Every entry name, in order. `text` decodes a name. However large a count the file declares, a record is read
   only where the file still has its 46 bytes, so no more than one in 46 bytes is.
   */
  method CentralDirectoryNames(zip: Bytes, text: Bytes -> string) returns (r: Result<seq<string>, Reason>, records: nat)
    ensures r == Names(zip, text)
    ensures r.Ok? ==> records == |r.value|
    ensures RECORD_LEN * records <= |zip|
  {
    records := 0;
    var end := FindEnd(zip);
    if end.None? {
      return Err(CatalogIntegrityFailure), 0;
    }
    var directory := Located(zip, end.value);
    if directory.Err? {
      return Err(directory.error), 0;
    }
    r, records := ReadRecords(zip, directory.value.offset, directory.value.count, text);
  }

  /** What the walk returns once it has the names before the rest. */
  function After(names: seq<string>, rest: Result<seq<string>, Reason>): Result<seq<string>, Reason> {
    if rest.Err? then rest else Ok(names + rest.value)
  }

  lemma AfterAfter(names: seq<string>, name: string, rest: Result<seq<string>, Reason>)
    ensures After(names, After([name], rest)) == After(names + [name], rest)
    ensures After([], rest) == rest
  {
    if rest.Ok? {
      assert [] + rest.value == rest.value;
      assert names + ([name] + rest.value) == names + [name] + rest.value;
    }
  }

  method ReadRecords(zip: Bytes, offset: nat, count: nat, text: Bytes -> string) returns (r: Result<seq<string>, Reason>, records: nat)
    ensures r == Walk(zip, offset, count, text)
    ensures r.Ok? ==> records == |r.value|
    ensures RECORD_LEN * records <= |zip|
  {
    var at, names := offset, [];
    records := 0;
    AfterAfter([], "", Walk(zip, at, count, text));
    hide After, RecordAt, NextAt, NameAt;
    while records < count
      invariant records <= count && |names| == records
      invariant RECORD_LEN * records <= |zip| && RECORD_LEN * records <= at
      invariant Walk(zip, offset, count, text) == After(names, Walk(zip, at, count - records, text))
    {
      if !RecordAt(zip, at) {
        AfterFailure(names);
        return Err(CatalogIntegrityFailure), records;
      }
      RecordIsInside(zip, at);
      AfterAfter(names, text(NameAt(zip, at)), Walk(zip, NextAt(zip, at), count - records - 1, text));
      names := names + [text(NameAt(zip, at))];
      at := NextAt(zip, at);
      records := records + 1;
    }
    AfterNothing(names);
    return Ok(names), records;
  }

  lemma AfterFailure(names: seq<string>)
    ensures After(names, Err(CatalogIntegrityFailure)) == Err(CatalogIntegrityFailure)
  {
  }

  lemma AfterNothing(names: seq<string>)
    ensures After(names, Ok([])) == Ok(names)
  {
    assert names + [] == names;
  }

  // ---- what a list of names was read from ----

  /** The closing record: its signature, and a comment that reaches to the end of the file; no later place is one. */
  ghost predicate IsEnd(zip: Bytes, end: nat) {
    && Le(zip, end, 4) == Some(0x0605_4b50) && Le(zip, end + 20, 2).Some? && end + 22 + Le(zip, end + 20, 2).value == |zip|
    && forall later: nat :: later > end && Le(zip, later, 4) == Some(0x0605_4b50) && Le(zip, later + 20, 2).Some? ==>
         later + 22 + Le(zip, later + 20, 2).value != |zip|
  }

  /** The directory the closing record names, or, where its fields are all ones, the ZIP64 record behind the locator. */
  ghost predicate IsDirectory(zip: Bytes, end: nat, count: nat, offset: nat) {
    var short, low := Le(zip, end + 10, 2), Le(zip, end + 16, 4);
    if short != Some(0xffff) && low != Some(0xffff_ffff) then short == Some(count) && low == Some(offset)
    else
      && end >= 20 && Le(zip, end - 20, 4) == Some(0x0706_4b50) && Le(zip, end - 12, 8).Some?
      && var record := Le(zip, end - 12, 8).value;
         Le(zip, record, 4) == Some(0x0606_4b50)
         && count == Or(Le(zip, record + 32, 8), U64_MAX) && offset == Or(Le(zip, record + 48, 8), U64_MAX)
  }

  /** A directory record: its signature, its name inside the file, and where the next one starts. */
  ghost predicate IsRecord(zip: Bytes, at: nat, name: Bytes, next: nat) {
    && Le(zip, at, 4) == Some(0x0201_4b50)
    && Le(zip, at + 28, 2).Some? && Le(zip, at + 30, 2).Some? && Le(zip, at + 32, 2).Some?
    && at + 46 + Le(zip, at + 28, 2).value <= |zip| && name == zip[at + 46..at + 46 + Le(zip, at + 28, 2).value]
    && next == at + 46 + Le(zip, at + 28, 2).value + Le(zip, at + 30, 2).value + Le(zip, at + 32, 2).value
  }

  /** Records one behind the other from an offset on, with those names. */
  ghost predicate AreNamed(zip: Bytes, at: nat, names: seq<string>, text: Bytes -> string)
    decreases names
  {
    names == [] || exists name, next :: IsRecord(zip, at, name, next) && names[0] == text(name) && AreNamed(zip, next, names[1..], text)
  }

  lemma RecordMeans(zip: Bytes, at: nat)
    ensures RecordAt(zip, at) ==> IsRecord(zip, at, NameAt(zip, at), NextAt(zip, at))
    ensures !RecordAt(zip, at) ==> forall name, next :: !IsRecord(zip, at, name, next)
  {
  }

  lemma {:induction false} WalkMeans(zip: Bytes, at: nat, count: nat, text: Bytes -> string, names: seq<string>)
    ensures Walk(zip, at, count, text) == Ok(names) <==> |names| == count && AreNamed(zip, at, names, text)
    ensures Walk(zip, at, count, text).Err? ==> Walk(zip, at, count, text).error == CatalogIntegrityFailure
    decreases count
  {
    hide RecordAt, IsRecord, NameAt, NextAt;
    RecordMeans(zip, at);
    if count > 0 && RecordAt(zip, at) {
      var next := NextAt(zip, at);
      if names != [] {
        WalkMeans(zip, next, count - 1, text, names[1..]);
        assert names == [names[0]] + names[1..];
        forall name, other | IsRecord(zip, at, name, other)
          ensures name == NameAt(zip, at) && other == next
        {
          RecordIsOne(zip, at, name, other);
        }
      }
      WalkMeans(zip, next, count - 1, text, []);
    }
  }

  lemma RecordIsOne(zip: Bytes, at: nat, name: Bytes, next: nat)
    requires RecordAt(zip, at) && IsRecord(zip, at, name, next)
    ensures name == NameAt(zip, at) && next == NextAt(zip, at)
  {
  }

  lemma EndMeans(zip: Bytes, end: nat)
    ensures LastEnd(zip, end) <==> IsEnd(zip, end)
  {
    forall at: nat
      ensures EndsAt(zip, at) <==> Le(zip, at, 4) == Some(0x0605_4b50) && Le(zip, at + 20, 2).Some?
                                   && at + 22 + Le(zip, at + 20, 2).value == |zip|
    {
    }
    hide EndsAt, Le;
  }

  lemma DirectoryMeans(zip: Bytes, end: nat, count: nat, offset: nat)
    requires IsEnd(zip, end)
    ensures Located(zip, end) == Ok(Directory(count, offset)) <==> IsDirectory(zip, end, count, offset)
    ensures Located(zip, end).Err? ==> Located(zip, end).error == CatalogIntegrityFailure
  {
    assert Le(zip, end + 10, 2).Some? && Le(zip, end + 16, 4).Some?;
    hide IsEnd;
  }

  /** Which directory, of how many names, a file leads to. */
  ghost predicate LeadsTo(zip: Bytes, count: nat, offset: nat) {
    exists end :: IsEnd(zip, end) && IsDirectory(zip, end, count, offset)
  }

  /**
   The names are those of the records, one behind the other, of the directory that the last closing record leads to; any
   file that leads to no such records is refused.
   */
  lemma NamesMean(zip: Bytes, text: Bytes -> string, names: seq<string>)
    ensures Names(zip, text) == Ok(names) <==> exists offset :: LeadsTo(zip, |names|, offset) && AreNamed(zip, offset, names, text)
    ensures Names(zip, text).Err? ==> Names(zip, text).error == CatalogIntegrityFailure
  {
    hide LastEnd, IsEnd, Located, IsDirectory, Walk, AreNamed;
    forall end
      ensures LastEnd(zip, end) <==> IsEnd(zip, end)
    {
      EndMeans(zip, end);
    }
    if end :| LastEnd(zip, end) {
      forall other | LastEnd(zip, other)
        ensures other == end
      {
        LastEndIsOne(zip, end, other);
      }
      forall count: nat, offset: nat
        ensures Located(zip, end) == Ok(Directory(count, offset)) <==> IsDirectory(zip, end, count, offset)
      {
        DirectoryMeans(zip, end, count, offset);
      }
      DirectoryMeans(zip, end, 0, 0);
      if Located(zip, end).Ok? {
        var d := Located(zip, end).value;
        WalkMeans(zip, d.offset, d.count, text, names);
        assert d == Directory(d.count, d.offset);
        assert LeadsTo(zip, d.count, d.offset);
      }
    }
  }

  lemma LastEndIsOne(zip: Bytes, a: nat, b: nat)
    requires LastEnd(zip, a) && LastEnd(zip, b)
    ensures a == b
  {
    hide EndsAt;
  }

  // ---- the archive that is written ----

  /**
   A file and what its compression method makes of its bytes; method 0 stores them as they are. Its directory record may
   carry an extra field and a comment.
   */
  datatype Entry = Entry(name: Bytes, bytes: Bytes, compression: nat, data: Bytes, extra: Bytes, comment: Bytes)

  /** The fields a local header and a directory record share, from the version needed to the uncompressed size. */
  function Common(entry: Entry, crc: Bytes -> nat): (r: Bytes)
    ensures |r| == 22
  {
    ToLe(20, 2) + ToLe(0, 2) + ToLe(entry.compression, 2) + ToLe(0, 4) + ToLe(crc(entry.bytes), 4) + ToLe(|entry.data|, 4) + ToLe(|entry.bytes|, 4)
  }

  function LocalEntry(entry: Entry, crc: Bytes -> nat): Bytes {
    ToLe(LOCAL, 4) + Common(entry, crc) + ToLe(|entry.name|, 2) + ToLe(0, 2) + entry.name + entry.data
  }

  /** The part of a directory record before the lengths. */
  function Opening(entry: Entry, crc: Bytes -> nat): (r: Bytes)
    ensures |r| == 28 && r[0..4] == ToLe(HEADER, 4)
  {
    ToLe(HEADER, 4) + ToLe(20, 2) + Common(entry, crc)
  }

  function Lengths(entry: Entry): (r: Bytes)
    ensures |r| == 6
    ensures r[0..2] == ToLe(|entry.name|, 2) && r[2..4] == ToLe(|entry.extra|, 2) && r[4..6] == ToLe(|entry.comment|, 2)
  {
    ToLe(|entry.name|, 2) + ToLe(|entry.extra|, 2) + ToLe(|entry.comment|, 2)
  }

  /** The part after the lengths: disk, attributes and where the local entry is. */
  function Closing(offset: nat): (r: Bytes)
    ensures |r| == 12
  {
    ToLe(0, 2) + ToLe(0, 2) + ToLe(0, 4) + ToLe(offset, 4)
  }

  function Trailer(entry: Entry): Bytes {
    entry.name + (entry.extra + entry.comment)
  }

  function Record(entry: Entry, offset: nat, crc: Bytes -> nat): Bytes {
    Opening(entry, crc) + Lengths(entry) + Closing(offset) + Trailer(entry)
  }

  function Locals(entries: seq<Entry>, crc: Bytes -> nat): Bytes {
    if entries == [] then [] else LocalEntry(entries[0], crc) + Locals(entries[1..], crc)
  }

  /** The directory of entries whose local entries start at `offset`. */
  function Records(entries: seq<Entry>, offset: nat, crc: Bytes -> nat): Bytes {
    if entries == [] then []
    else Record(entries[0], offset, crc) + Records(entries[1..], offset + |LocalEntry(entries[0], crc)|, crc)
  }

  /** The part of the end record before the length of its comment. */
  function EndHead(count: nat, length: nat, offset: nat): (r: Bytes)
    ensures |r| == 20
    ensures r[0..4] == ToLe(END, 4) && r[10..12] == ToLe(count, 2) && r[16..20] == ToLe(offset, 4)
  {
    ToLe(END, 4) + ToLe(0, 4) + ToLe(count, 2) + ToLe(count, 2) + ToLe(length, 4) + ToLe(offset, 4)
  }

  function EndRecord(count: nat, length: nat, offset: nat, comment: Bytes): Bytes {
    EndHead(count, length, offset) + (ToLe(|comment|, 2) + comment)
  }

  function Archive(entries: seq<Entry>, crc: Bytes -> nat, comment: Bytes): Bytes {
    var locals, records := Locals(entries, crc), Records(entries, 0, crc);
    locals + records + EndRecord(|entries|, |records|, |locals|, comment)
  }

  /** The part of the ZIP64 end record before its numbers. */
  function End64Head(): (r: Bytes)
    ensures |r| == 32 && r[0..4] == ToLe(END64, 4)
  {
    ToLe(END64, 4) + ToLe(44, 8) + ToLe(45, 2) + ToLe(45, 2) + ToLe(0, 4) + ToLe(0, 4) + ToLe(0, 8)
  }

  /** The ZIP64 end record, which has room for any count and offset. */
  function End64(count: nat, length: nat, offset: nat): (r: Bytes)
    ensures |r| == 56
  {
    End64Head() + ToLe(count, 8) + (ToLe(length, 8) + ToLe(offset, 8))
  }

  /** Where the ZIP64 end record is. */
  function Locator(record: nat): (r: Bytes)
    ensures |r| == 20
    ensures r[0..4] == ToLe(LOCATOR, 4) && r[8..16] == ToLe(record, 8)
  {
    ToLe(LOCATOR, 4) + ToLe(0, 4) + ToLe(record, 8) + ToLe(1, 4)
  }

  function Archive64(entries: seq<Entry>, crc: Bytes -> nat, comment: Bytes): Bytes {
    var locals, records := Locals(entries, crc), Records(entries, 0, crc);
    var body := locals + records;
    body + (End64(|entries|, |records|, |locals|) + Locator(|body|)) + EndRecord(0xffff, 0xffff_ffff, 0xffff_ffff, comment)
  }

  predicate EntryFits(entry: Entry) {
    && |entry.name| < 0x1_0000 && |entry.extra| < 0x1_0000 && |entry.comment| < 0x1_0000
    && entry.compression < 0x1_0000 && |entry.bytes| < 0xffff_ffff
  }

  predicate EntriesFit(entries: seq<Entry>) {
    forall entry <- entries :: EntryFits(entry)
  }

  /** What an archive can hold without ZIP64. */
  predicate Fits(entries: seq<Entry>, crc: Bytes -> nat) {
    EntriesFit(entries) && |entries| < 0xffff && |Locals(entries, crc)| < 0xffff_ffff
  }

  /** The archive's comment, `length` bytes long, holds no end record that a reader would take for the archive's. */
  ghost predicate CommentIsPlain(zip: Bytes, length: nat) {
    forall later: nat :: later + 22 + length > |zip| ==> !EndsAt(zip, later)
  }

  function Texts(entries: seq<Entry>, text: Bytes -> string): seq<string> {
    if entries == [] then [] else [text(entries[0].name)] + Texts(entries[1..], text)
  }

  // ---- reading it back ----

  /** The parts of a record, each where the walk looks for it. */
  lemma RecordParts(entry: Entry, offset: nat, crc: Bytes -> nat)
    ensures var r, n := Record(entry, offset, crc), |entry.name|;
            && |r| == RECORD_LEN + n + |entry.extra| + |entry.comment|
            && r[0..4] == ToLe(HEADER, 4)
            && r[28..30] == ToLe(n, 2) && r[30..32] == ToLe(|entry.extra|, 2) && r[32..34] == ToLe(|entry.comment|, 2)
            && r[RECORD_LEN..RECORD_LEN + n] == entry.name
  {
    var opening, lengths, closing := Opening(entry, crc), Lengths(entry), Closing(offset);
    hide Opening, Lengths, Closing, ToLe;
    Parts(opening, lengths, closing, entry.name, entry.extra + entry.comment);
    hide Record;
  }

  lemma Parts(a: Bytes, b: Bytes, c: Bytes, d: Bytes, e: Bytes)
    requires |a| == 28 && |b| == 6 && |c| == 12
    ensures var r := a + b + c + (d + e);
            && |r| == RECORD_LEN + |d| + |e|
            && r[0..4] == a[0..4] && r[28..30] == b[0..2] && r[30..32] == b[2..4] && r[32..34] == b[4..6]
            && r[RECORD_LEN..RECORD_LEN + |d|] == d
  {
  }

  lemma RecordIsRead(zip: Bytes, at: nat, entry: Entry, offset: nat, crc: Bytes -> nat)
    requires EntryFits(entry) && Holds(zip, at, Record(entry, offset, crc))
    ensures RecordAt(zip, at) && NameAt(zip, at) == entry.name && NextAt(zip, at) == at + |Record(entry, offset, crc)|
  {
    var r := Record(entry, offset, crc);
    RecordParts(entry, offset, crc);
    Powers();
    hide Record, ToLe, Power, Value, Holds;
    var n := |entry.name|;
    Embedded(zip, at, r, 0, 4);
    Embedded(zip, at, r, 28, 30);
    Embedded(zip, at, r, 30, 32);
    Embedded(zip, at, r, 32, 34);
    Embedded(zip, at, r, RECORD_LEN, RECORD_LEN + n);
    assert at + |r| <= |zip| by {
      HoldsIsInside(zip, at, r);
    }
    LeOf(zip, at, HEADER, 4);
    LeOf(zip, at + 28, n, 2);
    LeOf(zip, at + 30, |entry.extra|, 2);
    LeOf(zip, at + 32, |entry.comment|, 2);
  }

  lemma WalkStep(zip: Bytes, at: nat, count: nat, text: Bytes -> string)
    requires RecordAt(zip, at) && count > 0 && Walk(zip, NextAt(zip, at), count - 1, text).Ok?
    ensures Walk(zip, at, count, text) == Ok([text(NameAt(zip, at))] + Walk(zip, NextAt(zip, at), count - 1, text).value)
  {
  }

  lemma {:induction false} WalkReadsRecords(zip: Bytes, at: nat, entries: seq<Entry>, offset: nat, crc: Bytes -> nat,
                                            text: Bytes -> string)
    requires EntriesFit(entries)
    requires Holds(zip, at, Records(entries, offset, crc))
    ensures Walk(zip, at, |entries|, text) == Ok(Texts(entries, text))
    decreases entries
  {
    if entries != [] {
      var record := Record(entries[0], offset, crc);
      var next := offset + |LocalEntry(entries[0], crc)|;
      hide Record, RecordAt, NameAt, NextAt, EntryFits, LocalEntry, Walk, Holds;
      HoldsBoth(zip, at, record, Records(entries[1..], next, crc));
      RecordIsRead(zip, at, entries[0], offset, crc);
      WalkReadsRecords(zip, at + |record|, entries[1..], next, crc, text);
      WalkStep(zip, at, |entries|, text);
    }
  }

  lemma EndIsRead(before: Bytes, count: nat, length: nat, offset: nat, comment: Bytes)
    requires count < 0x1_0000 && offset < 0x1_0000_0000 && |comment| < 0x1_0000
    ensures var zip, at := before + EndRecord(count, length, offset, comment), |before|;
            && |zip| == at + 22 + |comment|
            && EndsAt(zip, at) && Le(zip, at + 10, 2) == Some(count) && Le(zip, at + 16, 4) == Some(offset)
  {
    var head, at := EndHead(count, length, offset), |before|;
    var zip := before + EndRecord(count, length, offset, comment);
    Powers();
    HoldsLast(before, EndRecord(count, length, offset, comment));
    HoldsBoth(zip, at, head, ToLe(|comment|, 2) + comment);
    HoldsBoth(zip, at + 20, ToLe(|comment|, 2), comment);
    hide EndHead, ToLe, Power, Value, Holds;
    Embedded(zip, at, head, 0, 4);
    Embedded(zip, at, head, 10, 12);
    Embedded(zip, at, head, 16, 20);
    Embedded(zip, at + 20, ToLe(|comment|, 2), 0, 2);
    assert ToLe(|comment|, 2)[0..2] == ToLe(|comment|, 2);
    LeOf(zip, at, END, 4);
    LeOf(zip, at + 10, count, 2);
    LeOf(zip, at + 16, offset, 4);
    LeOf(zip, at + 20, |comment|, 2);
  }

  /** An archive without a comment has none that could mislead. */
  lemma NoCommentIsPlain(zip: Bytes)
    ensures CommentIsPlain(zip, 0)
  {
    forall later: nat | later + 22 > |zip|
      ensures !EndsAt(zip, later)
    {
      assert Le(zip, later + 20, 2) == None;
    }
  }

  lemma NamesAre(zip: Bytes, at: nat, offset: nat, count: nat, text: Bytes -> string, names: seq<string>)
    requires LastEnd(zip, at) && Located(zip, at) == Ok(Directory(count, offset)) && Walk(zip, offset, count, text) == Ok(names)
    ensures Names(zip, text) == Ok(names)
  {
    hide EndsAt, Located, Walk;
  }

  lemma LastEndIs(zip: Bytes, at: nat, length: nat)
    requires EndsAt(zip, at) && |zip| == at + 22 + length && CommentIsPlain(zip, length)
    ensures LastEnd(zip, at)
  {
    hide EndsAt;
  }

  lemma SmallDirectory(zip: Bytes, end: nat, count: nat, offset: nat)
    requires Le(zip, end + 10, 2) == Some(count) && Le(zip, end + 16, 4) == Some(offset) && count != 0xffff && offset != 0xffff_ffff
    ensures Located(zip, end) == Ok(Directory(count, offset))
  {
    hide Le;
  }

  lemma EndSmallIsRead(body: Bytes, count: nat, length: nat, offset: nat, comment: Bytes, zip: Bytes)
    requires zip == body + EndRecord(count, length, offset, comment) && CommentIsPlain(zip, |comment|)
    requires count < 0xffff && offset < 0xffff_ffff && |comment| < 0x1_0000
    ensures LastEnd(zip, |body|) && Located(zip, |body|) == Ok(Directory(count, offset))
  {
    hide *;
    EndIsRead(body, count, length, offset, comment);
    LastEndIs(zip, |body|, |comment|);
    SmallDirectory(zip, |body|, count, offset);
  }

  /** The walk inverts the writer: exactly the names written, in their order. */
  lemma ArchiveIsRead(entries: seq<Entry>, crc: Bytes -> nat, comment: Bytes, text: Bytes -> string)
    requires Fits(entries, crc) && |comment| < 0x1_0000 && CommentIsPlain(Archive(entries, crc, comment), |comment|)
    ensures Names(Archive(entries, crc, comment), text) == Ok(Texts(entries, text))
  {
    hide *;
    var locals, records := Locals(entries, crc), Records(entries, 0, crc);
    var zip, body := Archive(entries, crc, comment), locals + records;
    ArchiveIs(entries, crc, comment);
    FitsMeans(entries, crc);
    EndSmallIsRead(body, |entries|, |records|, |locals|, comment, zip);
    HoldsMiddle(locals, records, EndRecord(|entries|, |records|, |locals|, comment));
    WalkReadsRecords(zip, |locals|, entries, 0, crc, text);
    NamesAre(zip, |body|, |locals|, |entries|, text, Texts(entries, text));
  }

  lemma ArchiveIs(entries: seq<Entry>, crc: Bytes -> nat, comment: Bytes)
    ensures var locals, records := Locals(entries, crc), Records(entries, 0, crc);
            var body := locals + records;
            && Archive(entries, crc, comment) == body + EndRecord(|entries|, |records|, |locals|, comment)
            && Archive64(entries, crc, comment) ==
               body + (End64(|entries|, |records|, |locals|) + Locator(|body|)) + EndRecord(0xffff, 0xffff_ffff, 0xffff_ffff, comment)
  {
    hide Locals, Records, EndRecord, End64, Locator;
  }

  lemma FitsMeans(entries: seq<Entry>, crc: Bytes -> nat)
    requires Fits(entries, crc)
    ensures |entries| < 0xffff && |Locals(entries, crc)| < 0xffff_ffff && EntriesFit(entries)
  {
  }

  lemma HoldsMiddle(a: Bytes, b: Bytes, c: Bytes)
    ensures Holds(a + b + c, |a|, b)
  {
  }

  lemma End64Parts(count: nat, length: nat, offset: nat)
    ensures var r := End64(count, length, offset);
            r[0..4] == ToLe(END64, 4) && r[32..40] == ToLe(count, 8) && r[48..56] == ToLe(offset, 8)
  {
    var head, c, l, o := End64Head(), ToLe(count, 8), ToLe(length, 8), ToLe(offset, 8);
    assert End64(count, length, offset) == head + c + (l + o);
    hide End64, End64Head, ToLe;
    FourParts(head, c, l, o);
    assert head[0..4] == ToLe(END64, 4);
  }

  lemma FourParts(a: Bytes, b: Bytes, c: Bytes, d: Bytes)
    requires |a| == 32 && |b| == 8 && |c| == 8 && |d| == 8
    ensures var r := a + b + (c + d); r[0..4] == a[0..4] && r[32..40] == b && r[48..56] == d
  {
  }

  /** The locator before the end record leads to the ZIP64 record, and that to the directory. */
  lemma LargeDirectory(body: Bytes, count: nat, length: nat, offset: nat, end: Bytes)
    requires count < Power(8) && offset < Power(8) && |body| < Power(8)
    ensures var at := |body| + 76;
            var zip := body + (End64(count, length, offset) + Locator(|body|)) + end;
            (Or(Le(zip, at + 10, 2), 0) == 0xffff || Or(Le(zip, at + 16, 4), 0) == 0xffff_ffff)
            ==> Located(zip, at) == Ok(Directory(count, offset))
  {
    hide End64, Locator, ToLe, Power, Value, Holds, Le;
    var record, locator := End64(count, length, offset), Locator(|body|);
    var zip := body + (record + locator) + end;
    HoldsMiddle(body, record + locator, end);
    HoldsBoth(zip, |body|, record, locator);
    RecordIsHeld(zip, |body|, count, length, offset);
    LocatorIsHeld(zip, |body| + 56, |body|);
  }

  lemma RecordIsHeld(zip: Bytes, at: nat, count: nat, length: nat, offset: nat)
    requires Holds(zip, at, End64(count, length, offset)) && count < Power(8) && offset < Power(8)
    ensures Le(zip, at, 4) == Some(END64) && Le(zip, at + 32, 8) == Some(count) && Le(zip, at + 48, 8) == Some(offset)
  {
    hide End64, ToLe, Power, Value, Holds, Le;
    var record := End64(count, length, offset);
    End64Parts(count, length, offset);
    Powers();
    HoldsIsInside(zip, at, record);
    Embedded(zip, at, record, 0, 4);
    Embedded(zip, at, record, 32, 40);
    Embedded(zip, at, record, 48, 56);
    LeOf(zip, at, END64, 4);
    LeOf(zip, at + 32, count, 8);
    LeOf(zip, at + 48, offset, 8);
  }

  lemma LocatorIsHeld(zip: Bytes, at: nat, record: nat)
    requires Holds(zip, at, Locator(record)) && record < Power(8)
    ensures Le(zip, at, 4) == Some(LOCATOR) && Le(zip, at + 8, 8) == Some(record)
  {
    hide Locator, ToLe, Power, Value, Holds, Le;
    Powers();
    HoldsIsInside(zip, at, Locator(record));
    Embedded(zip, at, Locator(record), 0, 4);
    Embedded(zip, at, Locator(record), 8, 16);
    LeOf(zip, at, LOCATOR, 4);
    LeOf(zip, at + 8, record, 8);
  }

  /** What the reader finds at the end of an archive with a ZIP64 record. */
  lemma End64IsRead(body: Bytes, count: nat, length: nat, offset: nat, comment: Bytes, zip: Bytes)
    requires zip == body + (End64(count, length, offset) + Locator(|body|)) + EndRecord(0xffff, 0xffff_ffff, 0xffff_ffff, comment)
    requires count < Power(8) && offset < Power(8) && |body| < Power(8) && |comment| < 0x1_0000 && CommentIsPlain(zip, |comment|)
    ensures LastEnd(zip, |body| + 76) && Located(zip, |body| + 76) == Ok(Directory(count, offset))
  {
    hide *;
    var tail := End64(count, length, offset) + Locator(|body|);
    EndIsRead(body + tail, 0xffff, 0xffff_ffff, 0xffff_ffff, comment);
    assert |body + tail| == |body| + 76;
    LastEndIs(zip, |body| + 76, |comment|);
    LargeDirectory(body, count, length, offset, EndRecord(0xffff, 0xffff_ffff, 0xffff_ffff, comment));
    OrIs(Le(zip, |body| + 76 + 10, 2), 0xffff);
  }

  /** The same through a ZIP64 record, for any number of entries and any offset. */
  lemma Archive64IsRead(entries: seq<Entry>, crc: Bytes -> nat, comment: Bytes, text: Bytes -> string)
    requires EntriesFit(entries) && |entries| < Power(8) && |Archive64(entries, crc, comment)| < Power(8)
    requires |comment| < 0x1_0000 && CommentIsPlain(Archive64(entries, crc, comment), |comment|)
    ensures Names(Archive64(entries, crc, comment), text) == Ok(Texts(entries, text))
  {
    hide *;
    var locals, records := Locals(entries, crc), Records(entries, 0, crc);
    var zip, body := Archive64(entries, crc, comment), locals + records;
    ArchiveIs(entries, crc, comment);
    var tail := End64(|entries|, |records|, |locals|) + Locator(|body|);
    var end := EndRecord(0xffff, 0xffff_ffff, 0xffff_ffff, comment);
    End64IsRead(body, |entries|, |records|, |locals|, comment, zip);
    HoldsMiddle(locals, records, tail + end);
    Rejoined(body, tail, end);
    WalkReadsRecords(zip, |locals|, entries, 0, crc, text);
    NamesAre(zip, |body| + 76, |locals|, |entries|, text, Texts(entries, text));
  }

  lemma Rejoined(a: Bytes, b: Bytes, c: Bytes)
    ensures a + (b + c) == a + b + c
  {
  }

  lemma OrIs(read: Option<nat>, value: nat)
    requires read == Some(value)
    ensures Or(read, 0) == value
  {
  }

  // ---- one name, one entry ----

  /** Part names compare without regard to ASCII case or the kind of separator. */
  function Folded(name: string): string {
    Lower(Replace(name, "\\", "/"))
  }

  ghost predicate Distinct(names: seq<string>) {
    forall i, j :: 0 <= i < j < |names| ==> Folded(names[i]) != Folded(names[j])
  }

  /** The first check on opening a package: no two entries share a name. */
  method RefuseDuplicates(names: seq<string>) returns (refusal: Option<Reason>)
    ensures refusal == if Distinct(names) then None else Some(CatalogIntegrityFailure)
  {
    hide Folded;
    var seen: set<string> := {};
    for i := 0 to |names|
      invariant Distinct(names[..i])
      invariant seen == set k | 0 <= k < i :: Folded(names[k])
    {
      if Folded(names[i]) in seen {
        return Some(CatalogIntegrityFailure);
      }
      seen := seen + {Folded(names[i])};
    }
    assert names[..|names|] == names;
    return None;
  }
}
