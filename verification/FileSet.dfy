/** The files a manifest's entries name: one sorted list, whatever the order of the entries. */
module FileSet {
  import opened Wrappers
  import opened Text
  import opened Ordering

  type Component = s: string | s != "" witness "a"

  type Path = seq<Component>

  /** One `[[files]]` entry as far as the list depends on it; `excludes` is None when a pattern does not parse. */
  datatype Entry = Entry(source: string, root: Path, excludes: Option<string -> bool>, when: Option<string>)

  datatype Refusal = BadPattern | Unmatchable | Empty | Outside | Malformed | Unreadable | Duplicate

  /** The disk and the pattern library: what an entry matches, which relative paths are valid, and sizes. */
  datatype Disk = Disk(matched: Entry -> Option<seq<Path>>, valid: string -> bool, size: Path -> Option<nat>)

  datatype File = File(relative: string, source: Path, size: nat, when: Option<string>)

  type Table = map<string, File>

  // ---- the resolution, entry by entry ----

  /** What becomes of one matched path: a file, nothing when it is excluded, or a refusal. */
  function Listed(entry: Entry, path: Path, disk: Disk): Result<Option<File>, Refusal> {
    if !(entry.root <= path) then Err(Outside)
    else
      var relative := Join(path[|entry.root|..], '/');
      if entry.excludes.Some? && entry.excludes.value(relative) then Ok(None)
      else if !disk.valid(relative) then Err(Malformed)
      else if disk.size(path).None? then Err(Unreadable)
      else Ok(Some(File(relative, path, disk.size(path).value, entry.when)))
  }

  /** Two files that would be installed over each other, from different sources or under different predicates. */
  predicate Clash(a: File, b: File) {
    Lower(a.relative) == Lower(b.relative) && (a.source != b.source || a.when != b.when)
  }

  function Insert(files: Table, file: File): Result<Table, Refusal> {
    var key := Lower(file.relative);
    if key in files && (files[key].source != file.source || files[key].when != file.when) then Err(Duplicate)
    else Ok(files[key := file])
  }

  function AddPaths(files: Table, entry: Entry, paths: seq<Path>, disk: Disk): Result<Table, Refusal>
    decreases |paths|
  {
    if paths == [] then Ok(files)
    else
      var listed := Listed(entry, paths[0], disk);
      if listed.Err? then Err(listed.error)
      else if listed.value.None? then AddPaths(files, entry, paths[1..], disk)
      else
        var next := Insert(files, listed.value.value);
        if next.Err? then next else AddPaths(next.value, entry, paths[1..], disk)
  }

  function AddEntry(files: Table, entry: Entry, disk: Disk): Result<Table, Refusal> {
    if entry.excludes.None? then Err(BadPattern)
    else
      var matched := disk.matched(entry);
      if matched.None? then Err(Unmatchable)
      else if matched.value == [] then Err(Empty)
      else AddPaths(files, entry, matched.value, disk)
  }

  function AddEntries(files: Table, entries: seq<Entry>, disk: Disk): Result<Table, Refusal>
    decreases |entries|
  {
    if entries == [] then Ok(files)
    else
      var next := AddEntry(files, entries[0], disk);
      if next.Err? then next else AddEntries(next.value, entries[1..], disk)
  }

  predicate ByRelative(a: File, b: File) {
    Before(a.relative, b.relative)
  }

  /** The nested loops that fill the table, and the sort of its values. */
  method Resolve(entries: seq<Entry>, disk: Disk) returns (r: Result<seq<File>, Refusal>)
    ensures var table := AddEntries(map[], entries, disk);
            if table.Err? then r == Err(table.error)
            else r.Ok? && Sorted(r.value, ByRelative) && forall file :: file in r.value <==> file in table.value.Values
    ensures r.Ok? <==> (forall i :: 0 <= i < |entries| ==> MatchesOk(entries[i], disk)) && NoneClash(entries, disk)
    ensures r.Ok? ==> forall file :: file in r.value <==> Packed(entries, disk, file)
  {
    ResolvableMeans(entries, disk);
    TableIsExact(entries, disk);
    hide Listed, Insert, Lower, MatchesOk, Packed, NoneClash, Resolvable, Wanted;
    var files: Table := map[];
    for i := 0 to |entries|
      invariant AddEntries(map[], entries, disk) == AddEntries(files, entries[i..], disk)
    {
      var entry := entries[i];
      assert entries[i..][1..] == entries[i + 1..];
      if entry.excludes.None? {
        return Err(BadPattern);
      }
      var matched := disk.matched(entry);
      if matched.None? {
        return Err(Unmatchable);
      }
      var paths := matched.value;
      if |paths| == 0 {
        return Err(Empty);
      }
      ghost var before := files;
      for k := 0 to |paths|
        invariant AddPaths(before, entry, paths, disk) == AddPaths(files, entry, paths[k..], disk)
      {
        assert paths[k..][1..] == paths[k + 1..];
        var listed := Listed(entry, paths[k], disk);
        if listed.Err? {
          return Err(listed.error);
        }
        if listed.value.None? {
          continue;
        }
        var next := Insert(files, listed.value.value);
        if next.Err? {
          return Err(next.error);
        }
        files := next.value;
      }
    }
    ByRelativeIsStrict(files.Values);
    var list := Sort(files.Values, ByRelative);
    forall file
      ensures file in list <==> Packed(entries, disk, file)
    {
      WantedArePacked(entries, disk, file);
    }
    return Ok(list);
  }

  // ---- what the table holds ----

  /** The files of the non-excluded matches. */
  function FilesOf(entry: Entry, paths: seq<Path>, disk: Disk): set<File> {
    if paths == [] then {}
    else
      var listed := Listed(entry, paths[0], disk);
      (if listed.Ok? && listed.value.Some? then {listed.value.value} else {}) + FilesOf(entry, paths[1..], disk)
  }

  predicate AllListed(entry: Entry, paths: seq<Path>, disk: Disk) {
    forall k :: 0 <= k < |paths| ==> Listed(entry, paths[k], disk).Ok?
  }

  /** The entry's patterns parse, it matches something, and each match is a file or excluded. */
  predicate EntryOk(entry: Entry, disk: Disk) {
    entry.excludes.Some? && disk.matched(entry).Some? && disk.matched(entry).value != [] && AllListed(entry, disk.matched(entry).value, disk)
  }

  function FilesOfEntry(entry: Entry, disk: Disk): set<File> {
    if disk.matched(entry).None? then {} else FilesOf(entry, disk.matched(entry).value, disk)
  }

  function Wanted(entries: seq<Entry>, disk: Disk): set<File> {
    if entries == [] then {} else FilesOfEntry(entries[0], disk) + Wanted(entries[1..], disk)
  }

  predicate ClashFree(files: set<File>) {
    forall a, b | a in files && b in files :: !Clash(a, b)
  }

  /** Every entry is in order and no two files they name clash. */
  predicate Resolvable(entries: seq<Entry>, disk: Disk) {
    (forall i :: 0 <= i < |entries| ==> EntryOk(entries[i], disk)) && ClashFree(Wanted(entries, disk))
  }

  /** The file is what its source is on this disk, under some root. */
  ghost predicate IsOf(file: File, disk: Disk) {
    disk.size(file.source) == Some(file.size) && exists n :: 0 <= n <= |file.source| && file.relative == Join(file.source[n..], '/')
  }

  ghost predicate TableOk(files: Table, disk: Disk) {
    forall key :: key in files ==> Lower(files[key].relative) == key && IsOf(files[key], disk)
  }

  lemma {:induction false} JoinShrinks(path: Path, n: nat)
    requires 0 < n <= |path|
    ensures |Join(path[n..], '/')| < |Join(path, '/')|
  {
    assert path[n..] == path[1..][n - 1..];
    if n > 1 {
      JoinShrinks(path[1..], n - 1);
    } else {
      assert path[1..][0..] == path[1..];
    }
    assert |path| == 1 ==> path[1..] == [];
  }

  /** The relative path of a source is fixed by its length. */
  lemma RelativeIsFixed(path: Path, m: nat, n: nat)
    requires m <= n <= |path| && |Join(path[m..], '/')| == |Join(path[n..], '/')|
    ensures Join(path[m..], '/') == Join(path[n..], '/')
  {
    if m < n {
      assert path[m..][n - m..] == path[n..];
      JoinShrinks(path[m..], n - m);
    }
  }

  /** Two files of one key that do not clash are the same file. */
  lemma SameKeySameFile(a: File, b: File, disk: Disk)
    requires IsOf(a, disk) && IsOf(b, disk) && Lower(a.relative) == Lower(b.relative) && !Clash(a, b)
    ensures a == b
  {
    assert |Lower(a.relative)| == |a.relative| && |Lower(b.relative)| == |b.relative|;
    var path := a.source;
    var m :| 0 <= m <= |path| && a.relative == Join(path[m..], '/');
    var n :| 0 <= n <= |path| && b.relative == Join(path[n..], '/');
    hide Lower, Join;
    if m <= n {
      RelativeIsFixed(path, m, n);
    } else {
      RelativeIsFixed(path, n, m);
    }
  }

  lemma ListedIsOf(entry: Entry, path: Path, disk: Disk)
    requires Listed(entry, path, disk).Ok? && Listed(entry, path, disk).value.Some?
    ensures IsOf(Listed(entry, path, disk).value.value, disk)
  {
    hide Join;
  }

  lemma InsertIsExact(files: Table, file: File, disk: Disk)
    requires TableOk(files, disk) && IsOf(file, disk)
    ensures Insert(files, file).Ok? <==> forall g <- files.Values :: !Clash(g, file)
    ensures Insert(files, file).Ok? ==> TableOk(Insert(files, file).value, disk) && Insert(files, file).value.Values == files.Values + {file}
  {
    var key := Lower(file.relative);
    hide Lower, IsOf;
    if key in files {
      assert files[key] in files.Values;
      if !Clash(files[key], file) {
        SameKeySameFile(files[key], file, disk);
      }
    }
    if Insert(files, file).Ok? {
      var next := files[key := file];
      forall g
        ensures g in next.Values <==> g in files.Values || g == file
      {
        if g in files.Values {
          var k :| k in files && files[k] == g;
          assert next[k] == g;
        }
        assert next[key] == file;
      }
    }
  }

  lemma {:induction false} PathsAreExact(files: Table, entry: Entry, paths: seq<Path>, disk: Disk)
    requires TableOk(files, disk) && ClashFree(files.Values)
    ensures var r := AddPaths(files, entry, paths, disk);
            var all := files.Values + FilesOf(entry, paths, disk);
            && (r.Ok? <==> AllListed(entry, paths, disk) && ClashFree(all))
            && (r.Ok? ==> TableOk(r.value, disk) && r.value.Values == all)
    decreases |paths|
  {
    hide Listed, Insert, Clash, TableOk;
    if paths == [] {
      assert files.Values + {} == files.Values;
    } else {
      var listed, rest := Listed(entry, paths[0], disk), paths[1..];
      AllListedNext(entry, paths, disk);
      if listed.Ok? && listed.value.None? {
        PathsAreExact(files, entry, rest, disk);
        assert {} + FilesOf(entry, rest, disk) == FilesOf(entry, rest, disk);
      } else if listed.Ok? {
        var file := listed.value.value;
        ListedIsOf(entry, paths[0], disk);
        InsertIsExact(files, file, disk);
        var all := files.Values + FilesOf(entry, paths, disk);
        assert all == files.Values + {file} + FilesOf(entry, rest, disk);
        if Insert(files, file).Ok? {
          AddedIsClashFree(files.Values, file);
          PathsAreExact(Insert(files, file).value, entry, rest, disk);
        }
      }
    }
  }

  lemma AddedIsClashFree(files: set<File>, file: File)
    requires ClashFree(files) && forall g <- files :: !Clash(g, file)
    ensures ClashFree(files + {file})
  {
    hide Lower;
  }

  lemma AllListedNext(entry: Entry, paths: seq<Path>, disk: Disk)
    requires paths != []
    ensures AllListed(entry, paths, disk) <==> Listed(entry, paths[0], disk).Ok? && AllListed(entry, paths[1..], disk)
  {
    hide Listed;
    assert forall k :: 0 < k < |paths| ==> paths[k] == paths[1..][k - 1];
  }

  lemma {:induction false} EntriesAreExact(files: Table, entries: seq<Entry>, disk: Disk)
    requires TableOk(files, disk) && ClashFree(files.Values)
    ensures var r := AddEntries(files, entries, disk);
            var all := files.Values + Wanted(entries, disk);
            && (r.Ok? <==> (forall i :: 0 <= i < |entries| ==> EntryOk(entries[i], disk)) && ClashFree(all))
            && (r.Ok? ==> TableOk(r.value, disk) && r.value.Values == all)
    decreases |entries|
  {
    hide FilesOf, AddPaths, AllListed, Clash, TableOk;
    if entries == [] {
      assert files.Values + {} == files.Values;
    } else {
      var entry, rest := entries[0], entries[1..];
      assert forall i :: 0 < i < |entries| ==> entries[i] == rest[i - 1];
      assert EntryOk(entries[0], disk) <==> EntryOk(entry, disk);
      if disk.matched(entry).Some? {
        PathsAreExact(files, entry, disk.matched(entry).value, disk);
      }
      var all := files.Values + Wanted(entries, disk);
      assert all == files.Values + FilesOfEntry(entry, disk) + Wanted(rest, disk);
      var next := AddEntry(files, entry, disk);
      if next.Ok? {
        EntriesAreExact(next.value, rest, disk);
        assert forall i :: 0 <= i < |rest| ==> rest[i] == entries[i + 1];
      }
    }
  }

  /** The table is filled exactly when the entries can be resolved, and then with the files they want. */
  lemma TableIsExact(entries: seq<Entry>, disk: Disk)
    ensures var r := AddEntries(map[], entries, disk);
            && (r.Ok? <==> Resolvable(entries, disk))
            && (r.Ok? ==> r.value.Values == Wanted(entries, disk) && TableOk(r.value, disk))
            && (r.Ok? ==> Separates(ByRelative, r.value.Values))
  {
    var empty: Table := map[];
    EntriesAreExact(empty, entries, disk);
    assert empty.Values + Wanted(entries, disk) == Wanted(entries, disk);
    var r := AddEntries(map[], entries, disk);
    if r.Ok? {
      TableSeparates(r.value, disk);
    }
  }

  lemma TableSeparates(files: Table, disk: Disk)
    requires TableOk(files, disk)
    ensures Separates(ByRelative, files.Values)
  {
    hide Before, Lower, IsOf;
    forall a, b | a in files.Values && b in files.Values
      ensures a == b || ByRelative(a, b) || ByRelative(b, a)
    {
      var k :| k in files && files[k] == a;
      var l :| l in files && files[l] == b;
      BeforeIsTotal(a.relative, b.relative);
    }
  }

  lemma ByRelativeIsStrict(files: set<File>)
    ensures IsStrict(ByRelative)
  {
    hide Before;
    forall a: File
      ensures !ByRelative(a, a)
    {
      BeforeIsTotal(a.relative, a.relative);
    }
    forall a: File, b: File, c: File | ByRelative(a, b) && ByRelative(b, c)
      ensures ByRelative(a, c)
    {
      BeforeIsTransitive(a.relative, b.relative, c.relative);
    }
  }

  // ---- what the list is ----

  /** The list is exactly the files of the non-excluded matches. */
  lemma {:induction false} WantedAreTheMatches(entries: seq<Entry>, disk: Disk, file: File)
    ensures file in Wanted(entries, disk) <==>
            exists i :: 0 <= i < |entries| && file in FilesOfEntry(entries[i], disk)
  {
    hide FilesOfEntry;
    if entries != [] {
      WantedAreTheMatches(entries[1..], disk, file);
      if i :| 0 <= i < |entries[1..]| && file in FilesOfEntry(entries[1..][i], disk) {
        assert entries[i + 1] == entries[1..][i];
      }
      if i :| 0 <= i < |entries| && file in FilesOfEntry(entries[i], disk) {
        assert i > 0 ==> entries[i] == entries[1..][i - 1];
      }
    }
  }

  lemma {:induction false} FilesAreTheMatches(entry: Entry, paths: seq<Path>, disk: Disk, file: File)
    ensures file in FilesOf(entry, paths, disk) <==>
            exists k :: 0 <= k < |paths| && Listed(entry, paths[k], disk) == Ok(Some(file))
  {
    hide Listed;
    if paths != [] {
      FilesAreTheMatches(entry, paths[1..], disk, file);
      if k :| 0 <= k < |paths[1..]| && Listed(entry, paths[1..][k], disk) == Ok(Some(file)) {
        assert paths[k + 1] == paths[1..][k];
      }
      if k :| 0 <= k < |paths| && Listed(entry, paths[k], disk) == Ok(Some(file)) {
        assert k > 0 ==> paths[k] == paths[1..][k - 1];
      }
    }
  }

  // ---- which files are packed, and when the entries are refused ----

  /** The pattern that leaves a match out looks at its path below the entry's root. */
  predicate Excluded(entry: Entry, path: Path)
    requires entry.root <= path
  {
    entry.excludes.Some? && entry.excludes.value(Join(path[|entry.root|..], '/'))
  }

  /** A match that is not left out gives a file: its path below the root, its source, its size, under the entry's predicate. */
  predicate Packs(entry: Entry, path: Path, disk: Disk, file: File) {
    && entry.root <= path && !Excluded(entry, path)
    && file.relative == Join(path[|entry.root|..], '/') && file.source == path && file.when == entry.when
    && disk.valid(file.relative) && disk.size(path) == Some(file.size)
  }

  ghost predicate PacksOf(entry: Entry, disk: Disk, file: File) {
    disk.matched(entry).Some? && exists path :: path in disk.matched(entry).value && Packs(entry, path, disk, file)
  }

  /** A match is below the entry's root, and left out or a valid path of a file that can be read. */
  predicate MatchOk(entry: Entry, path: Path, disk: Disk) {
    && entry.root <= path
    && (!Excluded(entry, path) ==> disk.valid(Join(path[|entry.root|..], '/')) && disk.size(path).Some?)
  }

  ghost predicate Packed(entries: seq<Entry>, disk: Disk, file: File) {
    exists i :: 0 <= i < |entries| && PacksOf(entries[i], disk, file)
  }

  ghost predicate MatchesOk(entry: Entry, disk: Disk) {
    && entry.excludes.Some? && disk.matched(entry).Some? && disk.matched(entry).value != []
    && forall path <- disk.matched(entry).value :: MatchOk(entry, path, disk)
  }

  lemma ListedIsPacked(entry: Entry, path: Path, disk: Disk, file: File)
    ensures Listed(entry, path, disk) == Ok(Some(file)) <==> Packs(entry, path, disk, file)
    ensures Listed(entry, path, disk).Ok? <==> MatchOk(entry, path, disk)
  {
    hide Join;
  }

  /** The files wanted are those of the matches that no exclusion leaves out. */
  lemma WantedArePacked(entries: seq<Entry>, disk: Disk, file: File)
    ensures file in Wanted(entries, disk) <==> Packed(entries, disk, file)
  {
    hide Wanted, FilesOf, Listed, Packs, MatchOk;
    WantedAreTheMatches(entries, disk, file);
    forall i | 0 <= i < |entries|
      ensures file in FilesOfEntry(entries[i], disk) <==> PacksOf(entries[i], disk, file)
    {
      EntryIsPacked(entries[i], disk, file);
    }
  }

  lemma EntryIsPacked(entry: Entry, disk: Disk, file: File)
    ensures file in FilesOfEntry(entry, disk) <==> PacksOf(entry, disk, file)
  {
    hide FilesOf, Listed, Packs, MatchOk;
    if disk.matched(entry).Some? {
      var paths := disk.matched(entry).value;
      FilesAreTheMatches(entry, paths, disk, file);
      forall path: Path
        ensures Listed(entry, path, disk) == Ok(Some(file)) <==> Packs(entry, path, disk, file)
      {
        ListedIsPacked(entry, path, disk, file);
      }
    }
  }

  lemma EntryIsOk(entry: Entry, disk: Disk)
    ensures EntryOk(entry, disk) <==> MatchesOk(entry, disk)
  {
    hide Listed, MatchOk;
    forall path: Path
      ensures Listed(entry, path, disk).Ok? <==> MatchOk(entry, path, disk)
    {
      ListedIsPacked(entry, path, disk, File("", [], 0, None));
    }
  }

  /** Two packed files of one path but for case are one source under one predicate. */
  ghost predicate NoneClash(entries: seq<Entry>, disk: Disk) {
    forall a, b | Packed(entries, disk, a) && Packed(entries, disk, b) && Lower(a.relative) == Lower(b.relative) ::
      a.source == b.source && a.when == b.when
  }

  /**
   The entries resolve exactly when the patterns of each parse, each matches something, every match is fine or left out,
   and no two packed files clash: a match left out is never a reason to refuse.
   */
  lemma ResolvableMeans(entries: seq<Entry>, disk: Disk)
    ensures Resolvable(entries, disk) <==> (forall i :: 0 <= i < |entries| ==> MatchesOk(entries[i], disk)) && NoneClash(entries, disk)
  {
    hide EntryOk, MatchesOk, Wanted, Packed, Lower;
    forall i | 0 <= i < |entries|
      ensures EntryOk(entries[i], disk) <==> MatchesOk(entries[i], disk)
    {
      EntryIsOk(entries[i], disk);
    }
    forall file
      ensures file in Wanted(entries, disk) <==> Packed(entries, disk, file)
    {
      WantedArePacked(entries, disk, file);
    }
  }

  /** What a resolution returns, as `Resolve` promises it. */
  ghost predicate IsListing(entries: seq<Entry>, disk: Disk, list: seq<File>) {
    Sorted(list, ByRelative) && forall file :: file in list <==> file in Wanted(entries, disk)
  }

  /** No path occurs twice in a listing, not even in another case. */
  lemma PathsAreDistinct(entries: seq<Entry>, disk: Disk, list: seq<File>, i: nat, j: nat)
    requires Resolvable(entries, disk) && IsListing(entries, disk, list) && i < j < |list|
    ensures Lower(list[i].relative) != Lower(list[j].relative)
  {
    hide Lower, IsOf, Wanted, Before;
    TableIsExact(entries, disk);
    var table := AddEntries(map[], entries, disk).value;
    assert list[i] in list && list[j] in list;
    var k :| k in table && table[k] == list[i];
    var l :| l in table && table[l] == list[j];
    ByRelativeIsStrict(table.Values);
    assert ByRelative(list[i], list[j]);
    assert !ByRelative(list[i], list[i]);
  }

  lemma WantedOfPermutation(a: seq<Entry>, b: seq<Entry>, disk: Disk)
    requires forall e :: e in a <==> e in b
    ensures Wanted(a, disk) == Wanted(b, disk)
  {
    hide FilesOfEntry, Wanted;
    forall file
      ensures file in Wanted(a, disk) <==> file in Wanted(b, disk)
    {
      WantedAreTheMatches(a, disk, file);
      WantedAreTheMatches(b, disk, file);
      if i :| 0 <= i < |a| && file in FilesOfEntry(a[i], disk) {
        assert a[i] in b;
      }
      if i :| 0 <= i < |b| && file in FilesOfEntry(b[i], disk) {
        assert b[i] in a;
      }
    }
  }

  /** The order of the entries changes neither whether they resolve nor the list; nor does writing one twice. */
  lemma OrderDoesNotMatter(a: seq<Entry>, b: seq<Entry>, disk: Disk, x: seq<File>, y: seq<File>)
    requires forall e :: e in a <==> e in b
    ensures Resolvable(a, disk) <==> Resolvable(b, disk)
    ensures IsListing(a, disk, x) && IsListing(b, disk, y) ==> x == y
  {
    hide EntryOk, Wanted, ClashFree;
    WantedOfPermutation(a, b, disk);
    assert (forall i :: 0 <= i < |a| ==> EntryOk(a[i], disk)) <==> forall e <- a :: EntryOk(e, disk);
    assert (forall i :: 0 <= i < |b| ==> EntryOk(b[i], disk)) <==> forall e <- b :: EntryOk(e, disk);
    if IsListing(a, disk, x) && IsListing(b, disk, y) {
      ByRelativeIsStrict({});
      SortedIsUnique(x, y, ByRelative);
    }
  }
}
