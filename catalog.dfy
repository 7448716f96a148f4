/**
  The catalog builder: `load_commands`.

  The directory listing of `cmds/` and each file's read-and-parse outcome are
  inputs. The builder keeps the entries that the top-level pattern matches (every name under
  `cmds/` that does not start with a dot) and that are directories, makes each one's basename a category key bound to an
  empty list, and appends to that list every `*.json` file of the directory
  that parses, in enumeration order; a file that fails is skipped.

  The result is a Ruby Hash, which remembers the order in which its keys were
  first inserted; `Catalog` keeps that order beside the key-to-list map.
 */
module CommandCatalog {
  import opened Records

  /** A file inside a category directory, with the outcome of reading and parsing it. */
  datatype FileEntry = FileEntry(name: string, parsed: Option<Record>)

  /** An entry of the `cmds/` directory; `files` is its listing when it is a directory. */
  datatype DirEntry = DirEntry(name: string, isDirectory: bool, files: seq<FileEntry>)

  /** An insertion-ordered hash from category names to their command records. */
  datatype Catalog = Catalog(order: seq<string>, lists: map<string, seq<Record>>)

  /** The order lists every key exactly once. */
  predicate WellFormed(c: Catalog) {
    && (forall i, j :: 0 <= i < j < |c.order| ==> c.order[i] != c.order[j])
    && (forall k :: k in c.order ==> k in c.lists)
    && (forall k :: k in c.lists ==> k in c.order)
  }

  const Empty: Catalog := Catalog([], map[])

  /**
    Hash assignment `h[k] = v`: an existing key keeps its position and gets
    the new value; a new key goes to the end.
   */
  function Store(c: Catalog, k: string, v: seq<Record>): (r: Catalog)
    ensures r.lists == c.lists[k := v]
    ensures k in c.lists ==> r.order == c.order
    ensures k !in c.lists ==> r.order == c.order + [k]
    ensures WellFormed(c) ==> WellFormed(r)
  {
    if k in c.lists then Catalog(c.order, c.lists[k := v])
    else Catalog(c.order + [k], c.lists[k := v])
  }

  /** Assigning a key twice leaves the second value in the first one's position. */
  lemma StoreTwice(c: Catalog, k: string, v: seq<Record>, w: seq<Record>)
    ensures Store(Store(c, k, v), k, w) == Store(c, k, w)
  {
  }

  /** `h[k] << x` on the list already stored under `k`. */
  function Push(c: Catalog, k: string, x: Record): (r: Catalog)
    requires k in c.lists
    ensures r.order == c.order
    ensures r.lists == c.lists[k := c.lists[k] + [x]]
  {
    Store(c, k, c.lists[k] + [x])
  }

  /** The pattern `*`: any name that does not start with a dot. */
  predicate MatchesStar(name: string)
    ensures MatchesStar(name) ==> name != "." && name != ".."
  {
    |name| > 0 && name[0] != '.'
  }

  /** The pattern `*.json`: a name not starting with a dot and ending in ".json". */
  predicate MatchesJsonGlob(name: string)
    ensures MatchesJsonGlob(name) ==> MatchesStar(name) && |name| > 5 && name[|name| - 5..] == ".json"
  {
    MatchesStar(name) && |name| >= 5 && name[|name| - 5..] == ".json"
  }

  /** An entry of `cmds/` that becomes a category: matched by the top-level pattern and a directory. */
  predicate IsCategory(e: DirEntry)
    ensures IsCategory(e) ==> e.isDirectory && e.name != "." && e.name != ".."
    ensures !e.isDirectory ==> !IsCategory(e)
  {
    MatchesStar(e.name) && e.isDirectory
  }

  /** A file whose record is appended: matched by `*.json` and parsed without error. */
  predicate Contributes(f: FileEntry) {
    MatchesJsonGlob(f.name) && f.parsed.Some?
  }

  /** What one file adds to its category's list. */
  function Contribution(f: FileEntry): seq<Record>
  {
    if Contributes(f) then [f.parsed.value] else []
  }

  /** The list a category directory with these files ends up with. */
  function ParsedRecords(files: seq<FileEntry>): (r: seq<Record>)
    ensures |r| <= |files|
  {
    if files == [] then []
    else ParsedRecords(files[..|files| - 1]) + Contribution(files[|files| - 1])
  }

  /** The catalog built from a listing of `cmds/`, entry after entry. */
  function LoadedCatalog(listing: seq<DirEntry>): (r: Catalog)
    ensures |r.order| <= |listing|
  {
    if listing == [] then Empty
    else
      var prev := LoadedCatalog(listing[..|listing| - 1]);
      var e := listing[|listing| - 1];
      if IsCategory(e) then Store(prev, e.name, ParsedRecords(e.files)) else prev
  }

  /** The names of the category entries, in listing order. */
  function CategoryNames(listing: seq<DirEntry>): seq<string>
  {
    if listing == [] then []
    else
      var e := listing[|listing| - 1];
      CategoryNames(listing[..|listing| - 1]) + (if IsCategory(e) then [e.name] else [])
  }

  /** No two category entries share a name, as basenames within one directory never do. */
  predicate DistinctCategoryNames(listing: seq<DirEntry>) {
    forall i, j ::
      0 <= i < j < |listing| && IsCategory(listing[i]) && IsCategory(listing[j]) ==>
        listing[i].name != listing[j].name
  }

  /** Entry `i` is a category entry and no later category entry has its name. */
  predicate LastWithName(listing: seq<DirEntry>, i: int) {
    && 0 <= i < |listing|
    && IsCategory(listing[i])
    && forall j :: i < j < |listing| && IsCategory(listing[j]) ==> listing[j].name != listing[i].name
  }

  /**
    load_commands. The outer loop visits the entries of `cmds/`; each category
    is first bound to an empty list, then the inner loop appends the records
    of its `*.json` files that parse; a failing file is skipped.
   */
  method LoadCommands(listing: seq<DirEntry>) returns (commands: Catalog)
    ensures commands == LoadedCatalog(listing)
    ensures WellFormed(commands)
  {
    commands := Empty;
    var i := 0;
    while i < |listing|
      invariant 0 <= i <= |listing|
      invariant commands == LoadedCatalog(listing[..i])
    {
      var dir := listing[i];
      assert listing[..i + 1][..i] == listing[..i];
      if IsCategory(dir) {
        ghost var before := commands;
        commands := Store(commands, dir.name, []);
        var j := 0;
        while j < |dir.files|
          invariant 0 <= j <= |dir.files|
          invariant commands == Store(before, dir.name, ParsedRecords(dir.files[..j]))
        {
          var file := dir.files[j];
          assert dir.files[..j + 1][..j] == dir.files[..j];
          assert ParsedRecords(dir.files[..j + 1]) == ParsedRecords(dir.files[..j]) + Contribution(file);
          assert !Contributes(file) ==> ParsedRecords(dir.files[..j + 1]) == ParsedRecords(dir.files[..j]);
          if MatchesJsonGlob(file.name) {
            match file.parsed {
              case Some(rec) =>
                StoreTwice(before, dir.name, ParsedRecords(dir.files[..j]), ParsedRecords(dir.files[..j + 1]));
                commands := Push(commands, dir.name, rec);
              case None =>
            }
          }
          j := j + 1;
        }
        assert dir.files[..j] == dir.files;
      }
      i := i + 1;
    }
    assert listing[..i] == listing;
    LoadedWellFormed(listing);
  }

  // ----- properties of the list of one category -----

  /** Records of files listed one after another concatenate. */
  lemma {:induction false} ParsedRecordsConcat(a: seq<FileEntry>, b: seq<FileEntry>)
    ensures ParsedRecords(a + b) == ParsedRecords(a) + ParsedRecords(b)
    decreases |b|
  {
    if b == [] {
      assert a + b == a;
    } else {
      var b' := b[..|b| - 1];
      assert (a + b)[..|a + b| - 1] == a + b';
      assert b[..|b| - 1] == b';
      ParsedRecordsConcat(a, b');
    }
  }

  /** A single file contributes its own record, if any. */
  lemma OneFile(f: FileEntry)
    ensures ParsedRecords([f]) == Contribution(f)
  {
    assert [f][..0] == [];
  }

  /**
    A file that fails to read or parse, or that `*.json` does not match, is
    skipped and leaves the records of the files around it as they were.
   */
  lemma SkippedFileHasNoEffect(a: seq<FileEntry>, f: FileEntry, b: seq<FileEntry>)
    requires !Contributes(f)
    ensures ParsedRecords(a + [f] + b) == ParsedRecords(a + b)
  {
    OneFile(f);
    ParsedRecordsConcat(a + [f], b);
    ParsedRecordsConcat(a, [f]);
    ParsedRecordsConcat(a, b);
  }

  /**
    A file that parses contributes its record exactly in its place: after
    the records of the files before it and before those of the files after it.
   */
  lemma ParsedFileInPlace(a: seq<FileEntry>, f: FileEntry, b: seq<FileEntry>)
    requires Contributes(f)
    ensures ParsedRecords(a + [f] + b) == ParsedRecords(a) + [f.parsed.value] + ParsedRecords(b)
  {
    OneFile(f);
    ParsedRecordsConcat(a + [f], b);
    ParsedRecordsConcat(a, [f]);
  }

  /** A record is in the list exactly when some matching file parsed to it. */
  lemma {:induction false} ParsedRecordsMembers(files: seq<FileEntry>, r: Record)
    ensures r in ParsedRecords(files) <==>
      exists i :: 0 <= i < |files| && Contributes(files[i]) && files[i].parsed.value == r
    decreases |files|
  {
    if files != [] {
      var init := files[..|files| - 1];
      ParsedRecordsMembers(init, r);
      if r in ParsedRecords(files) && r !in ParsedRecords(init) {
        var last := |files| - 1;
        assert Contributes(files[last]) && files[last].parsed.value == r;
      }
      if exists i :: 0 <= i < |files| && Contributes(files[i]) && files[i].parsed.value == r {
        var i :| 0 <= i < |files| && Contributes(files[i]) && files[i].parsed.value == r;
        if i < |files| - 1 {
          assert init[i] == files[i];
        }
      }
    }
  }

  /** The list is empty exactly when no file both matches `*.json` and parses. */
  lemma {:induction false} ParsedRecordsEmpty(files: seq<FileEntry>)
    ensures ParsedRecords(files) == [] <==> forall i :: 0 <= i < |files| ==> !Contributes(files[i])
    decreases |files|
  {
    if files != [] {
      var init := files[..|files| - 1];
      ParsedRecordsEmpty(init);
      assert forall i :: 0 <= i < |init| ==> init[i] == files[i];
    }
  }

  // ----- properties of the whole catalog -----

  /** Every key is listed once in the insertion order. */
  lemma {:induction false} LoadedWellFormed(listing: seq<DirEntry>)
    ensures WellFormed(LoadedCatalog(listing))
    decreases |listing|
  {
    if listing != [] {
      LoadedWellFormed(listing[..|listing| - 1]);
    }
  }

  /** The keys are exactly the names of the category entries; other entries never become keys. */
  lemma {:induction false} LoadedKeys(listing: seq<DirEntry>)
    ensures forall k :: k in LoadedCatalog(listing).lists <==>
      exists i :: 0 <= i < |listing| && IsCategory(listing[i]) && listing[i].name == k
    decreases |listing|
  {
    if listing != [] {
      var init := listing[..|listing| - 1];
      LoadedKeys(init);
      assert forall i :: 0 <= i < |init| ==> init[i] == listing[i];
    }
  }

  /**
    A category's list is the records of the files of the LAST category entry
    with its name: a repeated name rebinds the key to a fresh list, so nothing
    of an earlier entry survives; for distinct names, each entry's own files.
   */
  lemma {:induction false} LoadedList(listing: seq<DirEntry>, i: int)
    requires LastWithName(listing, i)
    ensures listing[i].name in LoadedCatalog(listing).lists
    ensures LoadedCatalog(listing).lists[listing[i].name] == ParsedRecords(listing[i].files)
    decreases |listing|
  {
    var init := listing[..|listing| - 1];
    if i < |listing| - 1 {
      assert LastWithName(init, i) by {
        assert forall j :: 0 <= j < |init| ==> init[j] == listing[j];
      }
      LoadedList(init, i);
    }
  }

  /** With distinct names the key order is the order of the category entries. */
  lemma {:induction false} LoadedOrder(listing: seq<DirEntry>)
    requires DistinctCategoryNames(listing)
    ensures LoadedCatalog(listing).order == CategoryNames(listing)
    decreases |listing|
  {
    if listing != [] {
      var init := listing[..|listing| - 1];
      var e := listing[|listing| - 1];
      assert DistinctCategoryNames(init) by {
        assert forall j :: 0 <= j < |init| ==> init[j] == listing[j];
      }
      LoadedOrder(init);
      if IsCategory(e) {
        LoadedKeys(init);
        LoadedWellFormed(init);
      }
    }
  }
}
