/**
  The catalog endpoints: `GET /cmds`, `GET /cmds/`, `GET /cmds/:category`
  and `GET /cmds/:category/:command`.

  Every request reloads the catalog and answers from it. A lookup that
  succeeds answers 200 with the catalog, a category's list or one record; a
  lookup that fails answers 404 with a JSON object whose "error" field holds
  one of two messages.
 */
module CatalogRoutes {
  import opened Records
  import opened CommandCatalog

  /** The catalog requests, with their path parameters. */
  datatype Route =
    | Cmds
    | CmdsSlash
    | CmdsCategory(category: string)
    | CmdsCommand(category: string, command: string)

  /** What a response body serialises: a success payload or `{"error": ...}`. */
  datatype Body =
    | CatalogBody(catalog: Catalog)
    | ListBody(records: seq<Record>)
    | RecordBody(record: Record)
    | ErrorBody(error: string)

  datatype Response = Response(status: nat, body: Body)

  const OK: nat := 200
  const NOT_FOUND: nat := 404

  /** The 404 message of an unknown category; the category sits between fixed quotes. */
  function CategoryNotFound(category: string): (m: string)
    ensures |m| == |category| + 21
    ensures m[..10] == "Category '" && m[10..10 + |category|] == category
    ensures m[10 + |category|..] == "' not found"
  {
    "Category '" + category + "' not found"
  }

  /** The 404 message of an unknown command in a known category; it holds both names. */
  function CommandNotFound(command: string, category: string): (m: string)
    ensures |m| == |command| + |category| + 35
    ensures m[..9] == "Command '" && m[9..9 + |command|] == command
    ensures m[9 + |command|..9 + |command| + 25] == "' not found in category '"
    ensures m[|m| - |category| - 1..|m| - 1] == category && m[|m| - 1] == '\''
  {
    "Command '" + command + "' not found in category '" + category + "'"
  }

  /** Entry `i` is the first record of `records` named `n`. */
  predicate IsFirstMatch(records: seq<Record>, n: string, i: int) {
    && 0 <= i < |records|
    && HasName(records[i], n)
    && forall j :: 0 <= j < i ==> !HasName(records[j], n)
  }

  /** `records.find { |cmd| cmd["name"] == n }`: the first record named `n`, if any. */
  function Find(records: seq<Record>, n: string): (r: Option<Record>)
    ensures r.None? <==> forall i :: 0 <= i < |records| ==> !HasName(records[i], n)
    ensures r.Some? ==> exists i :: IsFirstMatch(records, n, i) && records[i] == r.value
    decreases |records|
  {
    if records == [] then None
    else if HasName(records[0], n) then
      assert IsFirstMatch(records, n, 0);
      Some(records[0])
    else
      var r := Find(records[1..], n);
      assert forall i :: 0 < i < |records| ==> records[i] == records[1..][i - 1];
      if r.Some? then
        var i :| IsFirstMatch(records[1..], n, i) && records[1..][i] == r.value;
        assert IsFirstMatch(records, n, i + 1);
        r
      else
        r
  }

  /** `GET /cmds` and `GET /cmds/`: the whole catalog. */
  function AllCommands(catalog: Catalog): (r: Response)
    ensures r.status == OK && r.body.CatalogBody?
    ensures r.body.catalog == catalog
  {
    Response(OK, CatalogBody(catalog))
  }

  /** `GET /cmds/:category`: decided by whether the category is a key. */
  function CategoryCommands(catalog: Catalog, category: string): (r: Response)
    ensures r.status == OK <==> category in catalog.lists
    ensures category in catalog.lists ==> r.body == ListBody(catalog.lists[category])
    ensures category !in catalog.lists ==>
      r.status == NOT_FOUND && r.body == ErrorBody(CategoryNotFound(category))
  {
    if category in catalog.lists then Response(OK, ListBody(catalog.lists[category]))
    else Response(NOT_FOUND, ErrorBody(CategoryNotFound(category)))
  }

  /**
    `GET /cmds/:category/:command`: the category first, then the first record
    of its list with that name.
   */
  function CommandDetails(catalog: Catalog, category: string, command: string): (r: Response)
    ensures category !in catalog.lists ==>
      r == Response(NOT_FOUND, ErrorBody(CategoryNotFound(category)))
    ensures category in catalog.lists ==>
      var records := catalog.lists[category];
      && ((exists i :: 0 <= i < |records| && HasName(records[i], command)) ==>
            r.status == OK && exists i :: IsFirstMatch(records, command, i) && r.body == RecordBody(records[i]))
      && ((forall i :: 0 <= i < |records| ==> !HasName(records[i], command)) ==>
            r == Response(NOT_FOUND, ErrorBody(CommandNotFound(command, category))))
  {
    if category in catalog.lists then
      match Find(catalog.lists[category], command)
      case Some(record) => Response(OK, RecordBody(record))
      case None => Response(NOT_FOUND, ErrorBody(CommandNotFound(command, category)))
    else
      Response(NOT_FOUND, ErrorBody(CategoryNotFound(category)))
  }

  /** The lookup behind each catalog route. */
  function Handle(route: Route, catalog: Catalog): (r: Response)
    ensures r.status == OK || r.status == NOT_FOUND
    ensures r.status == NOT_FOUND <==> r.body.ErrorBody?
  {
    match route
    case Cmds => AllCommands(catalog)
    case CmdsSlash => AllCommands(catalog)
    case CmdsCategory(c) => CategoryCommands(catalog, c)
    case CmdsCommand(c, n) => CommandDetails(catalog, c, n)
  }

  /** One request: load the catalog afresh from the listing, then answer from it. */
  method Serve(route: Route, listing: seq<DirEntry>) returns (response: Response)
    ensures response == Handle(route, LoadedCatalog(listing))
  {
    var commands := LoadCommands(listing);
    response := Handle(route, commands);
  }

  // ----- properties of the lookups -----

  /** Find returns exactly the first record with the name; later duplicates never. */
  lemma FindIsFirstMatch(records: seq<Record>, n: string, i: int)
    requires IsFirstMatch(records, n, i)
    ensures Find(records, n) == Some(records[i])
  {
    var r := Find(records, n);
    var k :| IsFirstMatch(records, n, k) && records[k] == r.value;
    assert !(k < i) && !(i < k);
  }

  /** `/cmds` and `/cmds/` answer alike with the full catalog, unchanged. */
  lemma SlashIsAlias(catalog: Catalog)
    ensures Handle(Cmds, catalog) == Handle(CmdsSlash, catalog)
    ensures Handle(Cmds, catalog) == Response(OK, CatalogBody(catalog))
  {
  }

  /** An absent category answers the category message, whatever the command name. */
  lemma CategoryCheckedFirst(catalog: Catalog, category: string, n1: string, n2: string)
    requires category !in catalog.lists
    ensures CommandDetails(catalog, category, n1) == CommandDetails(catalog, category, n2)
    ensures CommandDetails(catalog, category, n1) == CategoryCommands(catalog, category)
  {
  }

  /** The two not-found messages never coincide, so a client can tell them apart. */
  lemma MessagesDistinct(category: string, command: string, category': string)
    ensures CategoryNotFound(category) != CommandNotFound(command, category')
  {
  }

  /** The category message names the category it was asked for. */
  lemma CategoryNotFoundInjective(c1: string, c2: string)
    requires CategoryNotFound(c1) == CategoryNotFound(c2)
    ensures c1 == c2
  {
  }

  // ----- lookups against a loaded catalog -----

  /**
    An existing directory is a category even when none of its files yields a
    record: its lookup succeeds with the empty list.
   */
  lemma EmptyDirectoryIsFound(listing: seq<DirEntry>, i: int)
    requires LastWithName(listing, i)
    requires forall j :: 0 <= j < |listing[i].files| ==> !Contributes(listing[i].files[j])
    ensures Handle(CmdsCategory(listing[i].name), LoadedCatalog(listing)) == Response(OK, ListBody([]))
  {
    LoadedList(listing, i);
    ParsedRecordsEmpty(listing[i].files);
  }

  /** A name that is no category entry's answers 404 with the category message. */
  lemma UnknownCategoryNotFound(listing: seq<DirEntry>, category: string, route: Route)
    requires forall i :: 0 <= i < |listing| && IsCategory(listing[i]) ==> listing[i].name != category
    requires route == CmdsCategory(category) || (route.CmdsCommand? && route.category == category)
    ensures Handle(route, LoadedCatalog(listing)) == Response(NOT_FOUND, ErrorBody(CategoryNotFound(category)))
  {
    LoadedKeys(listing);
  }

  /**
    A command lookup in a loaded category answers with the first parsed record
    of that directory's files carrying the name.
   */
  lemma LoadedCommandFound(listing: seq<DirEntry>, i: int, a: seq<FileEntry>, f: FileEntry, b: seq<FileEntry>, n: string)
    requires LastWithName(listing, i)
    requires listing[i].files == a + [f] + b
    requires Contributes(f) && HasName(f.parsed.value, n)
    requires forall j :: 0 <= j < |a| && Contributes(a[j]) ==> !HasName(a[j].parsed.value, n)
    ensures Handle(CmdsCommand(listing[i].name, n), LoadedCatalog(listing)) == Response(OK, RecordBody(f.parsed.value))
  {
    LoadedList(listing, i);
    ParsedFileInPlace(a, f, b);
    var records := ParsedRecords(a) + [f.parsed.value] + ParsedRecords(b);
    var k := |ParsedRecords(a)|;
    forall j | 0 <= j < k ensures !HasName(records[j], n) {
      assert records[j] in ParsedRecords(a);
      ParsedRecordsMembers(a, records[j]);
    }
    assert IsFirstMatch(records, n, k);
    FindIsFirstMatch(records, n, k);
  }

  /**
    A command lookup in a loaded category where no parsed record of that
    directory carries the name answers 404 with the command message.
   */
  lemma LoadedCommandMissing(listing: seq<DirEntry>, i: int, n: string)
    requires LastWithName(listing, i)
    requires forall j :: 0 <= j < |listing[i].files| && Contributes(listing[i].files[j]) ==>
      !HasName(listing[i].files[j].parsed.value, n)
    ensures Handle(CmdsCommand(listing[i].name, n), LoadedCatalog(listing)) ==
      Response(NOT_FOUND, ErrorBody(CommandNotFound(n, listing[i].name)))
  {
    LoadedList(listing, i);
    var records := ParsedRecords(listing[i].files);
    forall j | 0 <= j < |records| ensures !HasName(records[j], n) {
      ParsedRecordsMembers(listing[i].files, records[j]);
    }
  }
}
