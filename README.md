# Command catalog of the commands API

This project models the command catalog of a small HTTP service, `s.rb`. The
service serves command records grouped by category. Each record is one JSON
file matching `cmds/<category>/*.json`. A file's name plays no part in lookups:
a command is identified by the `"name"` field of its record. On every request it rebuilds the catalog from disk with
`load_commands` and answers one of four read routes from it:

- `GET /cmds` and `GET /cmds/` return the whole catalog.
- `GET /cmds/:category` returns one category's list, or a 404 with
  `Category '<c>' not found`.
- `GET /cmds/:category/:command` returns the first record named `<command>` in the
  category. It gives the category message when the category is absent, and
  `Command '<n>' not found in category '<c>'` when the category is there but no
  record has that name.

Files:

- `records.dfy` (module `Records`): the JSON values a command file parses to.
  A record is an opaque map whose only interpreted field is `"name"`.
- `catalog.dfy` (module `CommandCatalog`): the builder. The directory listing
  of `cmds/` and each file's read-and-parse outcome are inputs; see `DirEntry`
  and `FileEntry`. `LoadCommands` is the imperative two-level loop of
  `load_commands`. It is proved equal to the specification function
  `LoadedCatalog`, and the lemmas state what that catalog is. The result is
  Ruby's insertion-ordered Hash, modelled as `Catalog(order, lists)`. Here
  `Store` is hash assignment (an existing key keeps its position) and `Push`
  is `<<` on a stored list.
- `handlers.dfy` (module `CatalogRoutes`): the four routes as pure functions
  from a catalog and the path parameters to a `Response(status, body)`.
  `Serve` is one request: load, then answer.

Decisions:

- The glob patterns in the source are modelled as predicates on names.
  `cmds/` followed by `*` skips names that start with a dot (`MatchesStar`).
  `*.json` needs a name that does not start with a dot and ends in `.json`
  (`MatchesJsonGlob`). Names are matched case-sensitively, as on Linux, so
  `a.JSON` is not a command file.
- A `*.json` entry that cannot be read, including a subdirectory with that
  suffix, has the parse outcome `None`, the same as a file holding invalid
  JSON. Either way it is skipped.
- The input listing may repeat a directory name, although real basenames
  within one directory are unique. The model then does what the code does: it
  rebinds the key to a fresh list, so only the files of the last entry with
  that name remain (`LoadedList`). The key-order lemma assumes distinct names.
- An existing category directory with no parseable file is a key bound to
  `[]`, so `GET /cmds/:category` answers 200 with an empty list
  (`EmptyDirectoryIsFound`). An empty category and an unknown one are
  therefore told apart: only the unknown one answers 404.
- Nothing in the lookups changes the catalog: they are functions of it, and
  every request reloads it (`Serve`).

## Model

| member | source | states |
|---|---|---|
| CommandCatalog.LoadCommands | s.rb:17-35 | The loops build exactly `LoadedCatalog(listing)`, whose keys and lists the lemmas below characterise. Every key is listed once in the insertion order. |
| CommandCatalog.Store | s.rb:22 | Hash assignment binds the key to the new list. An existing key keeps its position and a new key goes last, so the order stays duplicate-free and covers every key. |
| CommandCatalog.StoreTwice | s.rb:22 | Binding a key to `[]` and then rebinding it has the same effect as binding it once to the final list. |
| CommandCatalog.Push | s.rb:27 | `<<` appends the record to the end of the key's list and changes nothing else, including the key order. |
| Records.NameIsUnique | s.rb:60 | A record matches at most one requested name. Matching (`HasName`) means a `"name"` field holding a JSON string equal to the requested name; a missing or non-string field never matches. |
| CommandCatalog.MatchesStar | s.rb:20 | The top-level glob matches only non-empty names not starting with a dot, so never `.` or `..`. |
| CommandCatalog.MatchesJsonGlob | s.rb:24 | The `*.json` glob matches only names not starting with a dot, ending in `.json`, with at least one character before that suffix. |
| CommandCatalog.IsCategory | s.rb:20 | An entry becomes a category only if it is a directory matched by the top-level glob. A non-directory never does. |
| CommandCatalog.ParsedRecords | s.rb:24-31 | A category's list never holds more records than the directory has files. |
| CommandCatalog.LoadedCatalog | s.rb:17-35 | The catalog never has more keys than the listing has entries. |
| CommandCatalog.OneFile | s.rb:24-30 | A directory holding one file gets exactly that file's `Contribution`: its parsed record if the file `Contributes` (its name matches `*.json` and reading and parsing succeeded), otherwise nothing. |
| CommandCatalog.ParsedRecordsConcat | s.rb:24-31 | The records of consecutive runs of files concatenate in enumeration order. |
| CommandCatalog.SkippedFileHasNoEffect | s.rb:25-30 | A file that does not satisfy `Contributes` (it fails to read or parse, or `*.json` does not match it) is skipped. The records of its siblings stay exactly as they were. |
| CommandCatalog.ParsedFileInPlace | s.rb:24-27 | The record of a file that satisfies `Contributes` lies after the records of the files before it and before the records of the files after it. |
| CommandCatalog.ParsedRecordsMembers | s.rb:24-27 | A record is in a category's list iff some matching file of that directory parsed to it. |
| CommandCatalog.ParsedRecordsEmpty | s.rb:22-31 | A category's list is empty iff none of its files both matches `*.json` and parses. |
| CommandCatalog.LoadedWellFormed | s.rb:18-22 | In the built catalog every key appears exactly once in the insertion order. |
| CommandCatalog.LoadedKeys | s.rb:20-22 | A name is a key iff some entry with that name is a directory matched by the top-level glob. Files and dot-names never become keys. |
| CommandCatalog.LoadedList | s.rb:22-31 | The list under a category is the parsed records of the last directory entry with that name. A repeated name resets the list. |
| CommandCatalog.LoadedOrder | s.rb:20-22 | With distinct directory names, the key order is the order of the category entries in the listing. |
| CatalogRoutes.Find | s.rb:60 | `find` returns nothing iff no record has the name. Otherwise it returns the record at the first index whose `"name"` equals the requested string. Here "has the name" is `HasName`: a `"name"` field holding that JSON string; a missing or non-string field never matches. |
| CatalogRoutes.FindIsFirstMatch | s.rb:60 | When index i holds the first record with the name, `find` returns that record and never a later duplicate. |
| CatalogRoutes.AllCommands | s.rb:37-40 | The full-catalog routes answer 200 with the catalog, unchanged. |
| CatalogRoutes.CategoryCommands | s.rb:42-52 | The status is 200 iff the category is a key, and the body is then that key's list. Otherwise the status is 404 with `Category '<c>' not found`. |
| CatalogRoutes.CommandDetails | s.rb:54-71 | An absent category gives 404 with the category message. If some record in the category has the name, the answer is 200 with the first such record. If none has it, the answer is 404 with `Command '<n>' not found in category '<c>'`. |
| CatalogRoutes.Handle | s.rb:37-76 | Every catalog route answers 200 or 404, and 404 exactly when the body is an error object. |
| CatalogRoutes.Serve | s.rb:37-76 | A request's answer is the lookup applied to the catalog freshly loaded from the current listing. |
| CatalogRoutes.SlashIsAlias | s.rb:37-76 | `/cmds` and `/cmds/` give the same answer: 200 with the whole catalog. |
| CatalogRoutes.CategoryCheckedFirst | s.rb:59-70 | With the category absent, the command lookup ignores the command name and gives the category route's answer. |
| CatalogRoutes.CategoryNotFound | s.rb:50 | The category message is `Category '`, then the requested category, then `' not found`. |
| CatalogRoutes.CommandNotFound | s.rb:65 | The command message is `Command '`, the command, `' not found in category '`, the category, and a closing quote. |
| CatalogRoutes.MessagesDistinct | s.rb:50-65 | The category-not-found and command-not-found messages never coincide, for any arguments. |
| CatalogRoutes.CategoryNotFoundInjective | s.rb:50 | Two category-not-found messages are equal only for the same category name. |
| CatalogRoutes.EmptyDirectoryIsFound | s.rb:20-47 | A category directory with no parseable file answers 200 with `[]`, not 404. |
| CatalogRoutes.UnknownCategoryNotFound | s.rb:44-51 | A name with no category directory answers 404 with the category message. This holds on both the category route and the command route. |
| CatalogRoutes.LoadedCommandFound | s.rb:57-62 | After a real load, the command lookup returns the record of the first parsed file of that directory with the name. Earlier files without that name, or that failed, do not interfere. |
| CatalogRoutes.LoadedCommandMissing | s.rb:57-66 | After a real load, if no parsed file of the directory has the name, the answer is 404 with the command-not-found message. |

## Left out

- Reading the filesystem: the listing of `cmds/` and the listing of each directory are inputs, taken in the order given. No sorting is assumed.
- `File.directory?`, `File.read` and `JSON.parse` are inputs too: a flag per entry and an `Option` parse outcome per file.
- Glob metacharacters in a directory name are not modelled. The source puts the name into the pattern `<dir>/*.json`, so a name containing `*`, `?`, `[` or `{` would be expanded as a pattern; the model takes every name literally.
- JSON parsing details (duplicate keys, number formats) and serialisation with `to_json`. Response bodies are kept as structured values.
- A file whose top-level JSON value is not an object is not modelled: records are always objects. In the source such a value is stored, and `cmd["name"]` on it would raise or behave per Ruby's `[]` on that type.
- The Sinatra routing itself (path parsing, the port and bind settings), the `before` filter, the CORS configuration and the `OPTIONS` handler. They hold no catalog logic.
- The HTML documentation page at `/`, and the `puts` logging of load errors and of startup.
- The background repository sync and the `/update` trigger. Their code is not part of this model.
