# presidium-json-schema: the page-generation core, modelled in Dafny

presidium-json-schema turns JSON Schema files into Markdown pages for a Hugo site.
This project models the pure logic at the heart of that conversion (package
`pkg/markdown`) and proves properties of it:

- the walk over the compiled schema graph (`walkSchema`), and the two collectors
  built on it, `Definitions` and `FindTypeOfs` (`schemagraph.dfy`);
- the naming and path helpers the pages are named and placed with: `Slugify`,
  `TrimAnchorPath`, `AnchorPath`, `FilenameWithoutExt`, `FileName`, `FilePath`,
  `IsRemoteRef`, `IsInternalRef` (`naming.dfy`);
- the helpers the templates call: `FirstNonEmpty`, `EscapeRegex`, `LookupRegex`,
  `Dict` and `IndexOf` (`templatefuncs.dfy`), and `GetWeight` over the ordered key
  tree of a schema file (`weights.dfy`);
- the pattern rewriter (`applyMiddleware` with its `middleware`), over decoded JSON
  (`json.dfy`, `patterns.dfy`);
- `createIndex`, which writes the `_index.md` section files, over a filesystem
  kept as a set of directories and a map of file contents (`indexfiles.dfy`);
- the driver `Convert` / `convertToMarkdown`, and its `converted` set
  (`converter.dfy`);
- `Config.ReferenceUrl` (`config.dfy`).

Supporting modules:

- `strings.dfy` models the parts of Go's `strings` package the code relies on.
- `filepaths.dfy` models the parts of `path/filepath` it relies on (`Clean`,
  `Join`, `Dir`, `Base`, `Ext`, Unix flavour). A cleaned path is kept as a
  `Path` value: a rooted flag and a list of elements.
- `wrappers.dfy` holds `Option` and `Result`.

Several things are parameters rather than definitions:

- `Hash` (MD5) is an uninterpreted function.
- `strcase.ToKebab` is a function argument called `kebab`.
- The Markdown template is a function argument called `render`. It yields a page's text, or nothing when template execution fails.
- A walk callback that may fail is a predicate `fails` on locations.

Go maps iterate in no fixed order. A Go map that the code iterates over is kept as
a sequence in "this run's order", and no property depends on that order unless it
says so.

## Model

| member | source | states |
|---|---|---|
| SchemaGraph.ToSchema | pkg/markdown/schema.go:18-24 | nil stays nil; any other schema comes back tagged with the given file path |
| SchemaGraph.Walk | pkg/markdown/schema.go:52-104 | a nil or already-marked schema calls nothing; otherwise the schema itself is the first call; a failing callback ends that branch with the location unmarked; the marked set grows by exactly the called locations whose callback succeeded; no location is called twice unless its callback failed |
| SchemaGraph.WalkEach | pkg/markdown/schema.go:66-70 | walking a list of children keeps the same accounting: marks are exactly the successful calls, repeats only of failing locations |
| SchemaGraph.WalkSchema | pkg/markdown/schema.go:48-50 | from an empty visited set the root is called first; every marked location was called and succeeded; every successful call is marked; with a callback that never fails, no location is called twice |
| SchemaGraph.WalkCloses | pkg/markdown/schema.go:52-104 | the walk is complete: every child of every location it marks is nil, marked, or failed its callback |
| SchemaGraph.WalkWithin | pkg/markdown/schema.go:52-104 | the walk is sound: it only calls locations inside any set that holds the start and is closed under the child edges |
| SchemaGraph.NoRefWalk | pkg/markdown/schema.go:72-74 | with `followRef` false the walk is the walk of the graph with every `DynamicRef`, `Ref` and `RecursiveRef` slot cleared: reference edges are never taken |
| SchemaGraph.FirstEdgeSecond | pkg/markdown/schema.go:72-103 | children are walked in the fixed slot order: a new first child is the call right after its parent |
| SchemaGraph.StripRefs | pkg/markdown/schema.go:72-74 | clearing the reference slots keeps every location and every non-reference child list |
| SchemaGraph.RefTargets | pkg/markdown/schema.go:37-42 | every target carries the root's path and comes from a called schema other than the root that has a `Ref`; every such schema contributes its target |
| SchemaGraph.RefTargetsCount | pkg/markdown/schema.go:37-42 | when the calls have no repeats, there is exactly one target per called schema other than the root that has a `Ref` |
| SchemaGraph.Definitions | pkg/markdown/schema.go:35-45 | the targets are tagged with the root's path; each comes from a schema the reference-following walk marked that is not the root and has a `Ref`; every such schema contributes its target; no de-duplication |
| SchemaGraph.TypeOfCalls | pkg/markdown/utils.go:187-197 | keeps exactly the called schemas that have `allOf`, `anyOf` or `oneOf`, in call order and without repeats when the calls have none |
| SchemaGraph.FindTypeOfs | pkg/markdown/utils.go:184-199 | the result has no repeats and holds exactly the schemas that the walk without references marks and that have `allOf`, `anyOf` or `oneOf`, each tagged with the root's path |
| SchemaGraph.UniqueRedundant | pkg/markdown/utils.go:186-195 | the `unique` set of `FindTypeOfs` never changes the result, since the walk calls each location once |
| SchemaGraph.TestWalkFollowRefs | pkg/markdown/schema_test.go:32-41 | on the test graph the walk with references calls a, b, c, d and e, each once |
| SchemaGraph.TestWalkNoRefs | pkg/markdown/schema_test.go:43-52 | without references it calls a, c, d and e, each once, and never b |
| SchemaGraph.TestWalkCycle | pkg/markdown/schema_test.go:54-67 | on a two-schema reference cycle the walk ends, having called a then b |
| SchemaGraph.CycleDefinitions | pkg/markdown/schema.go:38-40 | the root-location check is on the referring schema, so in the cycle the root itself comes back as a definition |
| SchemaGraph.TestDefinitions | pkg/markdown/schema_test.go:13-25 | the test graph's root has only b as a definition target, and gets it exactly twice: once from d and once from e |
| SchemaGraph.TestFindTypeOfs | pkg/markdown/utils.go:184-199 | on the test graph only the root combines subschemas, and it is found once |
| Json.Get | pkg/markdown/schema.go:27 | a lookup finds nothing exactly when the key is absent |
| Json.GetFirst | pkg/markdown/schema.go:27 | a lookup gives v exactly when v is the value of the first member with the key |
| Json.Put | pkg/markdown/converter.go:157 | after storing, the key holds the new value; an existing key keeps its position; a new key is added at the end |
| Json.PutOther | pkg/markdown/converter.go:157 | storing under one key leaves every other key's value unchanged |
| Json.PutDistinct | pkg/markdown/converter.go:157 | storing keeps the keys distinct |
| Json.RawSchemaId | pkg/markdown/schema.go:26-32 | the top-level `$id` when it is a string, "" when it is missing or not a string |
| Naming.Collapse | pkg/markdown/utils.go:22-23 | the result has only ASCII letters, digits and '-', never two dashes in a row, keeps the input's letters and digits in order, and is empty only for empty input |
| Naming.Tidy | pkg/markdown/utils.go:22-24 | the post-kebab normalisation produces only letters, digits and single dashes, with no dash at either end, and keeps the letters and digits of its input |
| Naming.Slugify | pkg/markdown/utils.go:20-25 | whatever `ToKebab` returns, the slug has only ASCII letters, digits and single '-', none at either end, and no '_'; it keeps the kebab text's letters and digits in order |
| Naming.TidyIdempotent | pkg/markdown/utils.go:20-25 | normalising a slug again gives the same slug |
| Naming.TrimAnchorPath | pkg/markdown/utils.go:62-68 | the result is a prefix of the location with no '#'; without a '#' it is the whole location |
| Naming.AnchorPath | pkg/markdown/utils.go:72-78 | without a '#' the anchor is ""; otherwise `TrimAnchorPath` + "#" + the anchor gives back the location |
| Naming.AnchorRoundTrip | pkg/markdown/utils.go:60-78 | splitting `file#anchor` at its first '#', when the file part has none, gives back the two parts |
| Naming.FilenameWithoutExt | pkg/markdown/utils.go:48-50 | the stem holds no '/' unless it is "/" |
| Naming.StemThenExt | pkg/markdown/utils.go:48-50 | for any path with something other than '/' in it, the stem followed by the extension is the base name, and the stem has no '/' |
| Naming.TrailingSlashStem | pkg/markdown/utils.go:48-50 | for a path ending in '/', the extension is empty and the stem is the last directory name |
| Naming.FilenameWithoutExtFixtures | pkg/markdown/utils_test.go:214-224 | "test/ref.schema.json#" gives "ref.schema", "/sample/file.ext" gives "file", and "test/" (the location of the `FileName` test at utils_test.go line 191) gives "test" |
| Naming.IsInternalRef | pkg/markdown/utils.go:95-97 | an internal reference starts with the location, which has no '#'; a location without '#' is internal to itself |
| Naming.InternalRefMeaning | pkg/markdown/utils.go:95-97 | a reference is internal exactly when the location has no '#' and the reference is the location itself, or the location followed by '#' and a fragment |
| Naming.IsRemoteRef | pkg/markdown/utils.go:90-93 | a string starting with "http://" or "https://" is remote; a string without a newline is remote only then |
| Naming.IsRemoteRefMeaning | pkg/markdown/utils.go:90-93 | the expression matches exactly when some line of the string starts with "http://" or "https://" |
| Naming.RemoteRefSingleLine | pkg/markdown/utils.go:90-93 | for a string without a newline, a reference is remote exactly when it starts with "http://" or "https://" |
| Naming.RemoteRefFixtures | pkg/markdown/utils_test.go:132-146 | "https://spandigital.com", "http://ref.schema.json#" and "http://json-schema.org/draft-06/schema#" are remote |
| Naming.LocalRefFixtures | pkg/markdown/utils_test.go:132-146 | a "file://" scheme, "http:/" with one slash and "https//" without the colon are not remote |
| Naming.InternalRefFixtures | pkg/markdown/utils_test.go:148-161 | against "http://ref.schema.json": another site is not internal; the location itself, with an empty anchor, or with "#/properties/attributes" is |
| Naming.FileName | pkg/markdown/utils.go:152-158 | the result is a slug: the title's slug when that has a letter or digit, otherwise the slug of the location's file stem |
| Naming.FileNameIgnoresLocation | pkg/markdown/utils.go:152-158 | when the title has a letter or digit, the location makes no difference and the name is non-empty |
| Naming.FilePath | pkg/markdown/utils.go:160-171 | a location without '#' gives "" |
| Naming.FilePathShape | pkg/markdown/utils.go:160-171 | split at the last '#': an anchor starting "#/definitions" gives the stem slug followed by "/definitions" (just "definitions" when the stem slug is empty); any other anchor gives the stem slug |
| Naming.SchemaFilePathFixtures | pkg/markdown/utils_test.go:163-176 | with `ToKebab` giving "ref-schema" for "ref.schema": the two "#/definitions/..." locations give "ref-schema/definitions", and "#/attributes", "#/attributes/dimensions" and the bare "#" give "ref-schema" |
| TemplateFuncs.FirstNonEmpty | pkg/markdown/utils.go:99-106 | the result is "" exactly when every argument is empty; otherwise it is one of the arguments, and no earlier argument is non-empty |
| TemplateFuncs.EscapeRegex | pkg/markdown/utils.go:133-136 | the result is the escaped pattern in backticks |
| TemplateFuncs.UnescapeEscape | pkg/markdown/utils.go:133-136 | escaping loses nothing: dropping each backslash before a pipe gives the pattern back |
| TemplateFuncs.PipesEscaped | pkg/markdown/utils.go:134 | every pipe in the escaped text directly follows a backslash |
| TemplateFuncs.NoPipeRegex | pkg/markdown/utils.go:133-136 | a pattern without a pipe is only wrapped in backticks |
| TemplateFuncs.EscapeAppend | pkg/markdown/utils.go:134 | escaping a concatenation escapes each part |
| TemplateFuncs.EscapeRegexFixtures | pkg/markdown/utils_test.go:105-116 | the alternation "^(abc…d)$" comes back in backticks with each of its three pipes preceded by a backslash; "^\\W$" and "^" are only wrapped in backticks |
| TemplateFuncs.LookupRegex | pkg/markdown/utils.go:138-146 | an unknown expression gives ""; a known one gives its recorded pattern, escaped and in backticks |
| TemplateFuncs.Dict | pkg/markdown/utils.go:27-40 | an odd argument count fails with "invalid dict call"; a non-string key fails with "dict keys must be strings"; otherwise the map has a key for every key position, bound to the value after that key's last occurrence |
| TemplateFuncs.DictStep | pkg/markdown/utils.go:32-38 | storing one more pair keeps the dictionary equal to the one the pairs so far describe |
| TemplateFuncs.NameAgeDict | pkg/markdown/utils_test.go:23-28 | the only dictionary the pairs ("Name", "Joe"), ("Age", 1) describe is {Name: Joe, Age: 1} |
| TemplateFuncs.DictFixtures | pkg/markdown/utils_test.go:22-35 | `Dict` builds {Name: Joe, Age: 1}, refuses three arguments as an invalid call, and refuses a number in key position |
| TemplateFuncs.IndexOf | pkg/markdown/utils.go:201-208 | -1 exactly when the value is absent; otherwise the 1-based position of its first occurrence |
| Weights.Lookup | pkg/markdown/utils.go:225 | nothing exactly when the key is absent; otherwise the value stored under it |
| Weights.WeightIn | pkg/markdown/utils.go:218-239 | a weight is -1 or a position counted from 1 |
| Weights.GetWeight | pkg/markdown/utils.go:211-240 | a file that has no recorded order gives -1; every weight is -1 or at least 1 |
| Weights.WeightIsPosition | pkg/markdown/utils.go:218-239 | a weight is the 1-based position of the last segment among the keys of one map of the tree (its first occurrence there), and -1 exactly when no level is reached or that level lacks the segment |
| Weights.MissingKeyWeight | pkg/markdown/utils.go:225-228 | a missing key before the last segment gives -1 |
| Weights.PositionWeight | pkg/markdown/utils.go:221-222 | within one level, a key's weight is its index plus one |
| Weights.LeafKeepsLevel | pkg/markdown/utils.go:230-236 | a segment naming a value that is not a map leaves the level unchanged |
| Weights.AnchorSegments | pkg/markdown/utils.go:218-219 | for a location "#/" + segments joined by '/', the weight is taken over exactly those segments |
| Weights.FixtureDeepest | pkg/markdown/utils_test.go:267-295 | on the test tree, "#/a/b/c" weighs 3 |
| Weights.FixtureMissingLeaf | pkg/markdown/utils_test.go:267-295 | "#/a/b/z" weighs -1 |
| Weights.FixtureMiddle | pkg/markdown/utils_test.go:267-295 | "#/a/b" weighs 2 |
| Weights.FixtureTop | pkg/markdown/utils_test.go:267-295 | "#/a" weighs 1 |
| Weights.FixtureRoot | pkg/markdown/utils_test.go:267-295 | the bare anchor "#" (one empty segment) weighs -1 |
| Patterns.RewriteDepth | pkg/markdown/converter.go:232-251 | neither middleware makes a value nest deeper, which bounds the recursion of `applyMiddleware` |
| Patterns.MiddlewareKeeps | pkg/markdown/converter.go:155-159 | the middleware loop keeps the object's keys and only adds table entries, each keyed by the hash of its value |
| Patterns.ApplyOneKeeps | pkg/markdown/converter.go:155-159 | one middleware entry that does not panic keeps the object's keys and only adds valid table entries |
| Patterns.ApplyOneOther | pkg/markdown/converter.go:155-159 | one middleware entry leaves the value under every other key as it was |
| Patterns.ApplyObject | pkg/markdown/converter.go:154-166 | a rewrite that does not panic keeps the object's keys and only adds table entries, each keyed by the hash of its value |
| Patterns.DescendMembers | pkg/markdown/converter.go:161-165 | the descent keeps the keys and only adds table entries |
| Patterns.DescendKeepsFlat | pkg/markdown/converter.go:161-165 | a member that is not an object (an array included) is left exactly as it was |
| Patterns.DescendKeepsObject | pkg/markdown/converter.go:161-165 | an object member becomes the recursive rewrite of that object, under the table built so far, and the table only grows |
| Patterns.NestedInApply | pkg/markdown/converter.go:154-166 | after the middleware, an object under a key other than `pattern` and `patternProperties` is replaced by its own recursive rewrite |
| Patterns.PatternRewrittenAt | pkg/markdown/converter.go:154-166 | a string `pattern` p reached through any chain of other keys becomes hash(p) there, and hash(p) is recorded |
| Patterns.PatternRewritten | pkg/markdown/converter.go:244-249 | a string `pattern` value p becomes hash(p), and the table gets hash(p) ↦ p |
| Patterns.PatternNotStringPanics | pkg/markdown/converter.go:245 | a `pattern` value that is not a string makes the rewrite panic |
| Patterns.PatternPropertiesNotObjectPanics | pkg/markdown/converter.go:235 | a `patternProperties` value that is not an object makes the rewrite panic |
| Patterns.RekeyMembers | pkg/markdown/converter.go:237-241 | when no two names hash alike, each `patternProperties` member moves to its name's hash with its value unchanged |
| Patterns.RekeyRecords | pkg/markdown/converter.go:237-240 | with an injective hash the table maps the hash of every name back to that name |
| Patterns.RekeyTable | pkg/markdown/converter.go:237-240 | re-keying keeps every table entry's key and only adds valid entries |
| Patterns.RekeyCovers | pkg/markdown/converter.go:237-240 | every name's hash ends up in the table |
| Patterns.RekeyFrame | pkg/markdown/converter.go:237-240 | a table entry that no name hashes to keeps its value |
| Patterns.LookupRecovers | pkg/markdown/utils.go:138-146 | with an injective hash, a table built this way gives the template back the original expression, escaped |
| Patterns.PatternPropertiesRewritten | pkg/markdown/converter.go:234-243 | an object `patternProperties` ends up keyed by the hashes of its names, in order, and each hash is recorded |
| Patterns.TestSchemaRewritten | pkg/markdown/converter_test.go:125-143 | on the test schema both occurrences of "a" become hash("a"), and the table maps hash("a") to "a" |
| Patterns.PropertyNamedPatternPanics | pkg/markdown/converter.go:156-163 | a property named "pattern" whose value is a schema object makes the rewrite panic |
| Patterns.PatternInAllOfMissed | pkg/markdown/converter.go:161-165 | a `pattern` inside an `allOf` list is left unhashed |
| Patterns.FixSchema | pkg/markdown/converter.go:154-166 | the schema-aware rewrite keeps objects as objects with the same keys, leaves other values alone and only adds valid table entries |
| Patterns.FixRewritesPattern | pkg/markdown/converter.go:244-249 | in the schema-aware rewrite a string `pattern` keyword becomes its hash, and the hash is recorded |
| Patterns.FixRecovers | pkg/markdown/converter.go:244-249 | with an injective hash the schema-aware table gives back every rewritten expression |
| Patterns.FixPropertyNamedPattern | pkg/markdown/converter.go:156-163 | the schema-aware rewrite leaves a property named "pattern" alone, without panicking |
| Patterns.FixPatternInAllOf | pkg/markdown/converter.go:161-165 | the schema-aware rewrite hashes an expression inside `allOf` |
| Patterns.FixTestSchema | pkg/markdown/converter_test.go:125-143 | on the test schema the schema-aware rewrite gives the same result as the original |
| FilePaths.Parse | pkg/markdown/converter.go:206 | the cleaned path is clean, and rooted exactly when the string starts with '/' |
| FilePaths.ParseRender | pkg/markdown/converter.go:206 | cleaning is the identity on its own results |
| FilePaths.RenderInjective | pkg/markdown/converter.go:207 | two clean paths render alike exactly when they are equal |
| FilePaths.DirIsParent | pkg/markdown/converter.go:226 | `filepath.Dir` of a cleaned path is the path with its last element dropped |
| FilePaths.BaseOfRender | pkg/markdown/converter.go:220 | `filepath.Base` of a cleaned path is its last element |
| FilePaths.JoinNames | pkg/markdown/converter.go:211 | joining plain names onto a path appends them to its cleaned elements |
| IndexFiles.MkdirAll | pkg/markdown/converter.go:216 | the path and all its ancestors become directories, nothing else does, and no file changes |
| IndexFiles.CreateIndex | pkg/markdown/converter.go:203-227 | as written: no directory or file is lost or changed, and afterwards the cleaned path renders as the destination string or has a section file |
| IndexFiles.CreateIndexFixed | pkg/markdown/converter.go:203-227 | comparing cleaned paths: no directory or file is lost or changed, and afterwards the path cleans to the destination or has a section file |
| IndexFiles.CreateIndexFrom | pkg/markdown/converter.go:204-227 | no directory or file is lost or changed, and afterwards the path is the destination or has a section file |
| IndexFiles.IndexStepPaths | pkg/markdown/converter.go:206-226 | the string steps (clean, join `_index.md`, base, dir) are the section-file, last-name and parent operations on the cleaned path |
| IndexFiles.AtDestination | pkg/markdown/converter.go:207-209 | at the destination nothing is written |
| IndexFiles.ExistingIndex | pkg/markdown/converter.go:211-214 | an existing section file stops the climb, with nothing written there or above |
| IndexFiles.CreateIndexIdempotent | pkg/markdown/converter.go:204-227 | a second call on the same path changes nothing |
| IndexFiles.OnlySections | pkg/markdown/converter.go:220-222 | every file the climb adds is a section file whose front matter names its own directory |
| IndexFiles.FreshChain | pkg/markdown/converter.go:216-226 | climbing through fresh directories that are not the destination writes one section file per directory, titled with its name; when the climb starts below the destination nothing else is added |
| IndexFiles.CreateIndexFixedBelow | pkg/markdown/converter.go:204-227 | comparing cleaned paths, a path at or below the destination gets section files only below the destination |
| IndexFiles.OvershootAsWritten | pkg/markdown/converter.go:206-209 | as written, a destination that is not already clean is never recognised, and the climb writes a section file in the destination itself |
| IndexFiles.OvershootContentReference | pkg/markdown/converter.go:206-209 | with destination "./content/reference", the climb from "content/reference/x" writes content/reference/_index.md |
| IndexFiles.FixedStopsAtDestination | pkg/markdown/converter.go:204-227 | comparing cleaned paths, the climb from a fresh directory below the destination writes exactly one section file per directory strictly below it, and none in the destination |
| IndexFiles.CleanDestinationStops | pkg/markdown/converter.go:206-209 | for an already clean destination the comparison as written stops correctly |
| IndexFiles.CleanDestinationAgrees | pkg/markdown/converter.go:206-209 | for a destination that `filepath.Clean` leaves unchanged, the climb as written and the corrected climb give the same filesystem |
| IndexFiles.CreateIndexNested | pkg/markdown/converter_test.go:117-123 | with destination "/a", the climb from /a/b/c/d writes section files in /a/b/c/d, /a/b/c and /a/b, titled d, c and b, and nothing else |
| Converter.RemoveDestination | pkg/markdown/converter.go:49-58 | "", "." and a destination ending in "/." are refused by `os.RemoveAll` and nothing changes; for any other destination every file and directory at or below it is removed, and everything else stays, with its contents |
| Converter.DefaultDestination | cmd/convert.go:16 | the default destination "." is already clean, and `os.RemoveAll` refuses it |
| Converter.AsWrittenWhenClean | pkg/markdown/converter.go:183-227 | for an already clean destination, a successful step leaves exactly the filesystem of `createIndex` as written followed by the page write |
| Converter.ConvertToMarkdown | pkg/markdown/converter.go:183-201 | a step fails exactly when the template fails, and then reports that schema; on success the schema is marked converted and its page is recorded |
| Converter.ConvertToMarkdownWrites | pkg/markdown/converter.go:184-200 | the page file holds the template's text; its directory is the destination or has a section file; nothing that existed disappears |
| Converter.PageDirBelow | pkg/markdown/converter.go:184 | every page directory is the destination or below it |
| Converter.PageFileJoin | pkg/markdown/converter.go:190-191 | the page file is the page directory joined with `name`.md |
| Converter.ConvertDefinitions | pkg/markdown/converter.go:93-102 | a failure is a template failure on one of the definitions |
| Converter.DefinitionsPages | pkg/markdown/converter.go:93-102 | the definitions loop only appends pages, none of them a root page |
| Converter.DefinitionsConverted | pkg/markdown/converter.go:93-102 | after the definitions loop every definition is converted, and nothing already converted is forgotten |
| Converter.ConvertRound | pkg/markdown/converter.go:88-102 | a round of the roots loop fails only on a schema the template fails on |
| Converter.ConvertRoots | pkg/markdown/converter.go:87-103 | the roots loop fails only on a schema the template fails on |
| Converter.RootsPages | pkg/markdown/converter.go:87-103 | the roots loop writes the roots' pages in order, each followed only by definition pages |
| Converter.RootsConverted | pkg/markdown/converter.go:87-103 | after the roots loop every definition of every root is converted |
| Converter.StepInv | pkg/markdown/converter.go:183-201 | one page step keeps the run's invariant: converted set and page list in step, every page's file present in a section directory, nothing else below the destination, everything outside it untouched |
| Converter.DefinitionsInv | pkg/markdown/converter.go:93-102 | the definitions loop keeps the invariant, and each page it writes is for a location that is neither a root nor already written |
| Converter.RootsInv | pkg/markdown/converter.go:87-103 | the roots loop keeps the invariant |
| Converter.Convert | pkg/markdown/converter.go:60-106 | a run fails only on a schema the template fails on |
| Converter.ConvertSound | pkg/markdown/converter.go:60-106 | after a successful run: every page's file exists, in a section directory; unless `os.RemoveAll` refused the destination (as it does for the default "."), below the destination there is nothing else; outside it nothing changed; no definition page is for a root or repeats an earlier page; the root pages are the roots in order; every definition of every root is converted |
| Converter.ConvertOnce | pkg/markdown/converter.go:83-100 | when the roots have distinct locations, no location is rendered twice |
| Converter.ConvertTotal | pkg/markdown/converter.go:60-106 | a run whose template never fails succeeds |
| Config.ReferenceUrl | pkg/markdown/config.go:15-23 | without "content/" in the destination the URL is "reference"; with it, "content/" followed by the URL is a suffix of the destination |
| Config.ReferenceUrlScan | pkg/markdown/config.go:15-23 | the URL agrees with a left-to-right scan for "content/": "reference" exactly when there is none, otherwise the rest after the first one, so the length guard never fires |
| Config.ReferenceUrlFirst | pkg/markdown/config.go:17-22 | with "content/" first found at k, the URL is everything after it, and the destination is what comes before, then "content/", then the URL |
| Config.NestedReference | pkg/markdown/config.go:17-22 | a destination front + "content/" + rest, where front has no "content/", has rest as its URL |
| Config.ReferenceUrlContentReference | pkg/markdown/config_test.go:10 | "./content/reference" gives "reference" |
| Config.ReferenceUrlNested | pkg/markdown/config_test.go:12 | "./content/reference/sample" gives "reference/sample" |
| Config.ReferenceUrlMissing | pkg/markdown/config_test.go:11-13 | "not-valid" and "content" give "reference" |

## Left out

- File I/O and the command line: `FindFiles` and `filterFiles` (pkg/markdown/fs.go), `loadSchema`'s reading and decoding, `AppFS.Create`, and cmd/. Nothing of these is part of the computation modelled.
- The JSON Schema compiler (`compileSchemas`, with its HTTP loader) and the templates (`parseTemplates`, `ExecuteTemplate`). They are library code. The compiled schemas arrive as a graph plus a list of roots, and rendering is a parameter.
- `Hash` and `Ref` (MD5), `strcase.ToKebab`, `Title` (x/text cases), and `Humanize` (`url.PathUnescape`). They are foreign library calls. `Hash` and `ToKebab` are uninterpreted parameters. `Title`, `Humanize` and `GetPermalink` (which is built on `Humanize`) are not modelled.
- `IsSlice` and `IsSchema`: they use runtime reflection on Go types, which has no counterpart here.
- `Join`, `Slice`, `Append` and `FuncMap`: thin wrappers over the Go standard library.
- pkg/markdown/model.go is not part of this model. It is a superseded duplicate of `Config` and `RawSchema.Id`, which are modelled from config.go and schema.go.
- Filesystem errors: `MkdirAll`, `WriteFile`, `Stat` and `Create` failing. Of `os.RemoveAll`'s errors only its refusal of "", "." and paths ending in "/." is modelled, as removing nothing; `Clean` returns that error and `Convert` ignores it.
- Converter.ConvertToMarkdown: a template failure ends the run with the failing schema and no state. The source would leave a created, partly written page file behind.
- Converter.ConvertToMarkdown: pages with the same directory and name overwrite one another. The model records both pages but keeps only the last text.
- Converter.ConvertToMarkdown: uses the corrected `createIndex` (`IndexFiles.CreateIndexFixed`), not the one as written; see Findings. For a destination `filepath.Clean` leaves unchanged, the default "." among them, the two agree (`IndexFiles.CleanDestinationAgrees`, `Converter.AsWrittenWhenClean`).
- Patterns.Middleware: Go visits the two middleware entries in map order. The model runs `patternProperties` first. The two steps read and write different keys, and each panics on its own input, so the order changes nothing.
- Naming.Slugify: states the shape of the slug and its letters and digits, not the exact slug, because `strcase.ToKebab` is a parameter.
- Naming.IsRemoteRef: the expression carries the `(?m)` flag, so `^` also matches after a newline. The model keeps that behaviour. "Starts with http(s)://" is proved only for strings without a newline.
- SchemaGraph.TestWalkFollowRefs: the repository's tests compare the calls order-free, so the fixtures state the set of calls and that there are no repeats, not their order.
- SchemaGraph.Walk: the order of children inside `Properties`, `DependentSchemas` and `PatternProperties` is a parameter of the graph. It is not fixed, because Go maps have no order.
- SchemaGraph.Walk: the `If` slot is never walked by the source, so the model has no edge for it.
- The test expecting `{{%baseurl%}}` in a permalink, and the clean test's undefined root path: `GetPermalink` and `Clean` with real I/O are not modelled.

## Findings

| source | as written | input that shows it | evidently intended | confidence | as-written member | corrected member |
|---|---|---|---|---|---|---|
| pkg/markdown/converter.go:206-209 | the cleaned path is compared with `Destination` as given, which is not cleaned | destination "./content/reference", path "content/reference/x": the climb passes the destination and writes content/reference/_index.md and content/_index.md | stop at the destination whatever its spelling: compare cleaned paths | not executed | IndexFiles.OvershootAsWritten | IndexFiles.FixedStopsAtDestination |
| pkg/markdown/converter.go:156-163 | the middleware runs on every object, so in `{"properties": {"pattern": {...}}}` the property named "pattern" reaches `prop.(string)` | `{"properties": {"pattern": {"type": "string"}}}` panics | rewrite only the `pattern` keyword of a schema, not a property of that name | not executed | Patterns.PropertyNamedPatternPanics | Patterns.FixPropertyNamedPattern |
| pkg/markdown/converter.go:161-165 | only object values are descended; subschemas in arrays are skipped | `{"allOf": [{"pattern": "a"}]}` keeps "a" unhashed, so it reaches the compiler | rewrite `pattern` in every subschema, lists included | not executed | Patterns.PatternInAllOfMissed | Patterns.FixPatternInAllOf |
