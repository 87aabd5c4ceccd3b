# iJWT include engine in Dafny

iJWT assembles an HTML page in the browser. Each placeholder element is one
whose `id` starts with `ijwt_`, for example `<div id="ijwt_header.html">`.

The engine works in five steps:

- It finds every placeholder in the page.
- It fetches the named file from the first site directory that answers. In production mode it reads from `localStorage` first and writes back to it.
- It builds an include tree by repeating this on every fetched file.
- It splices each child's document into its parent's placeholder.
- Afterwards, two cleanup passes run. `cache_manager` captures or restores `.ijwt_cache` elements. `remove_tags` deletes `.ijwt_remove` elements.

This project models the `iJWT` class of `source/ijwt.ts` and proves properties of it.
`build/static/scripts/ijwt.js` is the same class compiled line for line, so one
model covers both. The older string-offset engine of `static/scripts/ijwt.js`
is modelled separately in module `Legacy`.

The modules follow the structure of the program:

| module | file | models |
|---|---|---|
| `Cache` | cache.dfy | the `ijwt_`-namespaced key-value store behind `cache_control` |
| `Resolver` | resolver.dfy | the ordered directory search of `fetch_file_data` and `search_directories` |
| `Dom` | dom.dfy | documents as flat item sequences, and `get_files_wanted` |
| `Scanner` | scanner.dfy | `extract_file_names`: the global match of `/ijwt_(?<file_name>.*)/gm` |
| `Tree` | tree.dfy | `Node` and the function `generate_node_tree` computes |
| `Collapser` | collapse.dfy | `collapse_node_tree`, including its `for…in` / `shift()` interplay |
| `Url` | url.dfy | `url_qualifier` and the constructor's `site_base` |
| `Hash` | hash.dfy | `hasher` over UTF-16 code units with 32-bit wrap-around, and `Number.prototype.toString` |
| `Cleanup` | cleanup.dfy | `cache_manager` and `remove_tags` |
| `Engine` | engine.dfy | the class itself: a `class IJwt` whose `storage` field is `localStorage` |
| `Legacy` | legacy.dfy | `file_search_exp`, `search_file`, `search_directives`, `Node.add`, `build_tree` |

Each method of `Engine.IJwt` keeps the loop of the source and is proved to compute a function in the
module that specifies it. The properties the source promises are lemmas about those functions.

Two behaviours of the code are modelled as written even though they look unintended:

- **Collapse.** The loop of `collapse_node_tree` evidently means to visit every child. But it shifts `node.children` while iterating over it with `for (const index in node.children)`, so only the first ⌈n/2⌉ children are spliced (see Findings).
  - Nothing realigns children with placeholders whose fetch was skipped: child k goes to the k-th placeholder (`Collapser.CollapseAfterMissingFile`).
- **Legacy `build_tree`.** The first loop adds a child for every marker, even when the fetch failed.
  - Such a child is built from `undefined`, which takes the default argument, so it is rebuilt from the base page (`Legacy.MissingFileRebuildsBase`).

## Model

| member | source | states |
|---|---|---|
| Cache.Get | source/ijwt.ts:81-84 | a value is returned only when it is non-empty and stored under `ijwt_`+name; absent exactly when the key is missing or holds `""` |
| Cache.KeyInjective | source/ijwt.ts:78-82 | distinct names use distinct storage keys |
| Cache.GetAfterSet | source/ijwt.ts:78-84 | `get` after `set(name, d)` gives `d`, or absent when `d` is empty |
| Cache.GetAfterSetOther | source/ijwt.ts:78-84 | `set` of one name leaves `get` of every other name unchanged |
| Cache.GetAfterDelete | build/static/scripts/ijwt.js:59-66 | after `delete(name)`, `get(name)` is absent and other names are unaffected |
| Cache.ClearEmpties | build/static/scripts/ijwt.js:61-62 | `clear` removes every key of the store, `ijwt_` or not |
| Engine.IJwt.CacheControl | source/ijwt.ts:69-86 | per action: the new store is set/delete/clear of the old one, or unchanged for `get`, which returns `Cache.Get` |
| Resolver.FirstOk | source/ijwt.ts:96-116 | the index found answers OK and no earlier directory does; absent exactly when no directory answers |
| Resolver.FetchCacheFirst | source/ijwt.ts:89-95 | production with a non-empty cached value: that value, the store unchanged, and no dependence on the network |
| Resolver.FetchFirstMatch | build/static/scripts/ijwt.js:77-96 | without a cache hit: absent iff every directory fails; otherwise the body of the first directory that answers |
| Resolver.FirstOkIgnoresLater | source/ijwt.ts:96-116 | once a directory answers, appending more directories changes nothing: later ones are never tried |
| Resolver.FetchIgnoresLater | source/ijwt.ts:96-135 | the same for `fetch_file_data` and `search_directories` |
| Resolver.FetchDevelopmentKeepsStore | source/ijwt.ts:105-112 | in development mode the store is never written, and the result is the directory lookup |
| Resolver.FetchProductionStores | build/static/scripts/ijwt.js:83-89 | in production without a cache hit, a found body is stored, so a later `get` returns it when non-empty |
| Resolver.FetchAfterDelete | source/ijwt.ts:89-117 | after the entry is deleted, the result comes from the directories whatever the mode |
| Resolver.FetchEffective | source/ijwt.ts:88-118 | a fetch returns the effective content of the file (cache, then directories) and changes no file's effective content |
| Resolver.SearchAgreesWithLookup | source/ijwt.ts:120-135 | `search_directories` finds a URL exactly when `fetch_file_data` finds a body, and that body is the one at the URL |
| Engine.IJwt.FetchFileData | source/ijwt.ts:88-118 | the loop returns the result and leaves the store of `Resolver.Fetch` |
| Engine.IJwt.SearchDirectories | source/ijwt.ts:120-135 | the loop returns the URL of `Resolver.Search` |
| Dom.GetFilesWanted | source/ijwt.ts:137-147 | every position returned holds a matching item, and the positions are in strictly increasing document order |
| Dom.GetFilesWantedComplete | build/static/scripts/ijwt.js:112-116 | every matching item is returned |
| Scanner.LineEnd | source/ijwt.ts:152 | a greedy `.*` stops at the first line terminator or at the end |
| Scanner.IdMatchesPlaceholder | source/ijwt.ts:152-154 | an `ijwt_` id yields at least one name; a line-free id yields exactly its remainder |
| Scanner.ExtractExact | source/ijwt.ts:149-158 | line-free placeholder ids give one name each, in element order, the id without `ijwt_` |
| Scanner.ExtractAtLeastOne | build/static/scripts/ijwt.js:117-124 | every placeholder element contributes at least one name |
| Scanner.FileNamesExact | source/ijwt.ts:137-158 | a document's names: one per placeholder, in document order, each the id without its prefix |
| Scanner.FileNamesNone | source/ijwt.ts:145-158 | a document without placeholders asks for no file |
| Scanner.FileNamesOfPlaceholders | source/ijwt.ts:149-158 | scanning placeholders made from line-free names gives back those names |
| Scanner.FileNamesExample | __tests__/ijwt.ts:13-28 | `ijwt_header.html`, `ijwt_footer.html` give `header.html`, `footer.html` |
| Tree.Node.Add | source/ijwt.ts:27-29 | the child goes last and the earlier children stay unchanged |
| Tree.Texts | source/ijwt.ts:173-175 | only non-empty texts are kept, at most one per name, and each is what the source gives for one of the names |
| Tree.PureChildrenSpec | source/ijwt.ts:173-182 | children are built from the texts one for one; the build fails exactly when some child's build fails |
| Tree.BuildIsPure | source/ijwt.ts:160-185 | the tree built with the store equals the reference tree over effective file contents, and building keeps the store in agreement |
| Tree.BuildChildrenIsPure | build/static/scripts/ijwt.js:131-141 | the loop appends, in scan order, one child per placeholder with non-empty content and skips the others |
| Tree.BuildLeaf | source/ijwt.ts:165-169 | a document without placeholders is a leaf, and the store is untouched |
| Tree.PureBuildPlaceholders | source/ijwt.ts:171-184 | a body of placeholders gets exactly the children built from its non-empty texts |
| Tree.PureBuildFromTexts | source/ijwt.ts:171-184 | when every non-empty text builds, those trees are the children, in order |
| Tree.PureBuildSingle | source/ijwt.ts:171-184 | one placeholder with non-empty content gives one child |
| Tree.TextsRepeated | source/ijwt.ts:173-175 | a name repeated n times is fetched into n texts |
| Tree.PureBuildRepeated | source/ijwt.ts:171-184 | n placeholders for the same file give n equal children |
| Tree.BuildFanOut | __tests__/ijwt.ts:111-131 | three `header` placeholders, each holding two `footer` placeholders, give 3 children with 2 leaves each |
| Tree.BuildChain | __tests__/ijwt.ts:85-109 | the chain header→bread→footer puts the footer's document at depth 3 |
| Tree.BuildChainFromCache | __tests__/ijwt.ts:85-109 | the same chain, read from the production cache, through the store-threading builder |
| Engine.IJwt.GenerateNodeTree | source/ijwt.ts:160-185 | the recursive loop returns the tree and leaves the store of `Tree.Build` |
| Collapser.CeilHalf | source/ijwt.ts:193-194 | ⌈n/2⌉ is between 1 and n for n ≥ 1, and at least the half not visited |
| Collapser.VisitedWhileBelowLength | source/ijwt.ts:193-194 | key i is visited exactly while i < n − i, the length left after i shifts, i.e. i < ⌈n/2⌉ |
| Collapser.ShiftedVisit | build/static/scripts/ijwt.js:149-150 | at a visited key the shifted array's head is the child with that index |
| Collapser.ShiftedEnd | source/ijwt.ts:193-197 | after the loop, ⌈n/2⌉ children were taken and the rest remain in `node.children` |
| Collapser.SubstituteAt | source/ijwt.ts:195-196 | in the result, child k's body stands where the k-th placeholder was, with the text around it kept |
| Collapser.SplicedStep | source/ijwt.ts:195-196 | replacing `elements[k]`, moved by the growth of earlier splices, keeps the document equal to the first k+1 substitutions |
| Collapser.SplicedEnd | source/ijwt.ts:192-198 | after the loop the document is the placeholders substituted by the visited children's bodies |
| Collapser.CountSubstitute | source/ijwt.ts:192-198 | placeholders after splicing: those not replaced plus those the spliced bodies bring |
| Collapser.CollapseChildren | source/ijwt.ts:193-197 | when the children collapse, there is one body per visited child |
| Collapser.CollapseChildrenFails | source/ijwt.ts:193-197 | a child whose collapse throws makes the whole collapse throw |
| Collapser.CollapseComplete | source/ijwt.ts:187-199 | splicing every child, a tree with one child per placeholder collapses to a document with no placeholder left |
| Collapser.CollapseLeavesPlaceholders | source/ijwt.ts:193-197 | as written, with n ≥ 2 children for n placeholders, at least ⌊n/2⌋ placeholders remain |
| Collapser.CollapseSingle | source/ijwt.ts:187-199 | a lone placeholder collapses to its child's collapse |
| Collapser.CollapseChain | __tests__/ijwt.ts:133-155 | the header→bread→footer chain collapses to the footer's document |
| Collapser.CollapseKeepsContent | __tests__/ijwt.ts:157-171 | an included document, scripts and all, comes out item for item |
| Collapser.CollapseTwoLeaves | source/ijwt.ts:193-197 | two placeholders, two leaves: as written only the first is spliced; splicing every child gives both |
| Collapser.CollapseDropsSecondChild | build/static/scripts/ijwt.js:149-153 | the concrete input of the finding: `b.html` stays a placeholder |
| Collapser.CollapseOneOfTwo | source/ijwt.ts:192-197 | a single child goes into the first placeholder and the second is left |
| Collapser.CollapseAfterMissingFile | source/ijwt.ts:173-197 | when the first file is missing, the second file's content lands in the first placeholder |
| Engine.IJwt.CollapseNodeTree | source/ijwt.ts:187-199 | the loop returns `Collapser.Collapse` as written, and the node's remaining children are the unvisited half |
| Url.QualifierShapeIsRegex | source/ijwt.ts:202 | a direct description of the suffix shape is equivalent to matching `(\w.*\|\.)+$` |
| Url.QualifierStart | source/ijwt.ts:202 | the position found is the leftmost at which the suffix matches; none when no position does |
| Url.UrlQualifier | source/ijwt.ts:201-204 | there is a result exactly when some suffix matches; the result is the site base plus the leftmost matching suffix |
| Url.NoMatchInPrefix | source/ijwt.ts:202 | no match starts inside a leading run of `.` and `/` that ends in `/` |
| Url.Reroot | source/ijwt.ts:201-204 | any relative prefix of dots and slashes before a word is dropped and replaced by the site base |
| Url.RerootAllSpellings | __tests__/ijwt.ts:175-208 | all six spellings `../`, `../../`, `/../../`, `./../`, `./` and a bare path give site base + `static/css/global.css` |
| Url.QualifierThrows | source/ijwt.ts:202-203 | a URL of only dots and slashes ending in `/` has no match (the source throws) |
| Url.SlashAhead | source/ijwt.ts:56 | the lazy `.*?(?=\/)` stops at the first `/` before a line terminator |
| Url.FirstOriginMatch | build/static/scripts/ijwt.js:45 | the match found is the leftmost `https?://…` followed by a `/` |
| Url.SiteBase | source/ijwt.ts:56-57 | the first origin match followed by `site_path`, or `""` when there is none |
| Url.SiteBaseOfOrigin | source/ijwt.ts:56-57 | for `scheme + host + "/" + rest`, the site base is `scheme + host + site_path` |
| Url.SiteBaseDefault | __tests__/ijwt.ts:5-7 | `http://localhost/` with the default path gives `http://localhost/` |
| Url.SiteBaseWithPath | __tests__/ijwt.ts:9-10 | with `/D00264604/website/` it gives `http://localhost/D00264604/website/` |
| Engine.IJwt.constructor | source/ijwt.ts:41-61 | every option takes its default when absent, the site base is computed from the page address, and the store is the browser's |
| Hash.ToInt32 | source/ijwt.ts:219 | `\|0` gives a 32-bit signed value congruent to its argument modulo 2^32 |
| Hash.ToInt32Periodic | source/ijwt.ts:219 | adding a multiple of 2^32 does not change `\|0` |
| Hash.ToInt32Fixed | source/ijwt.ts:219 | `\|0` leaves a 32-bit value unchanged |
| Hash.CodeUnits | source/ijwt.ts:217 | a character is one UTF-16 unit below 0x10000 and a surrogate pair above it |
| Hash.Utf16 | source/ijwt.ts:216-217 | the string as UTF-16 code units, each below 0x10000, at least one per character |
| Hash.Utf16Bmp | source/ijwt.ts:216-217 | for characters below 0x10000, `charCodeAt(x)` is the x-th character's code |
| Hash.PolyHash | source/ijwt.ts:211-222 | the fold of `31h + c` wrapped to 32 bits is always a 32-bit signed value |
| Hash.ShiftLeft5 | source/ijwt.ts:218 | `h << 5` is a 32-bit signed value |
| Hash.LoopStepIsFoldStep | build/static/scripts/ijwt.js:171-172 | `((h << 5) - h + c) \| 0` equals `31h + c` wrapped to 32 bits |
| Hash.Hasher | source/ijwt.ts:211-222 | the loop returns the polynomial hash of the UTF-16 units, a 32-bit signed value |
| Hash.HashEmpty | source/ijwt.ts:214 | the empty string hashes to 0 |
| Hash.FoldStep | source/ijwt.ts:216-220 | one more code unit advances the hash by one wrapped step |
| Hash.HashHelloWorldUnits | __tests__/ijwt.ts:226 | the code units of `Hello world` |
| Hash.HashHelloWorldFold | __tests__/ijwt.ts:226 | those units hash to -832992604 |
| Hash.HashHelloWorld | __tests__/ijwt.ts:226-227 | `hasher("Hello world")` is -832992604 |
| Hash.HashHelloUnderscoreWorldUnits | __tests__/ijwt.ts:229 | the code units of `Hello_world` |
| Hash.HashHelloUnderscoreWorldFold | __tests__/ijwt.ts:229 | those units hash to 970643909 |
| Hash.HashHelloUnderscoreWorld | __tests__/ijwt.ts:229 | `hasher("Hello_world")` is 970643909 |
| Hash.DigitChar | source/ijwt.ts:232 | the decimal digit character of a value 0–9 |
| Hash.Digits | source/ijwt.ts:232 | the decimal digits of a natural number, at least one |
| Hash.NumberToString | source/ijwt.ts:230-232 | `toString()`: non-empty, with a leading `-` exactly for negative numbers |
| Hash.DigitsRoundTrip | source/ijwt.ts:232 | reading the digits back gives the number |
| Hash.NumberToStringRoundTrip | source/ijwt.ts:230-232 | parsing `toString()` gives back the number |
| Hash.NumberToStringInjective | source/ijwt.ts:230-240 | distinct hashes give distinct cache names |
| Cleanup.RemoveNoneLeft | source/ijwt.ts:248-252 | no `.ijwt_remove` element remains |
| Cleanup.RemoveLength | source/ijwt.ts:248-252 | exactly the matching items are removed |
| Cleanup.CountNone | source/ijwt.ts:249 | a body without matching items has none to select |
| Cleanup.RemoveSingle | source/ijwt.ts:249-251 | one item is dropped when it matches and kept otherwise |
| Cleanup.RemoveAppend | source/ijwt.ts:249-251 | removal works piece by piece, so every other item keeps its order |
| Cleanup.RemoveNothing | source/ijwt.ts:248-252 | a body without matching items is unchanged |
| Cleanup.RemoveIdempotent | source/ijwt.ts:248-252 | a second pass changes nothing |
| Cleanup.RemoveAround | source/ijwt.ts:249-251 | removing one matching item keeps the text after it |
| Cleanup.RemoveStep | source/ijwt.ts:249-251 | deleting the k-th selected element, moved back by the k already deleted, gives the state after k+1 removals |
| Cleanup.RemoveFinish | source/ijwt.ts:248-252 | after every selected element is deleted, the body is the filtered body |
| Cleanup.RemoveExample | __tests__/ijwt.ts:252-261 | the `deleteme` element is gone |
| Engine.IJwt.RemoveTags | source/ijwt.ts:248-252 | the loop's body is the body without `.ijwt_remove` elements |
| Cleanup.ManageCaches | source/ijwt.ts:224-246 | only inner HTML of elements can change; every item keeps its place, tag, id and classes |
| Cleanup.ManageCachesStep | source/ijwt.ts:229-245 | the pass handles the selected elements one at a time, in order |
| Cleanup.CacheFrame | source/ijwt.ts:229-245 | cache entries under other names are untouched |
| Cleanup.CacheDevelopmentKeepsBody | source/ijwt.ts:236-244 | in development mode the body never changes |
| Cleanup.CacheCapture | source/ijwt.ts:239-243 | with no prior entries and distinct keys, every element's inner HTML is stored and the body is unchanged |
| Cleanup.CacheRestore | source/ijwt.ts:236-237 | in production with entries for every element, each inner HTML becomes its entry, the rest of the body and the store are unchanged |
| Cleanup.KeysApart | source/ijwt.ts:230-233 | elements whose ids hash apart get distinct cache names |
| Cleanup.RestoreOther | build/static/scripts/ijwt.js:187-188 | restoring into a body that differs only in inner HTML gives back the captured body |
| Cleanup.CacheRoundTrip | __tests__/ijwt.ts:231-251 | capture then restore over an emptied copy reproduces the original body |
| Engine.IJwt.CacheManager | source/ijwt.ts:224-246 | the loop leaves the body and store of `Cleanup.ManageCaches` over the `.ijwt_cache` elements |
| Legacy.Marker | static/scripts/ijwt.js:119-121 | a marker `<!--ijwt_NAME-->` is 12 characters longer than its name |
| Legacy.RunEndSound | static/scripts/ijwt.js:28 | the run of `[a-zA-Z0-9_.-]` ends at the first character outside the class |
| Legacy.WrittenAtMarker | static/scripts/ijwt.js:27-29 | the characterisation of a match equals the marker text at that offset |
| Legacy.MarkerAtSound | static/scripts/ijwt.js:116-121 | a name found at offset i has a valid name, and the text ending at i + \|name\| + 12 is its marker |
| Legacy.MarkerFound | static/scripts/ijwt.js:27-29 | every written marker with a valid name is found |
| Legacy.ChainedInOrder | static/scripts/ijwt.js:116-123 | results are located, non-overlapping, with increasing offsets |
| Legacy.ScanChained | static/scripts/ijwt.js:116-123 | each result starts where the previous one ended or later |
| Legacy.ScanLocated | static/scripts/ijwt.js:116-123 | every result is a marker of the text, in left-to-right order without overlap |
| Legacy.ScanNone | static/scripts/ijwt.js:116 | a text with no `<!--ijwt_` gives no result |
| Legacy.SkipText | static/scripts/ijwt.js:116 | text without a marker opening contributes nothing |
| Legacy.MarkerStep | static/scripts/ijwt.js:116-123 | a marker gives one result with `insert_location` just past `-->`, and the search resumes there |
| Legacy.ScanRendered | static/scripts/ijwt.js:116-123 | text interleaved with markers gives back exactly their names, in order |
| Legacy.SearchRendered | static/scripts/ijwt.js:105-124 | `search_file` of such a text finds exactly those names |
| Legacy.SearchExample | static/scripts/ijwt.js:116-123 | `<p><!--ijwt_nav.html--></p>` gives `nav.html` at offset 23 |
| Legacy.FirstDirective | static/scripts/ijwt.js:89-101 | the directory found answers and no earlier one does; none when none answers |
| Legacy.SearchDirectives | static/scripts/ijwt.js:79-103 | the loop returns `${base}/${dir}/${name}` of the first directory that answers, or undefined |
| Legacy.GetFileData | static/scripts/ijwt.js:56-73 | there is text exactly when the requested URL (`"undefined"` for none) answers |
| Legacy.FetchFileData | static/scripts/ijwt.js:75-77 | the text of the URL `search_directives` found |
| Legacy.FetchFirstDirectory | static/scripts/ijwt.js:75-103 | the file in the first answering directory is the one fetched |
| Legacy.Node.Add | static/scripts/ijwt.js:37-40 | a fresh leaf goes last and earlier children stay unchanged |
| Legacy.PendingChildren | static/scripts/ijwt.js:143-148 | one child per marker, in order, holding its fetched text, which may be absent, and its offset |
| Legacy.ForestStops | static/scripts/ijwt.js:149-151 | once a child's build fails, later children do not change the outcome |
| Legacy.SpecOfForest | static/scripts/ijwt.js:141-152 | the tree is the argument with the subtrees of the markers' files |
| Legacy.ForestGrows | static/scripts/ijwt.js:149-151 | building the next child extends the subtrees by its tree |
| Legacy.ForestFails | static/scripts/ijwt.js:149-151 | a failing child ends the loop with its failure |
| Legacy.ForestBuilt | static/scripts/ijwt.js:149-151 | a successful loop gives one subtree per child, each the tree of that child's text |
| Legacy.BuildShape | static/scripts/ijwt.js:126-153 | a built node keeps its argument and has one child per marker, even for missing files, each built from its fetched text |
| Legacy.DefaultArgument | static/scripts/ijwt.js:126-139 | `undefined` takes the sentinel, the base page is searched, and the root's data is the sentinel |
| Legacy.MissingFileRebuildsBase | static/scripts/ijwt.js:137-150 | a marker whose file is missing gets a child rebuilt from the base page |
| Legacy.MissingIncludeNeverEnds | static/scripts/ijwt.js:126-153 | if the base page's first marker names a missing file, the build never ends at any depth bound |
| Legacy.BuildSubtrees | static/scripts/ijwt.js:149-151 | the in-place second loop computes the subtrees of `Legacy.BuildForest` |
| Legacy.BuildTree | static/scripts/ijwt.js:126-153 | the method returns the outcome of `Legacy.BuildTreeSpec` |

## Left out

- Network I/O is replaced by a parameter.
  - `fetch`, HEAD probes and `response.text()` become `Network.ok`: each URL that answers with `response.ok` maps to its body.
  - A failed status and a rejected request are the same absent entry, since both move on to the next directory.
  - The legacy `no-cors` probe and its GET read the same map.
- `new URL(dir + "/" + name, site_base)` is the uninterpreted function `Network.resolve`.
  - Relative-URL resolution, such as `/x` going to the host root, is not modelled.
  - A `new URL` that throws on an invalid base is not modelled.
- `DOMParser`, `XMLSerializer`, `querySelectorAll` and the reparsing done by `innerHTML`/`outerHTML` are replaced by the flat item model.
  - A parsed document is a flat sequence of text and element items.
  - Parsing a fetched text is an arbitrary function `parse`.
  - Setting `outerHTML` replaces the element with the child's items.
  - A selector finds only the items of the body itself. For all three selectors (`[id^=ijwt_]`, `.ijwt_cache` and `.ijwt_remove`), an element nested inside any other element is not modelled: it is part of the outer element's inner HTML. `querySelectorAll` would find it at any depth.
- The store is unbounded, and `localStorage.setItem` never throws.
  - In `fetch_file_data` a quota error from the `set` inside the `try` would discard the fetched body and go on to the next directory. The model always stores and returns the body.
  - In `cache_manager` the same error would escape the pass. The model always stores.
- Operations that mutate the document in place return the new body as a value: `collapse_node_tree`, `cache_manager` and `remove_tags`. Aliasing between a live document and the node tree is not modelled.
- `Node` is a value datatype rather than a mutable object. `collapse_node_tree`'s `shift()` is modelled on a local copy, and the method returns the node's remaining children as a second result.
- Tree.Build, Engine.IJwt.GenerateNodeTree: a `fuel` parameter bounds the recursion depth. The source has no bound and no cycle detection, so `None` stands for recursing on past the bound.
- Legacy.BuildTreeSpec, Legacy.BuildTree: likewise, `OutOfFuel` stands for recursing on past the bound.
- `async`/`await` is modelled as sequential calls. Everything is awaited one at a time.
- `console.info`/`console.error` logging is left out.
- `window.location.href` is the constructor parameter `href`. The legacy `url_resolver` result is the parameter `baseUrl`.
- `url_resolver` of `source/ijwt.ts`, which only forwards to `search_directories`, is left out.
- `populate_dom` of `static/scripts/ijwt.js` is left out: it only logs, and the rest of it is commented out.
- `build/static/scripts/ijwt_auto.js`, a page-load bootstrap, is not part of this model. The same goes for `static/scripts/tests.js` and `jest.config.js`.
- Legacy.SearchFile: the default-argument branch of `search_file` calls `matchAll` on an unawaited promise. That is a runtime `TypeError`, so it is modelled as a thrown result (`None`) without modelling the promise.
- Scanner.FileNamesExact: stated for ids free of line terminators. The general case is modelled by `Scanner.IdMatches` and bounded below by `Scanner.ExtractAtLeastOne`.
- Hash.CodeUnits: the values of the two surrogates of a character above 0xFFFF are not stated. Only the count and range are stated, which is what the hash properties use.

## Findings

| source | as written | input that shows it | evidently intended | confidence | as-written member | corrected member |
|---|---|---|---|---|---|---|
| source/ijwt.ts:193-197 | `for (const index in node.children)` and `node.children.shift()` in its body: each shift deletes the last key still to be visited, so only the first ⌈n/2⌉ children are spliced | a body of two placeholders `a.html`, `b.html` whose children are two leaves `A` and `B`: the result is `A` followed by the unreplaced `b.html` placeholder | every child collapsed into its placeholder, leaving a document with no placeholder | not executed | Collapser.CollapseDropsSecondChild | Collapser.CollapseComplete |

The as-written behaviour is `Collapser.Collapse(node, false)`. `Engine.IJwt.CollapseNodeTree` computes it, and `Collapser.CollapseLeavesPlaceholders` shows that at least ⌊n/2⌋ placeholders remain for n ≥ 2 children. The corrected behaviour is `Collapser.Collapse(node, true)`, which splices every child. `Collapser.CollapseComplete` proves that it resolves every placeholder of a complete tree. The engine method keeps the loop as written.
