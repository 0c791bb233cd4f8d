# Skill registry core, in Dafny

This project models the core of a skill registry: a web site where authors publish "skills". A skill is a bundle of text files headed by a `SKILL.md`. Visitors browse, filter and sort the published skills. The model covers three parts of the TypeScript code.

- **Skill files** (`convex/lib/skills.ts`):
  - reading the `---`-delimited `key: value` frontmatter of a `SKILL.md`;
  - extracting and normalising the `clawdis` metadata block (string lists, install specifications);
  - deciding which uploaded files are text;
  - sanitising stored relative paths;
  - building the text that is embedded for search.
- **The skills list page** (`src/routes/skills/index.tsx`):
  - normalising the URL search parameters;
  - what the toolbar buttons and the filter box write back;
  - the Highlighted filter and the comparator the list is sorted with;
  - the paging state: list pages fetched by cursor, and a search limit that grows a page at a time.
- **The publish form** (`src/routes/upload.tsx`):
  - the checks made before upload (files present, at most 50 MiB, a `SKILL.md`);
  - the upload records built file by file;
  - the tag list;
  - the hexadecimal SHA-256 digest.

JavaScript's string behaviour is modelled explicitly in `JsStrings.dfy`:
- `trim` with its full white-space set;
- `split` on one character, and `join`;
- `filter(Boolean)`;
- `includes`;
- `toLowerCase` on ASCII.

`Json.dfy` models the JSON values that `JSON.parse` produces and the coercions `Boolean(v)`, `typeof v === 'object'` and `String(v)`. `String(v)` includes the TypeError it throws for an object with its own `toString` member. That object can only hold JSON data there, so neither `toString` nor `valueOf` yields a primitive. The throw travels through `normalizeStringList` and `parseInstallSpec` to the `catch` of `parseClawdisMetadata`, which then returns nothing.

Calls the model cannot see become function parameters:
- `JSON.parse` is `parseJson`;
- `localeCompare`;
- the file upload is `storageIdOf`;
- the SHA-256 digest is `digestOf`.

Where the code has a loop that updates state, the model has a method proved against a function:
- the frontmatter loop is `Frontmatter.ParseFrontmatter`;
- the upload loop is `Upload.UploadAll`;
- `parseInstallSpec`'s field-by-field building is `ClawdisMetadata.ParseInstallSpec`.

State the page or the form keeps between renders becomes a class whose methods state the whole new state: `SkillsPagination.Pager` and `Upload.UploadForm`.

The embedding-length test at `convex/lib/skills.test.ts:177-184` expects at most 12000 characters for a 40000-character readme when no bound is given. The code's default bound is 200000 (`convex/lib/skills.ts:180`). The model follows the code, and `EmbeddingText.DefaultBoundKeepsLongReadme` states the code's outcome.

## Model

| member | source | states |
|---|---|---|
| Frontmatter.NormalizeNewlines | convex/lib/skills.ts:73 | the result has no CR and is no longer than the input |
| Frontmatter.ReplaceCrLf | convex/lib/skills.ts:73 | the first replacement never lengthens the text, brings in no new character, and leaves a text without CR unchanged |
| Frontmatter.ReplaceCr | convex/lib/skills.ts:73 | the second replacement: every CR becomes LF, every other character stays in place |
| Frontmatter.NormalizeNewlinesIsTwoReplaces | convex/lib/skills.ts:73 | on every input the normalisation equals the two global replacements: CR LF pairs, matched left to right without overlap, to LF, then the remaining CRs to LF |
| Frontmatter.NormalizeNewlinesIdentity | convex/lib/skills.ts:73 | text without CR is left unchanged, so normalising twice is normalising once |
| Frontmatter.IndexOfClosing | convex/lib/skills.ts:75-76 | the result is the first index at or after `from` where `\n---` starts, and none means it occurs nowhere from there |
| Frontmatter.KeyLength | convex/lib/skills.ts:79 | the leading run of `[\w-]` characters: all key characters, and maximal |
| Frontmatter.MatchLine | convex/lib/skills.ts:79-82 | a match has a non-empty key of key characters that starts the line, is followed by `:`, and leaves a one-line rest; the value is that rest trimmed |
| Frontmatter.MatchLineFails | convex/lib/skills.ts:79-80 | the pattern fails exactly when every key-and-colon reading of the line leaves a line terminator after the leading white space |
| Frontmatter.StripQuotes | convex/lib/skills.ts:195-203 | the value changes exactly when it starts and ends with the same quote, it then loses one character at each end, and the result is always a piece of the value |
| Frontmatter.StripQuotesRoundTrip | convex/lib/skills.ts:195-203 | quoting any string with `"` or `'` and stripping gives it back |
| Frontmatter.LineEntries | convex/lib/skills.ts:78-84 | one entry per line, in line order |
| Frontmatter.LineEntry | convex/lib/skills.ts:79-84 | a line records an entry only under a non-empty key that is not `__proto__` |
| Frontmatter.ApplyEntries | convex/lib/skills.ts:78-85 | entries with usable keys build a record with no empty key and no `__proto__` key |
| Frontmatter.RecordLines | convex/lib/skills.ts:78-85 | the record never holds the empty key or `__proto__` |
| Frontmatter.FrontmatterOf | convex/lib/skills.ts:71-87 | the record is empty when no header block is found, and never holds the empty key or `__proto__` |
| Frontmatter.RecordLinesStep | convex/lib/skills.ts:78-85 | one more loop step applies that line's entry last, or leaves the record unchanged |
| Frontmatter.ParseFrontmatter | convex/lib/skills.ts:71-87 | the loop returns exactly the record `FrontmatterOf` describes |
| Frontmatter.ApplyEntriesHas | convex/lib/skills.ts:78-85 | a key is recorded exactly when some line has an entry for it |
| Frontmatter.ApplyEntriesLastWins | convex/lib/skills.ts:84 | the last entry for a key gives its value: a later duplicate overwrites an earlier one |
| Frontmatter.ApplyEntriesValue | convex/lib/skills.ts:84 | every recorded value is the value of some entry for its key |
| Frontmatter.LineEntryShape | convex/lib/skills.ts:79-84 | a line with an entry is the key, a colon, then a rest whose trim is non-empty; the value is that trim with quotes stripped, and the key is never `__proto__` |
| Frontmatter.FrontmatterEntries | convex/lib/skills.ts:71-87 | every recorded key comes from a line of the header block, and its value is that line's trimmed, quote-stripped rest |
| Frontmatter.RecordLinesLastWins | convex/lib/skills.ts:78-85 | among the lines, the last one with an entry for a key gives its value |
| Frontmatter.RecordLinesHas | convex/lib/skills.ts:78-85 | a key is recorded exactly when some line has an entry for it |
| Frontmatter.FrontmatterEmptyWithoutDelimiters | convex/lib/skills.ts:74-76 | no leading `---`, or no `\n---` at index 3 or later, gives the empty record |
| Frontmatter.GetFrontmatterValue | convex/lib/skills.ts:89-92 | a value exactly when the key is present, and then the stored value |
| JsStrings.TrimStart | convex/lib/skills.ts:223 | a suffix of the input that does not start with white space |
| JsStrings.TrimEnd | convex/lib/skills.ts:223 | a prefix of the input that does not end with white space |
| JsStrings.Trim | convex/lib/skills.ts:223 | the result has no white space at either end |
| JsStrings.TrimIsInfix | convex/lib/skills.ts:223 | the trim is a piece of the input |
| JsStrings.TrimStartRemovesSpace | convex/lib/skills.ts:223 | `trimStart` drops only white space |
| JsStrings.TrimEndRemovesSpace | convex/lib/skills.ts:223 | `trimEnd` drops only white space |
| JsStrings.TrimEmpty | convex/lib/skills.ts:83 | the trim is empty exactly when the input is all white space |
| JsStrings.TrimOfTrimmed | convex/lib/skills.ts:223 | a trimmed string is its own trim, so `trim` is idempotent |
| JsStrings.Split | convex/lib/skills.ts:143 | at least one piece, and no piece holds the separator |
| JsStrings.JoinSplit | convex/lib/skills.ts:143 | joining the pieces of a split with the separator gives back the string |
| JsStrings.SplitJoin | convex/lib/skills.ts:211-214 | splitting a join of separator-free pieces gives back the pieces |
| JsStrings.SplitPrefix | convex/lib/skills.ts:143 | a separator-free prefix only extends the first piece |
| JsStrings.SplitLast | convex/lib/skills.ts:144 | there are several pieces exactly when the separator occurs, and the last piece is the text after the last separator |
| JsStrings.JoinContains | convex/lib/skills.ts:190 | every part of a join occurs in the joined text |
| JsStrings.JoinSnoc | convex/lib/skills.ts:190 | joining one more part appends the separator and that part |
| JsStrings.Lower | convex/lib/skills.ts:141 | the same length, each ASCII capital lowered and every other character kept |
| JsStrings.DropEmpty | convex/lib/skills.ts:188 | the non-empty strings, in order |
| JsStrings.DropEmptyAppend | convex/lib/skills.ts:188 | filtering a concatenation filters each side, so the order is kept |
| JsStrings.MapSeq | convex/lib/skills.ts:189 | the same length, and each element is the image of the element at the same index |
| JsStrings.TrimAllMembers | convex/lib/skills.ts:213 | the members of the trimmed list are the trims of the members |
| JsStrings.CleanList | convex/lib/skills.ts:208 | every member is non-empty and trimmed |
| JsStrings.CleanListAppend | convex/lib/skills.ts:208 | cleaning keeps the order of a concatenation |
| JsStrings.CleanListOfClean | convex/lib/skills.ts:208 | an already clean list is left as it is |
| JsStrings.CommaList | convex/lib/skills.ts:210-215 | every piece is non-empty, trimmed and comma-free |
| JsStrings.CommaListRoundTrip | convex/lib/skills.ts:210-215 | clean, comma-free items joined with commas are read back unchanged |
| Json.Member | convex/lib/skills.ts:100 | a member exactly when the value is an object with that key |
| Json.StringMember | convex/lib/skills.ts:117-121 | a string exactly when the member is present and a string, and then that string |
| Json.Collect | convex/lib/skills.ts:208 | `map` with a callback that may throw: throws exactly when some call throws, else every call's value in order |
| Json.ToJsString | convex/lib/skills.ts:208 | `String(v)` throws exactly when the value is an object with its own `toString` member or an array holding such a value at any depth; of a string it is the string itself |
| Json.ItemStrings | convex/lib/skills.ts:208 | throws exactly when some element's `String(v)` throws; otherwise one string per element, each that element's `String(v)` |
| Json.CollectAppend | convex/lib/skills.ts:208 | mapping a concatenation throws when either part does, and otherwise gives both parts' values in order |
| Json.ItemStringsAppend | convex/lib/skills.ts:208 | coercing a concatenation throws when either part does, and otherwise gives both parts' strings in order |
| ClawdisMetadata.KindOf | convex/lib/skills.ts:224 | a kind exactly for `brew`, `node`, `go`, `uv`, and its name is the text |
| ClawdisMetadata.KindNameRoundTrip | convex/lib/skills.ts:224-226 | every kind is read back from its name |
| ClawdisMetadata.NormalizeStringList | convex/lib/skills.ts:205-217 | throws exactly when the value is an array with an element whose `String` throws; otherwise members are non-empty and trimmed, falsy and other values give none, a string is split on commas, an array is coerced element by element |
| ClawdisMetadata.NormalizeArrayMembers | convex/lib/skills.ts:207-209 | when the coercion does not throw, a name is in the list exactly when it is the non-empty trim of some element's `String(v)` |
| ClawdisMetadata.NormalizeArrayAppend | convex/lib/skills.ts:207-209 | normalising a concatenated array throws when either part does, and otherwise concatenates the results, so order is kept |
| ClawdisMetadata.NormalizeStringListIdempotent | convex/lib/skills.ts:205-217 | storing the names of a list that did not throw as a JSON array and normalising again changes nothing |
| ClawdisMetadata.NormalizeStringListCommaRoundTrip | convex/lib/skills.ts:210-215 | a comma-separated string never throws, and its names written with commas normalise to the same names |
| ClawdisMetadata.KindText | convex/lib/skills.ts:222 | `kind` when it is a string, else `type` when it is a string, else empty |
| ClawdisMetadata.InstallSpecOf | convex/lib/skills.ts:219-235 | for an object whose trimmed, lower-cased kind text is one of the four kinds: throws exactly when its `bins` coercion throws, and otherwise a spec with that kind; any other input gives no spec |
| ClawdisMetadata.SpecOf | convex/lib/skills.ts:225-234 | the step has the given kind, and `bins` exactly when the normalised list is non-empty |
| ClawdisMetadata.SpecFields | convex/lib/skills.ts:226-234 | when `bins` does not throw, each optional field is present exactly when its member is a string, and `bins` exactly when its normalised list is non-empty |
| ClawdisMetadata.ArrayHasNoKind | convex/lib/skills.ts:220-224 | an array, although of object type, never names a kind |
| ClawdisMetadata.ParseInstallSpec | convex/lib/skills.ts:219-235 | the field-by-field construction, which stops with a throw at `bins`, ends with exactly the outcome `InstallSpecOf` gives |
| ClawdisMetadata.Somes | convex/lib/skills.ts:112 | no longer than the input, and a step is kept exactly when it is among the entries |
| ClawdisMetadata.SomesAppend | convex/lib/skills.ts:112 | the filter keeps the order of a concatenation |
| ClawdisMetadata.InstallSpecs | convex/lib/skills.ts:110-112 | throws exactly when some entry throws; otherwise a step is kept exactly when some entry describes it |
| ClawdisMetadata.InstallSpecsAppend | convex/lib/skills.ts:110-112 | the steps of a concatenated install array throw when either part does, and otherwise are both parts' steps in order, each as often as it occurs |
| ClawdisMetadata.InstallSpecsSingle | convex/lib/skills.ts:110-112 | one install entry throws when its `bins` throws, gives no step when it names no kind, and otherwise gives exactly its step |
| ClawdisMetadata.OsOf | convex/lib/skills.ts:113-122 | throws exactly when the `os` coercion throws; otherwise present exactly when the normalised list is non-empty, and then that list |
| ClawdisMetadata.RequirementsOf | convex/lib/skills.ts:103-130 | for a non-null object-type `requires`, throws exactly when one of its four lists throws and otherwise holds the four normalised lists; absent for any other value |
| ClawdisMetadata.InstallOf | convex/lib/skills.ts:107-131 | throws exactly when `install` is an array whose steps throw; otherwise present exactly when that array yields at least one step, and then those steps |
| ClawdisMetadata.MetadataOf | convex/lib/skills.ts:102-132 | throws exactly when the install, `os` or requirement lists throw; otherwise every field of the stored metadata in terms of the `clawdis` members: booleans and strings only when of that type, lists only when non-empty |
| ClawdisMetadata.MetadataThrows | convex/lib/skills.ts:102-132 | the metadata throws exactly when `os`, a list of a `requires` object, or the `bins` of a kinded install entry holds an element whose `String` throws |
| ClawdisMetadata.ClawdisValue | convex/lib/skills.ts:95-101 | a value exactly when `metadata` is non-empty, parses to an object, and its `clawdis` member is an object or array |
| ClawdisMetadata.ParseClawdisMetadata | convex/lib/skills.ts:94-138 | metadata exactly when the extraction finds a `clawdis` value and its metadata does not throw, and then that metadata |
| ClawdisMetadata.ThrowingOsGivesNothing | convex/lib/skills.ts:113-137 | an `os` array whose first element is an object with its own `toString` gives no metadata |
| ClawdisMetadata.InstallBinsClean | convex/lib/skills.ts:229-230 | when the steps do not throw, every kept step lists its binaries, if at all, as a non-empty list of trimmed names |
| ClawdisMetadata.ClawdisArrayIsEmpty | convex/lib/skills.ts:101-132 | a `clawdis` array passes the object check but yields metadata with nothing set |
| FileClassifier.Extension | convex/lib/skills.ts:143-144 | the extension never holds a dot |
| FileClassifier.IsTextFile | convex/lib/skills.ts:140-142 | a blank path is never text, whatever the content type |
| FileClassifier.IsTextFileCases | convex/lib/skills.ts:145-163 | otherwise text exactly when the content type marks it so or the extension is a text extension |
| FileClassifier.EmptyIsNotTextContentType | convex/lib/skills.ts:145 | an empty content type marks nothing as text |
| FileClassifier.ExtensionIsAfterLastDot | convex/lib/skills.ts:143-144 | the extension is the text after the last dot, and a dotless name has none |
| FileClassifier.NoDotNoExtension | convex/lib/skills.ts:140-164 | a dotless path is text only through its content type |
| FileClassifier.ExtensionOfDotted | convex/lib/skills.ts:143-144 | `stem.ext` has extension `ext` |
| FileClassifier.StripLeadingSlashes | convex/lib/skills.ts:167 | the suffix left after a run of slashes, not starting with a slash |
| FileClassifier.SanitizePath | convex/lib/skills.ts:166-172 | rejected exactly when the candidate is empty or contains `..` or a backslash, and otherwise the candidate |
| FileClassifier.SanitizedPathIsSafe | convex/lib/skills.ts:166-172 | an accepted path is a non-empty piece of the input, not starting with `/`, without `..` or backslash |
| FileClassifier.CandidateIsInfix | convex/lib/skills.ts:167 | the candidate is a piece of the input |
| FileClassifier.SanitizeStable | convex/lib/skills.ts:166-172 | sanitising an accepted path again returns it unchanged, provided it does not start with white space |
| FileClassifier.SanitizeNotIdempotent | convex/lib/skills.ts:167 | that proviso is needed: `/ a` is accepted as ` a`, which a second pass turns into `a` |
| FileClassifier.SanitizeAcceptsPlain | convex/lib/skills.ts:168-171 | a non-empty candidate without dots or backslashes is accepted as it is |
| FileClassifier.EmptyPathExample | convex/lib/skills.ts:168 | the empty path is rejected |
| EmbeddingText.Field | convex/lib/skills.ts:182-187 | a header field is the frontmatter value under its key, and empty when the key is absent |
| EmbeddingText.HeaderParts | convex/lib/skills.ts:181-188 | at most six values, all non-empty |
| EmbeddingText.Present | convex/lib/skills.ts:181-188 | a key contributes a header line exactly when it is present with a non-empty value, and then that value |
| EmbeddingText.HeaderPartsInOrder | convex/lib/skills.ts:181-188 | the header is the present, non-empty values of `name`, `description`, `homepage`, `website`, `url`, `emoji`, in that order |
| EmbeddingText.HeaderFieldInText | convex/lib/skills.ts:181-190 | the non-empty value of each of the six header keys occurs in the full text |
| EmbeddingText.FileBlock | convex/lib/skills.ts:189 | the block is non-empty and contains the file's path and text |
| EmbeddingText.Sections | convex/lib/skills.ts:190 | every section is non-empty |
| EmbeddingText.SlicePrefix | convex/lib/skills.ts:192 | `slice(0, end)` is a prefix of the clamped length, with a negative end counted from the end |
| EmbeddingText.BuildEmbeddingText | convex/lib/skills.ts:174-193 | the raw text cut to the given bound or 200000: a prefix of the raw text, never longer than a non-negative bound |
| EmbeddingText.Truncate | convex/lib/skills.ts:191-192 | a prefix of the text, the whole text when it fits, else exactly `maxChars` long for a non-negative bound |
| EmbeddingText.BuildIsBoundedPrefix | convex/lib/skills.ts:174-193 | the result is a prefix of the full text, never longer than a non-negative bound, and the full text when that fits |
| EmbeddingText.TruncateIdempotent | convex/lib/skills.ts:191-192 | truncating again with the same bound changes nothing |
| EmbeddingText.SectionInText | convex/lib/skills.ts:190 | every non-empty section occurs in the full text |
| EmbeddingText.ReadmeInText | convex/lib/skills.ts:190 | a non-empty readme occurs in the full text |
| EmbeddingText.FileInText | convex/lib/skills.ts:189-190 | every file's path and text occur in the full text |
| EmbeddingText.HeaderInText | convex/lib/skills.ts:181-190 | every present header value occurs in the full text |
| EmbeddingText.AddFileAppends | convex/lib/skills.ts:189-190 | one more file adds a blank line and its block at the end |
| EmbeddingText.DefaultBoundKeepsLongReadme | convex/lib/skills.ts:180 | with no bound, a 40000-character readme is kept whole |
| SkillsSearch.SortKeyOf | src/routes/skills/index.tsx:8 | a key read from a text has that text as its name |
| SkillsSearch.SortKeyRoundTrip | src/routes/skills/index.tsx:8 | every key is read back from its name |
| SkillsSearch.ParseSort | src/routes/skills/index.tsx:13-17 | `newest` or the key the text names; a listed name always selects its key |
| SkillsSearch.ParseSortRoundTrip | src/routes/skills/index.tsx:13-17 | parseSort reads back every key it can return |
| SkillsSearch.ParseDir | src/routes/skills/index.tsx:19-22 | `asc` and `desc` are kept; otherwise ascending exactly for `name` |
| SkillsSearch.ValidateSearch | src/routes/skills/index.tsx:43-54 | each parameter normalised on its own as the rows below state, and the result is well-formed: a query is never blank |
| SkillsSearch.QueryOf | src/routes/skills/index.tsx:45 | a query exactly when the parameter is a non-blank string, and then the untrimmed string |
| SkillsSearch.SortOf | src/routes/skills/index.tsx:46 | a sort exactly when the parameter is a string, and then its parseSort |
| SkillsSearch.DirOf | src/routes/skills/index.tsx:47 | a direction exactly for `asc` or `desc`, and the one named |
| SkillsSearch.HighlightedOf | src/routes/skills/index.tsx:48-51 | set exactly by `1`, `true` or the boolean true |
| SkillsSearch.ViewOf | src/routes/skills/index.tsx:52 | a view exactly for `cards` or `list`, and the one named |
| SkillsSearch.ValidateSerialize | src/routes/skills/index.tsx:43-54 | validating a well-formed search written out gives it back |
| SkillsSearch.ValidateIdempotent | src/routes/skills/index.tsx:43-54 | every validated search is well-formed, and validating again changes nothing |
| SkillsSearch.EffectiveDir | src/routes/skills/index.tsx:62 | the stored direction, or the key's default |
| SkillsSearch.EditQuery | src/routes/skills/index.tsx:241-249 | the query is the typed text exactly when that is not blank; nothing else changes |
| SkillsSearch.EditQueryValidates | src/routes/skills/index.tsx:241-249 | the stored query is what validateSearch reads from the same text, and the search stays well-formed |
| SkillsSearch.ToggleHighlighted | src/routes/skills/index.tsx:258-266 | the flag flips and nothing else changes |
| SkillsSearch.ChangeSort | src/routes/skills/index.tsx:273-282 | stores the parsed key and the direction in use for it; nothing else changes |
| SkillsSearch.ToggleDir | src/routes/skills/index.tsx:297-303 | stores the opposite of the direction in use; nothing else changes |
| SkillsSearch.ToggleView | src/routes/skills/index.tsx:312-318 | unset when the view is `cards`, else `cards`; nothing else changes |
| SkillsSearch.ToggleDirFlips | src/routes/skills/index.tsx:297-303 | each press flips the direction in use, and two presses restore it |
| SkillsSearch.ToggleViewFlips | src/routes/skills/index.tsx:312-318 | each press switches between cards and list, and two presses restore it |
| SkillsSearch.ToggleHighlightedInvolution | src/routes/skills/index.tsx:258-266 | two presses restore the search |
| SkillsSearch.ChangeSortKeepsDirection | src/routes/skills/index.tsx:273-282 | after a change the direction is the stored one, or the new key's default |
| SkillsListing.FilterHighlighted | src/routes/skills/index.tsx:155-159 | everything when off; when on, exactly the highlighted entries |
| SkillsListing.FilterAppend | src/routes/skills/index.tsx:155-159 | the filter keeps the order of the entries |
| SkillsListing.Key | src/routes/skills/index.tsx:165-183 | the number each numeric sort compares: downloads, all-time installs with a missing count as 0, stars, `updatedAt`, and `createdAt` otherwise |
| SkillsListing.Compare | src/routes/skills/index.tsx:161-185 | numeric keys compare by the difference, flipped when descending; names compare by display name, then slug |
| SkillsListing.DescendingNegates | src/routes/skills/index.tsx:162 | descending order is ascending order negated, for every key |
| SkillsListing.CompareAntisymmetric | src/routes/skills/index.tsx:164-185 | the comparator is antisymmetric when the locale order is |
| SkillsListing.Insert | src/routes/skills/index.tsx:164 | one element longer, with the same elements plus the new one |
| SkillsListing.InsertSorted | src/routes/skills/index.tsx:164 | inserting into an ordered list keeps it ordered |
| SkillsListing.SortBy | src/routes/skills/index.tsx:163-164 | a permutation of the input |
| SkillsListing.SortBySorted | src/routes/skills/index.tsx:163-164 | with an antisymmetric comparator the result is ordered |
| SkillsListing.Listed | src/routes/skills/index.tsx:155-187 | the shown rows are the filtered rows rearranged |
| SkillsListing.ListedIsSortedPermutation | src/routes/skills/index.tsx:155-187 | the shown rows are the filtered rows, in comparator order |
| SkillsListing.ListedByKey | src/routes/skills/index.tsx:161-176 | for numeric keys, rows rise by key when ascending and fall when descending |
| SkillsListing.NumericAntisymmetric | src/routes/skills/index.tsx:166-183 | a numeric comparator is antisymmetric whatever the locale order |
| SkillsPagination.Pager.constructor | src/routes/skills/index.tsx:67-72 | nothing loaded, no cursor, a one-page search limit, not searching |
| SkillsPagination.Pager.ResetList | src/routes/skills/index.tsx:95-100 | a blank query clears pages and both cursors, and keeps the rest |
| SkillsPagination.Pager.ReceivePage | src/routes/skills/index.tsx:102-106 | stores the next cursor; appends the items when the cursor was truthy, else replaces the pages |
| SkillsPagination.Pager.SearchKeyChanged | src/routes/skills/index.tsx:108-116 | clears the results; a blank key stops searching, otherwise the limit returns to one page |
| SkillsPagination.Pager.StartSearch | src/routes/skills/index.tsx:118-122 | marks a search as running, and changes nothing else |
| SkillsPagination.Pager.FinishSearch | src/routes/skills/index.tsx:131-137 | stores the answer and stops searching |
| SkillsPagination.Pager.CanLoadMore | src/routes/skills/index.tsx:190-192 | a search can load more exactly when it is idle and its last answer filled the non-zero limit; the list exactly when there is a next cursor |
| SkillsPagination.Pager.IsLoadingMore | src/routes/skills/index.tsx:193-195 | a search is loading more exactly when it runs over shown results, the list when a further page is pending; a search loading more never offers to load more |
| SkillsPagination.Pager.LoadMore | src/routes/skills/index.tsx:190-205 | nothing while loading or when nothing more can load; otherwise the limit grows by 50, or a truthy next cursor becomes the cursor; the limit stays a positive multiple of 50 |
| Upload.TotalBytes | src/routes/upload.tsx:35 | no files total 0 bytes |
| Upload.TotalBytesAppend | src/routes/upload.tsx:35 | the total of two lists is the sum of their totals |
| Upload.FileSizeAtMostTotal | src/routes/upload.tsx:35 | no file is larger than the total |
| Upload.IsSkillFile | src/routes/upload.tsx:40 | a skill file's name is 8 or 9 characters long, and `SKILL.md` and `SKILLS.md` are skill files |
| Upload.LowerSkillName | src/routes/upload.tsx:40 | `SKILL.md` lower-cases to `skill.md` |
| Upload.LowerSkillsName | src/routes/upload.tsx:40 | `SKILLS.md` lower-cases to `skills.md` |
| Upload.CheckSubmission | src/routes/upload.tsx:33-43 | each outcome exactly: no files, over 50 MiB, no `SKILL.md`/`SKILLS.md` in any case, or ready, in that order of checks |
| Upload.SizeCheckedFirst | src/routes/upload.tsx:36-43 | an oversize bundle reports only the size, and exactly 50 MiB passes |
| Upload.TooLargeStaysTooLarge | src/routes/upload.tsx:35-39 | adding files to an oversize bundle keeps it oversize |
| Upload.OversizeFileRefused | src/routes/upload.tsx:35-39 | one file over 50 MiB makes the bundle too large |
| Upload.ParseTags | src/routes/upload.tsx:74-77 | every tag is non-empty, trimmed and comma-free |
| Upload.ParseTagsRoundTrip | src/routes/upload.tsx:74-77 | clean tags joined with commas are read back unchanged |
| Upload.ByteHex | src/routes/upload.tsx:170 | two lower-case hex digits whose value is the byte |
| Upload.HexEncode | src/routes/upload.tsx:168-171 | two hex digits per byte |
| Upload.HexRoundTrip | src/routes/upload.tsx:168-171 | decoding the hex form gives the digest back |
| Upload.HexInjective | src/routes/upload.tsx:168-171 | different digests have different hex forms |
| Upload.RecordOf | src/routes/upload.tsx:58-65 | path is the folder path when present, else the name; the content type only when declared; size, storage id and hex digest copied |
| Upload.Records | src/routes/upload.tsx:54-66 | one record per file, in file order |
| Upload.UploadAll | src/routes/upload.tsx:54-66 | the loop builds exactly `Records` |
| Upload.UploadForm.constructor | src/routes/upload.tsx:14-21 | no files, version `1.0.0`, tag `latest`, no status or error |
| Upload.UploadForm.Submit | src/routes/upload.tsx:31-81 | publishes exactly when the checks pass, with the parsed tags and one record per file; a failed check sets its message and uploads nothing; the form's fields are unchanged |

## Left out

- `JSON.parse` is not modelled. It is the parameter `parseJson`, with `None` for text that makes it throw. Numbers carry the text `String(n)` gives them, so no floating point is modelled.
- `toLowerCase` lowers ASCII letters only. Unicode case mapping is not modelled.
- Strings are sequences of characters. UTF-16 surrogate pairs are not modelled, so lengths and slices count code points where JavaScript counts code units.
- The SHA-256 digest (`crypto.subtle.digest`) is the parameter `digestOf`. Its hexadecimal form is modelled.
- The upload (`generateUploadUrl`, `fetch`, `uploadFile`) is the parameter `storageIdOf`. Its failure and the exception it throws are not modelled, and neither is a failure of `publishVersion`. `Submit` returns the request that would be published.
- The sign-in gate of the publish page (`isAuthenticated`) is not modelled.
- `localeCompare` is a parameter. It is assumed antisymmetric where order is proved.
- SkillsListing.SortBy: stability is not proved. The model inserts stably, as `Array.prototype.sort` sorts.
- Sort keys and times are unbounded integers. The JavaScript numbers they stand for are not modelled.
- The search debounce (220 ms timer), the request counter that drops stale answers, and the IntersectionObserver that calls `loadMore` are not modelled. Neither is the scheduling of React effects, or the time at which a list page arrives: `IsLoadingMore` takes "the list page is pending" as a parameter.
- The search scores and version documents shown beside each row are not modelled. Neither are `buildSkillHref`/`encodeURIComponent` or the rendering.
- EmbeddingText.BuildEmbeddingText: maxChars is an integer; a fractional, NaN or Infinity bound (a JavaScript number) is not modelled (for example `slice(0, NaN)` gives `""` and `slice(0, 2.5)` keeps 2 characters).
- SkillsSearch.ValidateSearch: `highlighted` is absent or `true` in the source. The model stores `false` for absent.
- SkillsPagination.Pager.LoadMore: a next cursor of `""` counts for `canLoadMore`, but `loadMore` ignores it. The model keeps this, so such a press changes nothing.
- `hashSkillFiles`, `parseBotMetadata`, `getFrontmatterMetadata` and the YAML block-scalar behaviour exercised in `convex/lib/skills.test.ts` are not part of this model. The code shown parses only one-line `key: value` entries.
