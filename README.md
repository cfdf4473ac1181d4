# Verified model of the tengoping.com build tooling

This project models, in Dafny, the text and metadata processing that the
tengoping.com blog runs at build time, and proves what each piece promises:

- `ImportImage` (`import_image.dfy`) covers the image-import helpers. It lists a
  content directory's posts (`get_posts`), does the resize and kilobyte
  arithmetic of `convert_and_save` (including Pillow's error when the
  scaled height is zero rows), and builds the embed snippet
  (`build_snippet`), including the `ValueError` message for an unknown kind.
- `CoverImages` (`generate_images.dfy`) covers the cover-image metadata:
  - `parse_frontmatter`, as a line-by-line reader of the `---` block;
  - the image title (stop-word filtering) and the subtitle truncation;
  - `tags_to_tree`;
  - `article_from_frontmatter` and the catalog override;
  - the list, set and counter logic of `cmd_check`, `cmd_auto` and
    `cmd_catalog`, with the `--category` and `--force` options.
- `InlineStyles` (`inline_styles.dfy`) covers the inline-style rewriter:
  - it replaces each tag's first `style` attribute with a class drawn from a
    shared style→class map (a class with the map's fields, as the JavaScript
    `Map` is updated in place);
  - it counts the tags it rewrote;
  - it renders the map as CSS;
  - it injects the stylesheet link once.
- `GithubAlerts` (`github_alerts.dfy`) covers the remark plugin that turns
  `> [!NOTE]`-style blockquotes into callouts. The markdown tree is a heap of
  `Node` objects that `Walk` and `TransformAlert` update in place. Each node
  carries a ghost `MdNode` value, and each method is proved against a
  value-level specification (`WalkSpec`, `TransformSpec`).
- `Helpers` (`helpers.dfy`) covers `slugify`, `getUniqueCategories` and
  `getUniqueTags`.
- `ReadingTime` (`reading_time.dfy`) covers `getReadingTime`.
- `Text` and `Wrappers` hold the shared string, sorting and option helpers:
  - Python's `str.strip`/`split` whitespace and JavaScript's `trim`/`\s`
    whitespace are two separate character sets;
  - strings are compared lexicographically on code units.

Files, directory listings and file contents are parameters. For example, a
directory listing is a sequence of names, and the files read are a map from
name to contents. Nothing is read from disk.

## Model

| member | source | states |
|---|---|---|
| ImportImage.SuffixStart | scripts/import_image.py:35 | the suffix starts at the last dot, which is neither the first nor the last character, and no dot follows it |
| ImportImage.Stem | scripts/import_image.py:33 | stem followed by suffix gives back the whole file name |
| ImportImage.StemAndSuffix | scripts/import_image.py:33-35 | a non-empty stem plus an extension without inner dots splits exactly there |
| ImportImage.PostStems | scripts/import_image.py:32-36 | a stem is in the comprehension iff some regular file with suffix `.md`/`.mdx` carries it |
| ImportImage.GetPosts | scripts/import_image.py:25-37 | the result is sorted and a permutation of the post stems |
| ImportImage.GetPostsMembers | scripts/import_image.py:31-37 | a name is listed iff it is the stem of a `.md`/`.mdx` regular file (other extensions yield nothing) |
| ImportImage.GetPostsIsSortedStems | scripts/import_image.py:37 | any sorted permutation of the post stems is the listing, so it is unique |
| ImportImage.NoPostsListsNothing | scripts/import_image.py:31-37 | a directory without post files, including the empty one, lists `[]` |
| ImportImage.ExampleStems | scripts/tests/test_import_image.py:18-26 | the comprehension over three post files gives their stems in directory order |
| ImportImage.ThreePosts | scripts/import_image.py:32-36 | three post entries give their three stems in order |
| ImportImage.ExamplePost | scripts/import_image.py:33-35 | `<stem>.md` and `<stem>.mdx` regular files are posts with stem `<stem>` |
| ImportImage.ExampleSorted | scripts/tests/test_import_image.py:26 | `borrador`, `ssh`, `ufw` are in ascending order |
| ImportImage.ListingExample | scripts/tests/test_import_image.py:18-26 | the listing is sorted and keeps a draft-like name (`borrador`) |
| ImportImage.DoubleExtensionKeepsInnerSuffix | scripts/import_image.py:33 | only the last suffix is dropped: `notas.md.md` lists as `notas.md` |
| ImportImage.ScaledHeightBounds | scripts/import_image.py:55-58 | the floor-scaled height is within one row of the exact ratio and never above the input height |
| ImportImage.ConvertAndSave | scripts/import_image.py:40-64 | width becomes `min(width, max_width)`; height is kept when not wider, else floor-scaled and at least one row; never upscaled; KB is `max(1, bytes div 1024)`; Pillow's `ValueError` iff the scaled height is zero rows |
| ImportImage.BuildSnippet | scripts/import_image.py:67-90 | succeeds iff kind is `simple` or `figure`; otherwise the error message starts with `kind desconocido: ` + repr(kind) and ends naming both kinds |
| ImportImage.PyRepr | scripts/import_image.py:90 | definition of `repr` for Latin-1 text; characterised by `ReprPlain` and used by `UnknownKindMessage` |
| ImportImage.SimpleRoundTrip | scripts/import_image.py:80-81 | reading `![alt](path)` back gives the path and alt text |
| ImportImage.FigureRoundTrip | scripts/import_image.py:83-88 | reading the `<Figure>` back gives src, alt and caption in that order; the caption attribute appears iff a caption is given, even an empty one |
| ImportImage.UnknownKindMessage | scripts/import_image.py:90 | an unknown kind fails with a message containing Python's `repr` of it |
| ImportImage.ReprPlain | scripts/import_image.py:90 | `repr` of a Latin-1 string without quotes, backslashes or control characters is the string in single quotes |
| ImportImage.UnknownPlainKindMessage | scripts/import_image.py:90 | for such a Latin-1 kind, the message contains `'kind'` |
| CoverImages.SpaceRunEnd | scripts/generate-images.py:186 | the `\s*` run after `---` ends at the first non-whitespace character |
| CoverImages.BlockBeforeShape | scripts/generate-images.py:186 | a block found by the backward search is a lazy match of the pattern |
| CoverImages.BlockShape | scripts/generate-images.py:186-190 | the block found has the shape of a match of `^---\s*\n(.*?)\n---`: whitespace after `---`, a newline, and no `\n---` inside the block |
| CoverImages.SimpleBlock | scripts/generate-images.py:186-190 | `---\n<block>\n---…` yields exactly `<block>` when it starts visibly and has no inner `\n---` |
| CoverImages.NoBlockNoFrontmatter | scripts/generate-images.py:186-188 | without a leading `---` or any `\n---` the result is `{}` |
| CoverImages.NoBlockWithoutClose | scripts/generate-images.py:186-188 | without a closing `\n---` no block is found |
| CoverImages.BreakIndex | scripts/generate-images.py:191 | the first line boundary of `splitlines` at or after a position |
| CoverImages.SplitLines | scripts/generate-images.py:191 | no line of `splitlines()` holds a line boundary |
| CoverImages.SplitJoinedLines | scripts/generate-images.py:191 | lines joined by `\n` split back into the same lines |
| CoverImages.WordRun | scripts/generate-images.py:197 | the `\w+` key run is maximal and made of word characters |
| CoverImages.QuotedItems | scripts/generate-images.py:210-211 | every item found is non-empty |
| CoverImages.Interpret | scripts/generate-images.py:203-219 | a value is stored as a tag list iff its key is `tags` |
| CoverImages.LineEntry | scripts/generate-images.py:191-219 | an entry found has a word key and a list value exactly under `tags` |
| CoverImages.BlankAndCommentLinesSkipped | scripts/generate-images.py:192-194 | blank and `#` lines set nothing |
| CoverImages.LineOf | scripts/generate-images.py:197-201 | `key: x` with trimmed `x` stores `x` read under `key` |
| CoverImages.RunIsKey | scripts/generate-images.py:197 | the word prefix of a line is a key |
| CoverImages.LineOfTrimmed | scripts/generate-images.py:192-193 | `key: x` is unchanged by `strip` and is not a comment |
| CoverImages.LineOfKey | scripts/generate-images.py:197 | `key: x` starts with the key's word run and a colon |
| CoverImages.LineOfValue | scripts/generate-images.py:197-201 | what follows `key:` and the `\s*` gap is `x` |
| CoverImages.LineEntryWhen | scripts/generate-images.py:197-201 | a line with a word key, a colon and a non-empty trimmed rest stores that rest read under the key |
| CoverImages.TrimNoSpaceEnds | scripts/generate-images.py:192 | stripping text that neither starts nor ends with whitespace changes nothing |
| CoverImages.PlainValue | scripts/generate-images.py:201-219 | an unquoted, non-boolean value is stored as written |
| CoverImages.QuotedValue | scripts/generate-images.py:204-206 | one pair of matching quotes is removed |
| CoverImages.BooleanValue | scripts/generate-images.py:215-217 | `true`/`false` in any case, quoted or not, become booleans |
| CoverImages.Unquote | scripts/generate-images.py:204-206 | definition of the quote stripping; characterised by `PlainValue`, `QuotedValue` and `BooleanValue` |
| CoverImages.NoQuotesNoItems | scripts/generate-images.py:210 | text without quotes has no quoted items |
| CoverImages.SkipPlain | scripts/generate-images.py:210 | quote-free text before the items is skipped |
| CoverImages.QuotedItemThen | scripts/generate-images.py:210-211 | a double-quoted item is found, then the search continues after it |
| CoverImages.ListItemsRead | scripts/generate-images.py:210-211 | the items of an inline list are read back in order |
| CoverImages.InlineListRead | scripts/generate-images.py:204-211 | an inline list is one line with nothing to unquote, and its quoted items are its tags |
| CoverImages.TagsLine | scripts/generate-images.py:209-212 | a `tags: ["a", "b"]` line stores exactly the tag list |
| CoverImages.LineEntries | scripts/generate-images.py:191 | one entry per line of the block, in order |
| CoverImages.Frontmatter | scripts/generate-images.py:179-221 | the result maps word keys to values, with a list exactly under `tags` |
| CoverImages.ParseFrontmatter | scripts/generate-images.py:179-221 | the loop over the lines writes into `result` exactly the specified frontmatter |
| CoverImages.CollectSnoc | scripts/generate-images.py:191-219 | each line overwrites or leaves the map as one step |
| CoverImages.CollectKeys | scripts/generate-images.py:191-219 | a key is present iff some line sets it |
| CoverImages.CollectLastWins | scripts/generate-images.py:219 | a key holds the value of the last line that sets it |
| CoverImages.CollectWellFormed | scripts/generate-images.py:191-219 | entries with word keys, and lists only under `tags`, give a well-formed map |
| CoverImages.Collect | scripts/generate-images.py:191-219 | definition of the dictionary the line loop builds; characterised by `CollectSnoc`, `CollectKeys`, `CollectLastWins` and `CollectWellFormed` |
| CoverImages.FrontmatterKeys | scripts/generate-images.py:190-219 | a frontmatter key comes from a line of the block that sets it, and conversely |
| CoverImages.FrontmatterLastWins | scripts/generate-images.py:190-219 | a later line overwrites an earlier one with the same key |
| CoverImages.FirstSpace | scripts/generate-images.py:226 | the end of a word of `split()` is the first whitespace character |
| CoverImages.WordsAreWords | scripts/generate-images.py:226 | each word of `split()` is non-empty and has no whitespace |
| CoverImages.WordsDropSpace | scripts/generate-images.py:226 | leading whitespace adds no word |
| CoverImages.FirstSpaceOf | scripts/generate-images.py:226 | a word followed by whitespace ends exactly there |
| CoverImages.WordsOfWord | scripts/generate-images.py:226 | a word followed by whitespace is the first word |
| CoverImages.WordsOfJoin | scripts/generate-images.py:226-230 | words joined by single spaces split back into the same words |
| CoverImages.Words | scripts/generate-images.py:226 | definition of `split()`; characterised by `WordsAreWords`, `WordsDropSpace`, `WordsOfWord` and `WordsOfJoin` |
| CoverImages.ChosenWordsSpec | scripts/generate-images.py:227-229 | at most 3 words; with significant words, the first min(3, n) of them and none a stop word; otherwise the first min(2, n) words |
| CoverImages.SignificantMembers | scripts/generate-images.py:227 | a significant word is a title word whose lowered, colon-stripped form is not a stop word, and conversely |
| CoverImages.UpperEmptyIff | scripts/generate-images.py:230 | `upper()` is empty iff its input is |
| CoverImages.JoinNonEmpty | scripts/generate-images.py:230 | joining words with a non-empty first word is non-empty |
| CoverImages.ChosenFirstIsWord | scripts/generate-images.py:229 | a non-empty title yields a non-empty choice starting with a word |
| CoverImages.TitleEmptyIff | scripts/generate-images.py:224-230 | the image title is empty iff the post title has no words |
| CoverImages.TitleIsUpperCase | scripts/generate-images.py:230 | the image title has no lower-case ASCII letter |
| CoverImages.ExtractTitle | scripts/generate-images.py:224-230 | definition of the image title; characterised by `ChosenWordsSpec`, `TitleEmptyIff`, `TitleIsUpperCase` and `DefaultTitleExtracted` |
| CoverImages.TruncateSubtitle | scripts/generate-images.py:233-238 | text within `max_len` is unchanged; longer text is cut at the last space of `text[:max_len]` (or not at all without one) and ends in `…` |
| CoverImages.TruncateBounds | scripts/generate-images.py:233-238 | the result is at most `max_len + 1` long and, when cut, extends a prefix of the input |
| CoverImages.TagsToTree | scripts/generate-images.py:241-249 | the append loop builds exactly the specified tree |
| CoverImages.TreeItemsShape | scripts/generate-images.py:245-249 | `min(3, n)` lines, each `├── ` + lowered tag except the last, which uses `└── ` |
| CoverImages.TreeItems | scripts/generate-images.py:241-249 | definition of `tags_to_tree`; characterised by `TreeItemsShape` and the `TagsToTree` loop |
| CoverImages.Basename | scripts/generate-images.py:258 | the base name has no `/` and ends the path |
| CoverImages.BasenameOfPath | scripts/generate-images.py:258 | the base name of `dir/name` is `name` |
| CoverImages.CatalogIndexKeys | scripts/generate-images.py:174 | a file name is indexed iff some catalog entry has it |
| CoverImages.CatalogIndexLast | scripts/generate-images.py:174 | an indexed name maps to the last entry with that name |
| CoverImages.CatalogFilename | scripts/generate-images.py:174 | the entry found under a name carries that name |
| CoverImages.CatalogIndex | scripts/generate-images.py:174 | definition of `_CATALOG_INDEX`; characterised by `CatalogIndexKeys`, `CatalogIndexLast` and `CatalogFilename` |
| CoverImages.ImageName | scripts/generate-images.py:254-258 | none iff `image` is missing or falsy; the base name of a string image; a `TypeError` iff the image is truthy and not a string |
| CoverImages.ArticleFromFrontmatter | scripts/generate-images.py:252-270 | none iff the image is missing or falsy; a cover is always for the image's base name |
| CoverImages.CatalogOverrides | scripts/generate-images.py:260-262 | a catalogued base name returns the catalog entry verbatim |
| CoverImages.DerivedDefaults | scripts/generate-images.py:264-270 | an uncatalogued image gets a derived cover; a missing title gives the image title `TÍTULO` (`SIN` of the default `SIN TÍTULO` is a stop word), a missing description `""`, a missing category `Linux`, missing tags the `(sin tags)` tree |
| CoverImages.DefaultTitleExtracted | scripts/generate-images.py:224-230 | `extract_title_from_frontmatter("SIN TÍTULO")` is `TÍTULO` |
| CoverImages.DerivedArticle | scripts/generate-images.py:264-270 | definition of the derived cover, with the `AttributeError`/`TypeError` of a boolean title or description; characterised by `DerivedDefaults` |
| CoverImages.TrueImageFails | scripts/generate-images.py:254-258 | `image: true` makes `os.path.basename` fail |
| CoverImages.FilterByCategory | scripts/generate-images.py:420-421 | no category, or an empty one, filters nothing |
| CoverImages.FilterByCategoryMembers | scripts/generate-images.py:339 | with a category, exactly the entries of that category are kept |
| CoverImages.Images | scripts/generate-images.py:358-361 | one image outcome per file read |
| CoverImages.CheckScanSnoc | scripts/generate-images.py:354-363 | the scan over one more name is one more loop step |
| CoverImages.CheckScanFails | scripts/generate-images.py:354-363 | an exception stops the scan with that exception |
| CoverImages.CheckScanReferenced | scripts/generate-images.py:354-361 | a file is referenced iff some `.md` post names it |
| CoverImages.CheckScanLastPost | scripts/generate-images.py:361 | a referenced image points at the last post, in listing order, that names it |
| CoverImages.CheckScanWithoutImage | scripts/generate-images.py:359-363 | the posts without an image are the `.md` posts with a missing or empty image, in order |
| CoverImages.CheckScan | scripts/generate-images.py:354-363 | definition of the first loop of `cmd_check`; characterised by the `CheckScan…` lemmas and computed by `ScanPosts` |
| CoverImages.JpgFiles | scripts/generate-images.py:366-368 | the existing set holds only `.jpg` names of the output directory, none when it is absent |
| CoverImages.PostsInSorted | scripts/generate-images.py:354-357 | every `.md` name of the sorted listing has been read |
| CoverImages.ScanPosts | scripts/generate-images.py:351-363 | the first loop of `cmd_check` computes exactly the specified scan |
| CoverImages.CmdCheck | scripts/generate-images.py:348-374 | `missing` is the referenced names not on disk, each mapped to its post; `orphans = existing − referenced`; no missing name exists; every orphan is an existing `.jpg` |
| CoverImages.AutoEntries | scripts/generate-images.py:405-416 | a draft contributes nothing |
| CoverImages.AutoCollectSnoc | scripts/generate-images.py:405-418 | the collection over one more name is one more loop step |
| CoverImages.AutoCollectFails | scripts/generate-images.py:405-418 | an exception ends the command with that exception |
| CoverImages.AutoCollectMembers | scripts/generate-images.py:405-418 | the covers collected are exactly those of `.md` posts that yield one |
| CoverImages.AutoCollect | scripts/generate-images.py:404-416 | definition of the first loop of `cmd_auto`; characterised by the `AutoCollect…` lemmas and `DraftsSkipped`, and computed by `CollectArticles` |
| CoverImages.DraftsSkipped | scripts/generate-images.py:411-412 | posts that are all drafts yield no covers |
| CoverImages.DraftsCannotFail | scripts/generate-images.py:405-418 | without exceptions the collection succeeds |
| CoverImages.CollectArticles | scripts/generate-images.py:404-418 | the first loop of `cmd_auto` computes exactly the specified collection |
| CoverImages.Generated | scripts/generate-images.py:431-438 | no more files are written than there are covers |
| CoverImages.Filenames | scripts/generate-images.py:431 | the file name of each cover, in order |
| CoverImages.ForceGeneratesAll | scripts/generate-images.py:433 | with `--force`, every cover is written |
| CoverImages.NoForceGeneratesMissing | scripts/generate-images.py:432-436 | without `--force`, the written files are distinct, none existed, and every cover whose path did not exist is written; a path exists when the directory has an entry of that name, of any extension, or the name is `""`, `.` or `..` |
| CoverImages.GeneratedFrom | scripts/generate-images.py:431-438 | each cover is skipped iff its path exists (`os.path.exists`) and `--force` is absent, else written and then existing |
| CoverImages.DirectoryNameSkipped | scripts/generate-images.py:427-435 | without `--force`, a cover whose base name is `""`, `.` or `..` is never written, since its path is the existing output directory or its parent |
| CoverImages.WriteCovers | scripts/generate-images.py:428-438 | the loop writes the specified files; `generated + skipped == len(articles)`; the disk then holds the written files |
| CoverImages.CmdAuto | scripts/generate-images.py:402-440 | collect, filter by category, then write; fails iff a post fails; `generated + skipped == total` |
| CoverImages.CatalogSelection | scripts/generate-images.py:496-509 | without file names, the category-filtered catalog; a failure only when names were given, with the `No se encontraron artículos para: ` message |
| CoverImages.CatalogSelectionMembers | scripts/generate-images.py:504-509 | fails iff no entry of the category has a given name; otherwise exactly those entries |
| InlineStyles.SpaceStart | scripts/utils/inline-style-transform.mjs:2 | the start of the trailing whitespace run |
| InlineStyles.SpaceStartIsSpace | scripts/utils/inline-style-transform.mjs:2 | that run is all whitespace |
| InlineStyles.SemicolonStart | scripts/utils/inline-style-transform.mjs:2 | the start of the `;` run before it |
| InlineStyles.DropSemicolonTail | scripts/utils/inline-style-transform.mjs:2 | removing `;+\s*$` leaves a prefix of the input |
| InlineStyles.SpaceStartSuffix | scripts/utils/inline-style-transform.mjs:2 | the trailing whitespace of a suffix is that of the whole string, clipped |
| InlineStyles.SuffixSpaceStart | scripts/utils/inline-style-transform.mjs:2 | the same, for the whole suffix |
| InlineStyles.SemicolonTailAt | scripts/utils/inline-style-transform.mjs:2 | `;+\s*$` matches at `i` iff `i` is inside the final `;` run |
| InlineStyles.SemicolonTailInRun | scripts/utils/inline-style-transform.mjs:2 | a position inside the final `;` run matches |
| InlineStyles.DropSemicolonTailLeftmost | scripts/utils/inline-style-transform.mjs:2 | the text removed is the leftmost match, or nothing when there is none |
| InlineStyles.NormalizeStripsSemicolons | scripts/utils/inline-style-transform.mjs:1-3 | the normalised value is the trimmed value minus its trailing `;`s, and does not end in `;` |
| InlineStyles.NormalizeStyleValue | scripts/utils/inline-style-transform.mjs:1-3 | definition of `normalizeStyleValue`; characterised by `NormalizeStripsSemicolons` |
| InlineStyles.EnsureTrailingSemicolon | scripts/utils/inline-style-transform.mjs:5-9 | empty iff the value is blank; otherwise the trimmed value ending in `;`, adding one only when it is missing |
| InlineStyles.EnsureTrailingSemicolonIdempotent | scripts/utils/inline-style-transform.mjs:5-9 | applying it twice is applying it once |
| InlineStyles.CharFrom | scripts/utils/inline-style-transform.mjs:12 | the first occurrence of a character at or after a position |
| InlineStyles.AttrAt | scripts/utils/inline-style-transform.mjs:12 | a match at `i` has the shape `\s<name>=` plus a quote |
| InlineStyles.AttrMatch | scripts/utils/inline-style-transform.mjs:12-13 | the leftmost attribute match: none before it, and none at all when absent |
| InlineStyles.AttrMatchBounds | scripts/utils/inline-style-transform.mjs:12 | the match closes with the opening quote, which does not occur in the value |
| InlineStyles.NextClassValue | scripts/utils/inline-style-transform.mjs:16-17 | the new class value ends with the added class |
| InlineStyles.EnsureClassAttributeFound | scripts/utils/inline-style-transform.mjs:11-18 | the first class attribute, in either quotes, becomes `class="<existing trimmed> <cls>"` (or `class="<cls>"` when blank); everything around it is kept |
| InlineStyles.EnsureClassAttributeAbsent | scripts/utils/inline-style-transform.mjs:21 | without a class attribute, ` class="<cls>"` is appended |
| InlineStyles.EnsureClassAttribute | scripts/utils/inline-style-transform.mjs:11-22 | definition of `ensureClassAttribute` with the replacement inserted verbatim; characterised by `EnsureClassAttributeFound` and `EnsureClassAttributeAbsent` |
| InlineStyles.EnsureClassAttributeAsWritten | scripts/utils/inline-style-transform.mjs:11-22 | definition of `ensureClassAttribute` with the replacement expanded as a template; related to the verbatim version by `EnsureClassAttributeAgrees` and `EnsureClassAttributeDollarAmpersand` |
| InlineStyles.ExpandPlain | scripts/utils/inline-style-transform.mjs:18 | template text without `$` is copied verbatim |
| InlineStyles.ExpandNoDollar | scripts/utils/inline-style-transform.mjs:18 | a template without `$` expands to itself |
| InlineStyles.Expand | scripts/utils/inline-style-transform.mjs:18 | definition of the replacement-template expansion (`$$`, `$&`, `` $` ``, `$'`, `$n`); characterised by `ExpandPlain`, `ExpandNoDollar` and `ExpandAmpersand` |
| InlineStyles.EnsureClassAttributeAgrees | scripts/utils/inline-style-transform.mjs:11-22 | without `$` in the attributes or class, the source's template replacement equals the verbatim one |
| InlineStyles.EnsureClassAttributeDollarAmpersand | scripts/utils/inline-style-transform.mjs:18 | as written, an existing class value `$&` is expanded into the whole matched attribute |
| InlineStyles.EnsureClassAttributeDollarKept | scripts/utils/inline-style-transform.mjs:18 | the verbatim replacement keeps `$&` as written |
| InlineStyles.KeyIndex | scripts/utils/inline-style-transform.mjs:28 | the map's position of a key iff it has the key |
| InlineStyles.Lookup | scripts/utils/inline-style-transform.mjs:33 | `get` finds a value iff the key is present, and it is that key's entry |
| InlineStyles.CreateClass | scripts/utils/inline-style-transform.mjs:24-34 | no class and an unchanged map iff the value normalises to empty; otherwise the map's class for it, inserting `<prefix>-<size+1>` only when new; grows by at most 1; existing entries unchanged |
| InlineStyles.AddKeyInvariant | scripts/utils/inline-style-transform.mjs:28-31 | inserting keeps the keys distinct and the classes numbered 1..n |
| InlineStyles.LookupStable | scripts/utils/inline-style-transform.mjs:28-33 | later insertions never change an existing key's class |
| InlineStyles.ClassNameInjective | scripts/utils/inline-style-transform.mjs:29 | different numbers give different class names |
| InlineStyles.NumberedClassesDistinct | scripts/utils/inline-style-transform.mjs:29 | numbered entries have distinct classes |
| InlineStyles.StyleClassMap.constructor | scripts/utils/inline-style-transform.mjs:63 | a new map is empty |
| InlineStyles.StyleClassMap.Size | scripts/utils/inline-style-transform.mjs:29 | `size` is the number of entries |
| InlineStyles.StyleClassMap.Has | scripts/utils/inline-style-transform.mjs:28 | `has` iff some entry has the key |
| InlineStyles.StyleClassMap.Get | scripts/utils/inline-style-transform.mjs:33 | `get` returns the key's value iff present |
| InlineStyles.StyleClassMap.Set | scripts/utils/inline-style-transform.mjs:30 | `set` of a new key appends the entry in insertion order |
| InlineStyles.CreateClassForStyle | scripts/utils/inline-style-transform.mjs:24-34 | the method updates the map and returns the class exactly as specified |
| InlineStyles.NameEnd | scripts/utils/inline-style-transform.mjs:68 | the tag name run `[A-Za-z0-9-]*` is maximal |
| InlineStyles.TagAt | scripts/utils/inline-style-transform.mjs:68 | a tag match at `i`: `<`, a letter, the name run, then the lazy attributes up to the first `>` |
| InlineStyles.NextTag | scripts/utils/inline-style-transform.mjs:67-68 | the next tag is the leftmost match, with no match before it |
| InlineStyles.TagText | scripts/utils/inline-style-transform.mjs:69 | a matched tag is `<` + name + attributes + `>` |
| InlineStyles.StyleKey | scripts/utils/inline-style-transform.mjs:70-75 | a tag's map key, when it has one, is non-empty |
| InlineStyles.AddAll | scripts/utils/inline-style-transform.mjs:28-31 | inserting keys only appends to the map |
| InlineStyles.RewriteTagEffect | scripts/utils/inline-style-transform.mjs:69-82 | the map grows by the tag's style key; a tag not counted is returned as matched |
| InlineStyles.RewriteTagCounted | scripts/utils/inline-style-transform.mjs:72-79 | a tag counts iff it has a style attribute that normalises to non-empty |
| InlineStyles.RewriteTag | scripts/utils/inline-style-transform.mjs:69-82 | definition of the replace callback; characterised by `RewriteTagEffect` and `RewriteTagCounted`, and computed by `ReplaceTag` |
| InlineStyles.NonEmptyLookup | scripts/utils/inline-style-transform.mjs:74-75 | a map without empty classes keeps none and returns non-empty classes |
| InlineStyles.RewriteStep | scripts/utils/inline-style-transform.mjs:67-83 | the rewrite is the text before the next tag, its replacement, then the rewrite after it |
| InlineStyles.Rewrite | scripts/utils/inline-style-transform.mjs:67-83 | definition of `html.replace(tagRe, callback)`; characterised by `RewriteStep`, `RewriteCount`, `RewriteEntries`, `RewriteUnchanged` and `RewriteFromEmpty`, and computed by `RewriteTags` |
| InlineStyles.RewriteNext | scripts/utils/inline-style-transform.mjs:67-83 | one callback step, with what the callback promises about the piece, the map and the count |
| InlineStyles.RewriteCount | scripts/utils/inline-style-transform.mjs:67-83 | `transformedCount` is the number of tags whose first style attribute normalises to non-empty |
| InlineStyles.RewriteEntries | scripts/utils/inline-style-transform.mjs:67-83 | the map after the rewrite is the map after meeting the tags' style keys in document order |
| InlineStyles.RewriteUnchanged | scripts/utils/inline-style-transform.mjs:72-75 | with a count of 0 the HTML is unchanged |
| InlineStyles.AddAllKeys | scripts/utils/inline-style-transform.mjs:28-31 | the keys are the old keys then the new ones by first appearance, each once |
| InlineStyles.AddAllNumbered | scripts/utils/inline-style-transform.mjs:29 | classes stay numbered 1..n |
| InlineStyles.RewriteKeepsClasses | scripts/utils/inline-style-transform.mjs:28-33 | a style already in the map keeps its class |
| InlineStyles.AddAllKeepsLookup | scripts/utils/inline-style-transform.mjs:28-33 | the same for any sequence of insertions |
| InlineStyles.RewriteFromEmpty | scripts/utils/inline-style-transform.mjs:61-83 | from a new map: each distinct normalised style once, in first-appearance order, classes `<prefix>-1..n`, distinct; count = number of styled tags; no count means no change |
| InlineStyles.ReplaceTag | scripts/utils/inline-style-transform.mjs:69-82 | the callback method returns the specified piece and count and updates the map as specified |
| InlineStyles.InsertAtShape | scripts/utils/inline-style-transform.mjs:43 | inserting keeps the text before and after and places the line at the position |
| InlineStyles.InjectStylesheetLink | scripts/utils/inline-style-transform.mjs:36-51 | unchanged without an href or when the marker is present; otherwise the link goes before the first `</head>`, else before `</body>`, else it is prepended |
| InlineStyles.LinkHasMarker | scripts/utils/inline-style-transform.mjs:40 | the link carries `data-inline-style-sheet="true"` |
| InlineStyles.InjectAddsMarker | scripts/utils/inline-style-transform.mjs:36-51 | after injecting with an href, the marker is present |
| InlineStyles.InjectIdempotent | scripts/utils/inline-style-transform.mjs:38 | injecting twice is injecting once |
| InlineStyles.InjectStylesheetLinkAgrees | scripts/utils/inline-style-transform.mjs:36-51 | without `$` in the href, the source's template replacement equals the verbatim insertion |
| InlineStyles.InjectStylesheetLinkAsWritten | scripts/utils/inline-style-transform.mjs:36-51 | definition of `injectStylesheetLink` with the link line expanded as a template; related to the verbatim version by `InjectStylesheetLinkAgrees` and `InjectHrefDollarAmpersand` |
| InlineStyles.InjectHrefDollarAmpersand | scripts/utils/inline-style-transform.mjs:43 | as written, an href `$&` is expanded into the matched `</head>` |
| InlineStyles.InjectHrefDollarKept | scripts/utils/inline-style-transform.mjs:40-43 | the verbatim insertion keeps the href as given |
| InlineStyles.RenderWithConcat | scripts/utils/inline-style-transform.mjs:53-59 | the CSS is the concatenation of one rule per entry, in insertion order |
| InlineStyles.RenderCssAppend | scripts/utils/inline-style-transform.mjs:53-59 | the CSS of more entries extends the CSS of fewer |
| InlineStyles.RenderCss | scripts/utils/inline-style-transform.mjs:53-59 | definition of `renderStyleClassMap`; characterised by `RenderWithConcat`, `RenderCssAppend` and `RuleShape`, and computed by `RenderStyleClassMap` |
| InlineStyles.RuleShape | scripts/utils/inline-style-transform.mjs:56 | each rule is `.<cls>{` … `;}\n` |
| InlineStyles.RenderStyleClassMap | scripts/utils/inline-style-transform.mjs:53-59 | the accumulation loop computes the specified CSS |
| InlineStyles.RewriteSplit | scripts/utils/inline-style-transform.mjs:67-83 | the loop's accumulated text plus the rest's rewrite is invariant over one step |
| InlineStyles.RewriteDone | scripts/utils/inline-style-transform.mjs:67-68 | with no tag left the rest is copied |
| InlineStyles.RewriteNextTag | scripts/utils/inline-style-transform.mjs:67-83 | one replace step keeps the accumulated output, map and count consistent with the specification |
| InlineStyles.RewriteTags | scripts/utils/inline-style-transform.mjs:65-83 | the scan returns the specified HTML and count, and leaves the specified map |
| InlineStyles.TransformInlineStylesToClasses | scripts/utils/inline-style-transform.mjs:61-95 | the map, count, CSS and HTML are the rewrite's; the link is injected only when the count is positive |
| GithubAlerts.MatchType | src/plugins/remark-github-alerts.mjs:13 | a match for a type is that type and lies within the text |
| GithubAlerts.MatchAlert | src/plugins/remark-github-alerts.mjs:13 | a match lies within the text |
| GithubAlerts.MatchAlertSpec | src/plugins/remark-github-alerts.mjs:13 | no match iff the text starts with no `[!TYPE]`; a match is the marker plus one following `\n` when there is one |
| GithubAlerts.NoMatchWithoutBracket | src/plugins/remark-github-alerts.mjs:13 | text not starting with `[` never matches |
| GithubAlerts.AlertHead | src/plugins/remark-github-alerts.mjs:35-42 | a match needs a first child that is a paragraph whose first inline is text, and lies within that text |
| GithubAlerts.WithClasses | src/plugins/remark-github-alerts.mjs:65-67 | `className` is set, creating `data`/`hProperties` when missing; all other fields are kept |
| GithubAlerts.TransformUnfold | src/plugins/remark-github-alerts.mjs:34-68 | a matching blockquote becomes the title paragraph, then the cut children, with the callout classes |
| GithubAlerts.TransformChangesOnlyAlerts | src/plugins/remark-github-alerts.mjs:35-42 | the blockquote changes iff its first child is a paragraph whose first inline is text matching the marker |
| GithubAlerts.TransformTitleFirst | src/plugins/remark-github-alerts.mjs:50-62 | the first child is the `## <title>` paragraph; the count grows by 1, or stays when the paragraph was dropped; the other children follow unchanged |
| GithubAlerts.TransformStripsMarker | src/plugins/remark-github-alerts.mjs:48 | the text cut is the marker, or the marker and one `\n` |
| GithubAlerts.TransformKeepsRest | src/plugins/remark-github-alerts.mjs:48-53 | when the paragraph is kept, it holds the rest of the text and its other inlines |
| GithubAlerts.TransformSetsClasses | src/plugins/remark-github-alerts.mjs:65-67 | `className` becomes `['callout', 'callout-<type>']`; other `data` and `hProperties` fields are kept |
| GithubAlerts.TransformIdempotent | src/plugins/remark-github-alerts.mjs:46-62 | transforming twice is transforming once: the `## ` title no longer matches |
| GithubAlerts.TransformSpec | src/plugins/remark-github-alerts.mjs:34-68 | definition of `transformAlert` on values; characterised by the `Transform…` lemmas and implemented in place by `TransformAlert` |
| GithubAlerts.WalkKeepsNode | src/plugins/remark-github-alerts.mjs:19-29 | walking keeps the node's type, value, data and child count |
| GithubAlerts.WalkIdempotent | src/plugins/remark-github-alerts.mjs:19-29 | walking twice is walking once |
| GithubAlerts.VisitIdempotent | src/plugins/remark-github-alerts.mjs:22-26 | visiting a child twice is visiting it once |
| GithubAlerts.WalkStopsAtBlockquote | src/plugins/remark-github-alerts.mjs:22-23 | a blockquote child is only transformed; its later children, nested blockquotes included, are kept as they were |
| GithubAlerts.WalkWithoutBlockquotes | src/plugins/remark-github-alerts.mjs:19-29 | a tree without blockquotes is unchanged |
| GithubAlerts.WalkSpec | src/plugins/remark-github-alerts.mjs:19-29 | definition of `walk` on values; characterised by the `Walk…` lemmas and implemented in place by `Walk` |
| GithubAlerts.Node.Leaf | src/plugins/remark-github-alerts.mjs:58 | a new childless node mirrors its fields |
| GithubAlerts.Node.SetValue | src/plugins/remark-github-alerts.mjs:48 | assigning `value` changes only the value |
| GithubAlerts.Node.CutFirstChildValue | src/plugins/remark-github-alerts.mjs:48 | cutting the first child's text changes only that text |
| GithubAlerts.Node.CutFirstGrandchildValue | src/plugins/remark-github-alerts.mjs:48 | the marker text is cut off the first inline of the first paragraph |
| GithubAlerts.Node.Shift | src/plugins/remark-github-alerts.mjs:52 | `children.shift()` drops the first child |
| GithubAlerts.Node.Unshift | src/plugins/remark-github-alerts.mjs:56 | `children.unshift(c)` puts `c` first |
| GithubAlerts.Node.SetClasses | src/plugins/remark-github-alerts.mjs:65-67 | sets `className`, creating `data`/`hProperties` when missing |
| GithubAlerts.NewTitleParagraph | src/plugins/remark-github-alerts.mjs:56-62 | a fresh `## <title>` paragraph with class `callout-title` |
| GithubAlerts.StripMarker | src/plugins/remark-github-alerts.mjs:48-53 | the marker is cut, and the paragraph dropped when it had one inline and became blank |
| GithubAlerts.ApplyAlert | src/plugins/remark-github-alerts.mjs:44-67 | a matching blockquote is updated in place to its specified transform |
| GithubAlerts.TransformAlert | src/plugins/remark-github-alerts.mjs:34-68 | `transformAlert` updates the node in place to `TransformSpec` of its old value |
| GithubAlerts.Walk | src/plugins/remark-github-alerts.mjs:19-29 | `walk` updates the tree in place to `WalkSpec` of its old value |
| GithubAlerts.VisitChild | src/plugins/remark-github-alerts.mjs:21-27 | one loop iteration replaces child `i` by its visit and keeps the siblings |
| GithubAlerts.VisitNode | src/plugins/remark-github-alerts.mjs:22-26 | a blockquote is transformed, anything else walked |
| Helpers.SkipRun | src/utils/helpers.ts:17 | dropping a run leaves a suffix not starting with the run |
| Helpers.ReplaceRuns | src/utils/helpers.ts:17-18 | the result starts with `-` when the input starts a run, else with the same character |
| Helpers.ReplaceRunsChars | src/utils/helpers.ts:17-18 | every character of the result is `-` or an input character outside the runs |
| Helpers.ReplaceRunsNone | src/utils/helpers.ts:17-18 | without runs nothing changes |
| Helpers.SqueezeSingles | src/utils/helpers.ts:18 | squeezing text without double hyphens changes nothing |
| Helpers.ReplaceRunsSqueezes | src/utils/helpers.ts:18 | after `replace(/-+/g, '-')` no two hyphens are adjacent |
| Helpers.Slugify | src/utils/helpers.ts:9-19 | the slug has only `a-z`, `0-9` and `-`, never two hyphens in a row |
| Helpers.KeptHasNoUnderscore | src/utils/helpers.ts:16-17 | the deletion step removes underscores before separators are replaced |
| Helpers.SlugLowered | src/utils/helpers.ts:14 | lower-casing leaves a slug unchanged |
| Helpers.SlugNoSpace | src/utils/helpers.ts:15-17 | a slug has no whitespace |
| Helpers.SlugFixed | src/utils/helpers.ts:10-18 | every step of `slugify` leaves a slug unchanged |
| Helpers.SlugifyIdempotent | src/utils/helpers.ts:10-18 | `slugify(slugify(x)) == slugify(x)` |
| Helpers.SlugifyOnlySpacesDash | src/utils/helpers.ts:16-17 | only whitespace becomes `-`: text without whitespace or `-` gives a slug without `-` |
| Helpers.Categories | src/utils/helpers.ts:22 | one category per post, in order |
| Helpers.AllTags | src/utils/helpers.ts:27 | a tag is listed iff some post has it |
| Helpers.SortedSet | src/utils/helpers.ts:23 | strictly ascending, with the same elements |
| Helpers.UniqueCategories | src/utils/helpers.ts:21-24 | strictly ascending (so duplicate-free), and exactly the posts' categories |
| Helpers.UniqueTags | src/utils/helpers.ts:26-29 | strictly ascending, and exactly the union of the posts' tags |
| Helpers.UniqueCategoriesCanonical | src/utils/helpers.ts:21-24 | any strictly ascending listing of the categories is the result |
| Helpers.UniqueTagsCanonical | src/utils/helpers.ts:26-29 | any strictly ascending listing of the tags is the result |
| Helpers.UniqueTagsOrderFree | src/utils/helpers.ts:26-29 | the order of the posts does not matter |
| ReadingTime.FirstSpace | src/utils/readingTime.ts:3 | the first whitespace character, with none before it |
| ReadingTime.Split | src/utils/readingTime.ts:3 | `split(/\s+/)` has at least one piece, none containing whitespace |
| ReadingTime.CeilDiv | src/utils/readingTime.ts:4 | the least `q` with `q * d >= n` |
| ReadingTime.GetReadingTime | src/utils/readingTime.ts:1-5 | at least one minute |
| ReadingTime.WordStartsAppend | src/utils/readingTime.ts:3 | counting words across a split point |
| ReadingTime.WordStartsSpaces | src/utils/readingTime.ts:3 | whitespace starts no word |
| ReadingTime.WordStartsWord | src/utils/readingTime.ts:3 | a run without whitespace is one word after whitespace |
| ReadingTime.TrimStartWords | src/utils/readingTime.ts:3 | leading whitespace starts no word |
| ReadingTime.TrimEndWords | src/utils/readingTime.ts:3 | trailing whitespace starts no word |
| ReadingTime.TrimWords | src/utils/readingTime.ts:3 | `trim()` keeps the words |
| ReadingTime.SplitCountsWords | src/utils/readingTime.ts:3 | between non-space ends, the split has one piece per word |
| ReadingTime.ReadingTimeIsCeiling | src/utils/readingTime.ts:2-4 | the estimate is `ceil(words / 160)` and at least 1; whitespace-only content gives 1 |
| ReadingTime.ReadingTimeMonotone | src/utils/readingTime.ts:2-4 | more words never give a shorter estimate |
| ReadingTime.ReadingTimeBoundary | src/utils/readingTime.ts:2-4 | 1 to 160 words take one minute; 161 take two |
| Text.Sort | scripts/import_image.py:37 | `sorted()`: the result is sorted and a permutation of its input |
| Text.SortedUnique | scripts/import_image.py:37 | two sorted permutations of the same strings are equal, so sorting has one answer |
| Text.Dedup | src/utils/helpers.ts:23 | `[...new Set(xs)]`: no duplicates, and exactly the elements of the input |
| Text.LastIndexOf | scripts/generate-images.py:237 | the last index of the character, or none iff it does not occur |

## Left out

- Pillow work in `convert_and_save` is not modelled: decoding, LANCZOS resampling, WebP encoding, `mkdir` and `stat`. The number of bytes written is a parameter.
- ConvertAndSave: computes the height as the exact `floor(height * max_width / width)`. The source computes it as `int(height * (max_width / width))` in floating point, which can differ by one in rare cases, and so can the boundary where Pillow refuses a zero height. A negative `max_width` is not modelled; widths are natural numbers.
- PyRepr: escapes exactly as Python's `repr` for Latin-1 text (up to U+00FF) only. Above U+00FF it writes every character verbatim, whereas Python writes non-printable ones such as U+200B, U+2028, U+3000 or U+FEFF as `\uXXXX`, and those beyond U+FFFF as `\UXXXXXXXX`; Unicode's printable classes are not modelled.
- BuildSnippet: its error message quotes the kind with `PyRepr`, so for a kind holding a non-printable character above U+00FF the message differs from Python's.
- UnknownKindMessage: the same; the `repr` it names is exact for Latin-1 kinds only.
- ReprPlain: stated for Latin-1 strings only, where the model's escaping is Python's.
- UnknownPlainKindMessage: stated for Latin-1 kinds only, for the same reason.
- EnsureClassAttributeFound: states the verbatim insertion (the corrected definition under "Findings"). The source expands `$` patterns of the existing class value and the class name, so the two differ when either holds a `$`.
- ReplaceTag: built on the verbatim `EnsureClassAttribute`, so it differs from the source when a class value or the class prefix holds a `$`. Example: `<p class="$&" style="a:b">` becomes `<p class=" class="$&" csp-style-1">` in the source and `<p class="$& csp-style-1">` in the model.
- RewriteTags: the same as `ReplaceTag`, for every tag of the document.
- InjectStylesheetLink: inserts the link verbatim (the corrected definition under "Findings"). The source expands `$` patterns of the href when it inserts before `</head>` or `</body>`.
- TransformInlineStylesToClasses: built on `RewriteTags` and `InjectStylesheetLink`, so it differs from the source exactly when a class value, the class prefix or the href holds a `$`; `EnsureClassAttributeAgrees` and `InjectStylesheetLinkAgrees` show the two coincide otherwise.
- CmdAuto: with `--force`, a cover whose base name is `""`, `.` or `..` counts as written, whereas the source's `generate_image` would fail to save an image onto a directory; `generate_image` is not modelled.
- `get_posts` takes the directory listing as a sequence of entries (name, regular file or not). `Path.iterdir` order is whatever that sequence gives.
- The `ARTICLES` catalog data and `CAT_COLORS` are not transcribed. Catalog functions take the catalog as a parameter.
- `generate_image` is not modelled: drawing, fonts and the JPEG save. `cmd_new` is not modelled either: it is interactive `input()` prompts. The same goes for `build_parser`/`main` and `cmd_list`, which only prints, and for all printed output of `cmd_check`, `cmd_auto` and `cmd_catalog`. The `sys.exit(1)` of `cmd_catalog` is an error result.
- File reads are not modelled. `parse_frontmatter` works on the file's contents. `cmd_check`/`cmd_auto` take the listing and a map from name to contents. `cmd_check` also takes the `.jpg` names of the output directory (absent when it does not exist); `cmd_auto` takes the names of all its entries, whatever their extension. A `.md` name missing from the map is excluded by a precondition, since there the source would raise an I/O error.
- The frontmatter regexes are hand-written scanners. `\w` is taken as ASCII letters, digits and `_`, whereas Python's `\w` also matches non-ASCII letters.
- CoverImages.ArticleFromFrontmatter models a boolean `title` as the `AttributeError` of `.split()` and a boolean `description` as the `TypeError` of `len()`. A list can only come from `tags`, so list-valued titles and descriptions do not arise from parsing; the model reports them as errors too. It does not model other run-time types.
- Python's `lower()`/`upper()` and JavaScript's `toLowerCase()` are modelled on ASCII and Latin-1 only, including `ß` → `SS`.
- Helpers.Slugify takes its input as already in Unicode decomposed form (NFD) and deletes U+0300 to U+036F. `normalize('NFD')` itself is not modelled.
- `formatDate` is not modelled; it is locale-dependent formatting.
- `.sort()` and `sorted()` compare strings lexicographically on characters. This matches JavaScript's UTF-16 code-unit order for text in the Basic Multilingual Plane only.
- ReadingTime.GetReadingTime computes `Math.ceil(words / 160)` with integer arithmetic. This equals the floating-point result for every word count a string can have.
- The markdown nodes hold `type`, `value`, `children` and `data` with string-valued properties. Other node fields are not modelled, and children are assumed not to be shared between parents, so there is no aliasing inside the tree.
- The `remarkGithubAlerts` factory, which only returns `walk`, is not modelled.
- `transformInlineStylesToClasses` takes `classPrefix` and `stylesheetHref` as explicit parameters. The options-object defaults are not modelled.
- `scripts/postbuild.mjs`, `public/sw.js`, `src/pages/rss.xml.ts`, `src/pages/og/[...id].png.ts`, `astro.config.mjs`, `src/data/categories.ts` and `eslint.config.mjs` are not part of this model. They are file-system walking, hashing, service-worker caching, image rendering, framework wiring and static data.

## Findings

| source | as written | input that shows it | evidently intended | confidence | as-written member | corrected member |
|---|---|---|---|---|---|---|
| scripts/utils/inline-style-transform.mjs:18 | `attrs.replace(classAttrRe, ` class="${nextValue}"`)` passes the new attribute as a replacement *template*, so `$&`, `` $` ``, `$'`, `$1`, `$2` and `$$` in an existing class value or in the class name are expanded | attributes ` class="$&"`, class `c`: the result is ` class=" class="$&" c"` | the new attribute inserted verbatim: ` class="$& c"` | not executed; follows from the GetSubstitution rules of ECMAScript `String.prototype.replace` | InlineStyles.EnsureClassAttributeDollarAmpersand | InlineStyles.EnsureClassAttributeDollarKept |
| scripts/utils/inline-style-transform.mjs:43 | `html.replace('</head>', `  ${linkTag}\n</head>`)` expands `$` patterns of the stylesheet href | HTML `</head>`, href `$&`: the link's href becomes `</head>` | the link inserted with the href as given | not executed; same rules | InlineStyles.InjectHrefDollarAmpersand | InlineStyles.InjectHrefDollarKept |

The rest of the model uses the verbatim versions, `EnsureClassAttribute` and
`InjectStylesheetLink`. `EnsureClassAttributeAgrees` and
`InjectStylesheetLinkAgrees` prove that the two versions coincide whenever
no `$` is involved.
