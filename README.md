# Obsidian Reader: a verified model of its Markdown pipeline and file services

Obsidian Reader is a Next.js application that shows a folder of Obsidian
notes in the browser. This project models its core in Dafny and proves
properties of that model:

- **The Markdown pipeline** (`lib/markdown/obsidian-parser.ts`). The model covers:
  - the three passes that run over the parsed Markdown tree: line-break preservation, the ordered-list fix, and the `![[name]]` image embeds;
  - the embed path resolver;
  - the string patch applied to the serialised HTML;
  - the error fragment returned when any stage fails.
- **The file route** (`app/api/file/route.ts`). The model covers:
  - the extension to content-type table;
  - the `Content-Disposition` filename encoding;
  - the fallback to the parent folder's `img/` directory;
  - the 400 / 404 / 500 / file decision of `GET`.
- **The configuration** (`lib/config.ts`). The model covers:
  - how `KB_DEFAULT_PATH` and `KB_PASSWORD` override the settings file;
  - the recovery paths of `getConfig`;
  - the shallow merge of `updateConfig`;
  - `verifyPassword`.
- **The directory listing** (`lib/file-actions.ts`). The model covers:
  - how `getDirectoryContents` classifies entries;
  - its recursion into subdirectories and its error paths;
  - the sort of its result.

Modules, one file each:

| module | what it holds |
|---|---|
| `Util` | options, results, JavaScript whitespace, ASCII lower-casing, concatenation |
| `Paths` | a `/`-separated model of `path.join`, `basename`, `dirname` and `extname` |
| `Mdast` | the Markdown tree |
| `ImagePaths` | `resolveImagePath` |
| `EmbedSyntax` | the regular expression `!\[\[.*?\]\]`: `test`, `split` with a capturing group, and `match` |
| `ObsidianImages` | `remarkObsidianImages` |
| `LineBreaks` | `remarkPreserveLineBreaks` |
| `OrderedLists` | `remarkFixOrderedLists` |
| `Pipeline` | `parseObsidianMarkdown` and its HTML patch |
| `FileRoute` | `GET` and `serveFile` |
| `Config` | `getConfig`, `updateConfig` and `verifyPassword` |
| `FileActions` | `getDirectoryContents` |

How the source's code is represented:

- **Passes over a children list.** Where the source loops over a list of children and splices it in place, the model is a `method` whose `while`/`for` loop edits a `seq` variable. Its postcondition ties the result to a function that specifies the pass, and the lemmas are about that function.
- **Tree walks.** The `unist-util-visit` walk is modelled as a recursive function over the tree. For the line-break and ordered-list passes, a lemma shows one step of the comparison with `visit`'s top-down order: rewriting a node and then its children gives what rewriting the children first and then the node gives. A full top-down walk is not defined separately.
- **Effects as inputs.** The file system, the environment, `path.normalize`, `encodeURIComponent`, `localeCompare` and the unified/remark/rehype libraries are parameters of the model.

Two facts about the ordered-list fix that the model keeps as the code has them:

- The fix reads `node.ordered` on the list item itself (`lib/markdown/obsidian-parser.ts:96`), not the enclosing list's flag; see the first row of "## Findings".
- Its loop steps back with `i--` after each removal, so it removes every leading break of the first paragraph, not only one (`OrderedLists.StripLeadingBreaks`).

## Model

| member | source | states |
|---|---|---|
| ImagePaths.ResolveImagePath | lib/markdown/obsidian-parser.ts:116-128 | A name starting with "Pasted image" resolves to the file route for basePath/img/name. A name starting with none of "Pasted image", "/" or "http" resolves to the file route for basePath/name. |
| ImagePaths.ResolveUnchanged | lib/markdown/obsidian-parser.ts:116-128 | The name comes back unchanged exactly when it does not start with "Pasted image" and does start with "/" or "http". Any other name yields a URL that starts with the file route. |
| ImagePaths.PastedBeforeHttp | lib/markdown/obsidian-parser.ts:118-127 | The "Pasted image" test comes first. "httpfoo.png" and "/abs/a.png" pass through unchanged. |
| ImagePaths.ResolveConcrete | lib/markdown/obsidian-parser.ts:118-125 | Two examples: a pasted image resolves under basePath/img, and a plain name resolves under basePath. |
| EmbedSyntax.FindEmbed | lib/markdown/obsidian-parser.ts:23 | A found embed starts at or after the search position, and `![[ … ]]` really occurs there. |
| EmbedSyntax.FindEmbedLeftmost | lib/markdown/obsidian-parser.ts:23 | The search finds the leftmost embed. When it finds none, no position of the text starts an embed. |
| EmbedSyntax.CloseFromSpans | lib/markdown/obsidian-parser.ts:23 | The lazy `.*?` stops at the first `]]`, and every character it spans can be matched by `.` (no line terminator). |
| EmbedSyntax.CutsGap | lib/markdown/obsidian-parser.ts:26 | No match of the search starts inside a literal segment of the split. |
| EmbedSyntax.CutsMatch | lib/markdown/obsidian-parser.ts:26 | Each embed segment of the split is exactly the match the search finds at the end of the preceding literal segment. |
| EmbedSyntax.SplitRoundTrip | lib/markdown/obsidian-parser.ts:26 | Concatenating the parts of `split` gives back the text. |
| EmbedSyntax.PiecesRoundTrip | lib/markdown/obsidian-parser.ts:26 | Concatenating the pieces between consecutive cut points gives back the text between the first and last cut. |
| EmbedSyntax.SplitPieces | lib/markdown/obsidian-parser.ts:26-38 | Parts at even positions contain no embed. Parts at odd positions are exactly `![[name]]`, `match` captures `name`, and `name` holds no line terminator and no earlier `]]`. |
| EmbedSyntax.EmbedPiece | lib/markdown/obsidian-parser.ts:34-38 | Matching the text of a found embed captures the name between `![[` and `]]`. |
| EmbedSyntax.NoEmbedInGap | lib/markdown/obsidian-parser.ts:34 | A slice in which no embed starts does not match. |
| EmbedSyntax.NoEmbedBefore | lib/markdown/obsidian-parser.ts:34 | A slice that ends before the next embed does not match. |
| EmbedSyntax.SplitCount | lib/markdown/obsidian-parser.ts:23-27 | A text with an embed splits into at least three parts; a text without one splits into itself alone. |
| EmbedSyntax.MatchNameIffHasEmbed | lib/markdown/obsidian-parser.ts:23-34 | `match` succeeds on a text exactly when `test` does. |
| ObsidianImages.NewNodes | lib/markdown/obsidian-parser.ts:30-53 | The loop over the parts yields the per-part translation of `split`, in order. |
| ObsidianImages.EmbedRewriteOf | lib/markdown/obsidian-parser.ts:23-53 | A text child is replaced exactly when some index of its value starts an embed. The new nodes read back as Markdown give the value again, with its blank literal pieces left out. |
| ObsidianImages.VisitText | lib/markdown/obsidian-parser.ts:19-58 | One visit of a text node splices its replacement in at the node's index. The walk resumes just after the inserted nodes. |
| ObsidianImages.VisitChild | lib/markdown/obsidian-parser.ts:19-58 | The same holds for any child: a container is rewritten below, and other nodes stay as they are. |
| ObsidianImages.EmbedImages | lib/markdown/obsidian-parser.ts:19-58 | The splicing walk over a children list equals the child-by-child rewrite of that list. |
| ObsidianImages.RemarkObsidianImages | lib/markdown/obsidian-parser.ts:16-61 | The pass over a tree equals the rewrite of the tree. |
| ObsidianImages.ForestAppend | lib/markdown/obsidian-parser.ts:56-58 | The rewrite of a children list is the rewrites of its parts, in order, so siblings keep their order. |
| ObsidianImages.TreeSettles | lib/markdown/obsidian-parser.ts:16-61 | For any rewrite whose output needs no further rewrite, the rewritten tree has no text node left to rewrite. |
| ObsidianImages.SettledUnchanged | lib/markdown/obsidian-parser.ts:16-61 | A tree with no text node left to rewrite is unchanged by the pass. |
| ObsidianImages.RewriteIdempotent | lib/markdown/obsidian-parser.ts:16-61 | For such a rewrite, applying the pass twice equals applying it once. |
| ObsidianImages.EmbedRewriteClosed | lib/markdown/obsidian-parser.ts:41-52 | The nodes built from a split contain no text that holds an embed. |
| ObsidianImages.ImagesIdempotent | lib/markdown/obsidian-parser.ts:16-61 | After the image pass no text node holds an embed, and a second pass changes nothing. |
| ObsidianImages.NewNodesNeedNoVisit | lib/markdown/obsidian-parser.ts:58 | The replacement nodes are left alone by the pass, so resuming after them skips nothing. |
| ObsidianImages.NewNodesCreated | lib/markdown/obsidian-parser.ts:36-52 | Every new node is one of two kinds. The first is an image whose alt is a captured name and whose URL is that name resolved. The second is a text holding a non-blank literal segment. |
| ObsidianImages.NewNodesSpellValue | lib/markdown/obsidian-parser.ts:36-52 | The new nodes spell the original text back, part by part, with blank segments dropped. With no blank segment they spell it exactly. |
| ObsidianImages.TextWithoutEmbedUnchanged | lib/markdown/obsidian-parser.ts:23 | A text node without an embed is left as it is. |
| LineBreaks.PreserveLineBreaks | lib/markdown/obsidian-parser.ts:68-83 | The loop over a paragraph's growing children list yields this result: every original child but the last is replaced by its candidate, and the last child is kept. |
| LineBreaks.CandidateShape | lib/markdown/obsidian-parser.ts:72-79 | A text ending in a newline becomes that text without the newline, followed by a break. Every other child stays as it is. |
| LineBreaks.WithBreaksSegments | lib/markdown/obsidian-parser.ts:68-83 | In the result, each original child but the last occupies its own contiguous segment, in order, holding its candidate. The last child ends the list. |
| LineBreaks.WithBreaksLength | lib/markdown/obsidian-parser.ts:68-83 | The list grows by one for each splitting child other than the last. |
| LineBreaks.WithBreaksUnchanged | lib/markdown/obsidian-parser.ts:68-83 | The list is unchanged exactly when no child but the last ends in a newline. |
| LineBreaks.CandidatesLength | lib/markdown/obsidian-parser.ts:72-82 | Replacing every child by its candidate adds one node per splitting text. |
| LineBreaks.CandidatesCommute | lib/markdown/obsidian-parser.ts:66 | Rewriting inside the children commutes with inserting the breaks. |
| LineBreaks.VisitOrderIrrelevant | lib/markdown/obsidian-parser.ts:66 | One step of the top-down visit: adding the breaks to a list of children and then rewriting inside them gives what rewriting inside first and then adding the breaks gives. |
| LineBreaks.PreservesKind | lib/markdown/obsidian-parser.ts:66-85 | Every node keeps its kind, and leaves are untouched. |
| OrderedLists.LeadingBreaks | lib/markdown/obsidian-parser.ts:102-107 | This is the length of the run of breaks that starts the list: all nodes before it are breaks, and the next node is not a break. |
| OrderedLists.StripLeadingBreaks | lib/markdown/obsidian-parser.ts:101-108 | The loop with `i--` removes exactly the leading run of breaks. |
| OrderedLists.FixItemEffect | lib/markdown/obsidian-parser.ts:93-108 | On a flagged item whose first child is a paragraph, that paragraph loses its leading breaks, a suffix of its children remains and it no longer starts with a break. Every other child is untouched, and any other item is unchanged. |
| OrderedLists.VisitOrderIrrelevant | lib/markdown/obsidian-parser.ts:92 | One step of the top-down visit: fixing an item's first paragraph and then rewriting inside its children gives what rewriting inside first and then fixing gives. |
| OrderedLists.FixOrderedListsEstablishes | lib/markdown/obsidian-parser.ts:90-113 | After the pass as written, no item flagged `ordered` has a first paragraph that starts with a break. |
| OrderedLists.FixOrderedListsNoOp | lib/markdown/obsidian-parser.ts:90-113 | A tree that already satisfies that is unchanged. |
| OrderedLists.FixOrderedListsIdempotent | lib/markdown/obsidian-parser.ts:90-113 | Applying the pass twice equals applying it once. |
| OrderedLists.UnflaggedUnchanged | lib/markdown/obsidian-parser.ts:96 | A tree in which no list item carries the `ordered` flag is unchanged by the pass as written. |
| OrderedLists.OrderedFlagIgnored | lib/markdown/obsidian-parser.ts:96 | On an ordered list whose item's paragraph starts with a break, the pass as written changes nothing and the break stays. The corrected pass removes it. |
| OrderedLists.FixByListEstablishes | lib/markdown/obsidian-parser.ts:90-113 | After the corrected pass, no item of an ordered list has a first paragraph that starts with a break. |
| Pipeline.DigitsEnd | lib/markdown/obsidian-parser.ts:149 | `\d+` matches the longest run of ASCII digits. |
| Pipeline.SpacesEnd | lib/markdown/obsidian-parser.ts:149 | `\s*` matches the longest run of JavaScript whitespace. |
| Pipeline.MarkerEndMatches | lib/markdown/obsidian-parser.ts:149 | The search reports a `<br>` at `w` for position `j` exactly when `<li><p>`, one or more digits, a dot, white space and `<br>` at `w` follow from `j` (`MatchesAt`). |
| Pipeline.MatchFound | lib/markdown/obsidian-parser.ts:149 | Every match of the pattern is found, with its own `<br>`. |
| Pipeline.FoundMatch | lib/markdown/obsidian-parser.ts:149 | Everything the search finds is a match of the pattern. |
| Pipeline.MatchesApart | lib/markdown/obsidian-parser.ts:149 | No match starts after the first character of another match and before the end of its `<br>`, so matches never overlap. |
| Pipeline.PatchByWithout | lib/markdown/obsidian-parser.ts:149 | For any search whose matches do not overlap, the global replacement deletes exactly the characters of the matched `<br>` tags and keeps every other character in order. |
| Pipeline.PatchListBreaksExact | lib/markdown/obsidian-parser.ts:149 | The patch deletes the `<br>` of every match of `<li><p>\d+\.\s*<br>` and keeps every other character of the HTML, in order. |
| Pipeline.PatchNoMatch | lib/markdown/obsidian-parser.ts:149 | Without a match the HTML is unchanged. |
| Pipeline.PatchShrinks | lib/markdown/obsidian-parser.ts:149 | With a match the HTML gets shorter. |
| Pipeline.PatchIdentityIffNoMatch | lib/markdown/obsidian-parser.ts:149 | The patch leaves the HTML unchanged exactly when there is no match. |
| Pipeline.PatchOneItem | lib/markdown/obsidian-parser.ts:149 | "<li><p>1.<br>" becomes "<li><p>1.". |
| Pipeline.PatchOnlyFirstBreak | lib/markdown/obsidian-parser.ts:149 | Only the first of two breaks after a marker is removed. |
| Pipeline.PatchNeedsListItem | lib/markdown/obsidian-parser.ts:149 | A paragraph outside a list item is not touched. |
| Pipeline.PatchNeedsDot | lib/markdown/obsidian-parser.ts:149 | A number without a dot is not touched. |
| Pipeline.MarkerAtListItem | lib/markdown/obsidian-parser.ts:149 | HTML starting with "<li><p>1.<br>" has a match whose break is at index 9. |
| Pipeline.PatchAtListItem | lib/markdown/obsidian-parser.ts:149 | Such HTML loses that break and the rest is patched on. |
| Pipeline.NoMatchFrom | lib/markdown/obsidian-parser.ts:149 | With no `<li><p>` from some position on, there is no match from there. |
| Pipeline.ParseOutcome | lib/markdown/obsidian-parser.ts:131-156 | A parse failure yields the error fragment with the parser's message, and so does a conversion failure with its message. Otherwise the result is the HTML of the tree after the three passes as written, with the `<br>` of every list-marker match deleted and nothing else changed. |
| FileRoute.ContentTypeDefault | app/api/file/route.ts:52-63 | An extension has a content type exactly when it is one of the nine in the table. Any other extension gets `application/octet-stream`. |
| FileRoute.NoExtensionIsBinary | app/api/file/route.ts:51-63 | A path without an extension is served as `application/octet-stream`. |
| FileRoute.UpperCaseExtension | app/api/file/route.ts:51-56 | The extension is lower-cased first, so ".PNG" is served as `image/png`. |
| FileRoute.LastExtensionExample | app/api/file/route.ts:51-63 | Only the last extension counts: "a.tar.gz" is served as `application/octet-stream`. |
| FileRoute.DotFileExample | app/api/file/route.ts:51-63 | A dot file such as ".pdf" has no extension and is served as `application/octet-stream`. |
| FileRoute.EscapeReservedValueChars | app/api/file/route.ts:66-67 | After `encodeURIComponent`, escaping `'`, `(`, `)` and `*` leaves only the attr-chars and %-escapes allowed in an RFC 5987 `filename*` value. |
| FileRoute.EscapeExample | app/api/file/route.ts:67 | "a(1)*" becomes "a%281%29%2A". |
| FileRoute.MissingPathIs400 | app/api/file/route.ts:9-11 | A missing or empty `path` yields 400 "No file path provided", whatever the file system holds. |
| FileRoute.GetOutcome | app/api/file/route.ts:13-46 | A served file is one that can be accessed and read. It is the normalised path or, when that cannot be accessed, the fallback path, and it is served with its own content type. An accessible original that cannot be read gives 500. A missing original whose fallback is missing or unreadable gives 404. |
| FileRoute.FallbackOfRelative | app/api/file/route.ts:23 | The fallback for dir/name is the `img/` folder of dir's parent, with the same name. |
| FileRoute.FallbackOfPasted | app/api/file/route.ts:23 | The fallback of a path already inside an `img/` folder is the path itself. |
| Config.WithEnvOverrides | lib/config.ts:58-65 | A set, non-empty KB_DEFAULT_PATH or KB_PASSWORD replaces the path or password; an unset or empty one keeps the file's value. Everything else comes from the file. |
| Config.WithEnvNoOverride | lib/config.ts:58-65 | Without either variable the configuration is the file's own. |
| Config.WithEnvIdempotent | lib/config.ts:58-79 | Applying the overrides twice equals applying them once. |
| Config.GetConfigOutcome | lib/config.ts:31-81 | A parsed file gives its contents with the overrides. A file without `auth`, with KB_PASSWORD non-empty, gives the file's path (overridden as usual) and file types, with an `auth` that holds only that password and no `enabled`. An unreadable file, or a file without `auth` and no password variable, gives the defaults with the overrides, whether or not the default file could be written. |
| Config.MergeShallow | lib/config.ts:86 | Every top-level key of the patch replaces the current value whole, and every absent key keeps it. |
| Config.MergeLaws | lib/config.ts:86 | An empty patch changes nothing. A patch applied twice equals the patch applied once. Two patches in turn equal their combination. |
| Config.UpdateConfigOutcome | lib/config.ts:83-102 | The update succeeds exactly when the write does, and returns the merged configuration. A failed write gives "Failed to update config: " and the write's message. |
| Config.UpdatePersistsEnvPassword | lib/config.ts:85-97 | An update that does not touch `auth` writes and returns the password from KB_PASSWORD. |
| Config.VerifyPasswordIff | lib/config.ts:104-119 | A password is accepted exactly when the configuration loads and either authentication is off (`enabled` false or absent) or the password equals the stored one. |
| Config.DefaultPasswordAccepted | lib/config.ts:19-29 | With no file and no variables, exactly "knowledge123" is accepted. |
| Config.EnvPasswordWins | lib/config.ts:58-65 | With KB_PASSWORD set, the password checked is the variable's, unless authentication is off. A file that turns authentication off, or has no `auth` at all, accepts every password; a file with authentication on accepts exactly the variable's. |
| Config.MissingAuthOpensAll | lib/config.ts:58-65 | With KB_PASSWORD "s" and the file `{"defaultPath": "/kb"}`, the settings use "/kb", authentication is off, and the password "x" is accepted. |
| Config.CorrectedKeepsAuth | lib/config.ts:58-65 | With the default `auth` standing in for a missing one, authentication stays on and exactly the password from KB_PASSWORD (or the default password) is accepted; every other file is treated as before. |
| FileActions.GetDirectoryContents | lib/file-actions.ts:17-91 | The loop with its recursion into subdirectories yields the listing function's result, sorted with the comparator as written. |
| FileActions.EntryStepShape | lib/file-actions.ts:29-75 | An entry aborts the listing exactly when it is a file whose `stat` fails. It yields a node exactly when it is a subdirectory or a file that classifies. That node describes it. |
| FileActions.SubdirectoryListing | lib/file-actions.ts:41-49 | A subdirectory's node holds that subdirectory's own listing, or no children when that listing fails. |
| FileActions.AbortPersists | lib/file-actions.ts:52 | Once an entry aborts, the whole listing fails. |
| FileActions.EntriesNodesAbort | lib/file-actions.ts:29-76 | The listing fails exactly when some file in the directory cannot be `stat`ed. |
| FileActions.EntriesNodesDescribe | lib/file-actions.ts:29-76 | Otherwise the listing has one node per listed entry, in listing order. Each node carries its entry's name, joined path, kind, size, time and classification. |
| FileActions.ListedEntriesMembers | lib/file-actions.ts:32-75 | The listed entries are exactly the subdirectories and the files that classify. |
| FileActions.UnreadableSubdirectory | lib/file-actions.ts:41-49 | A subdirectory that cannot be read still appears, as a directory with no children. |
| FileActions.ClassifyRules | lib/file-actions.ts:53-74 | Documents are tested first. Then images, by extension or by a name containing "Pasted image". Anything else is not listed. |
| FileActions.PastedImageExample | lib/file-actions.ts:66 | "Pasted image 1", which has no extension, is an image under the default settings. |
| FileActions.PdfExample | lib/file-actions.ts:56 | "a.pdf" is a document under the default settings. |
| FileActions.SortBy | lib/file-actions.ts:79 | The sort rearranges the listing: the result holds the same nodes. |
| FileActions.SortBySorted | lib/file-actions.ts:79 | Under a comparator that is a total preorder, the sort's result is in order. |
| FileActions.CompareNodesInconsistent | lib/file-actions.ts:79-86 | The comparator as written is not a total preorder: "b.md" ~ "c.png" ~ "a.md" while "b.md" > "a.md". |
| FileActions.ListingTotalPreorder | lib/file-actions.ts:78-86 | The corrected comparator is a total preorder whenever the name order is. |
| FileActions.CompareNodesRules | lib/file-actions.ts:79-86 | The comparator as written puts a directory before a document or an image, and the reverse comparison is positive. Two nodes of one type compare by name. A document and an image compare equal. |
| FileActions.CompareListingRules | lib/file-actions.ts:78-86 | With the corrected comparator, a directory goes before anything else. Two directories, or two non-directories, compare by name. |
| FileActions.DirectoryContentsPermutes | lib/file-actions.ts:78-86 | Whatever the comparator, a successful listing holds exactly the listed nodes, rearranged. |
| FileActions.CorrectedListingSorted | lib/file-actions.ts:78-86 | The listing sorted with the corrected comparator holds exactly the listed nodes. All directories come first, and each group is in name order. |

## Left out

- The unified, remark-parse, remark-gfm, remark-rehype, rehype-sanitize and rehype-stringify libraries. Parsing is a parameter `string -> Result<Node>`. Conversion, sanitising and serialising are one parameter `Node -> Result<string>`. CommonMark parsing and sanitising are not modelled.
- `path.normalize` and `encodeURIComponent` are function parameters. `path.join`, `dirname`, `basename` and `extname` are modelled on `/`-separated strings, without POSIX normalisation (no collapsing of `..`, `.` or repeated separators). A trailing `/` is not ignored: `Paths.Dirname("a/b/")` is "a/b" and `Paths.Basename("a/b/")` is "", where Node gives "a" and "b".
- `toLowerCase` is modelled on ASCII letters only. Non-ASCII case mappings are not modelled.
- `localeCompare` is an abstract comparison function `names`. Its properties are assumed only where a lemma says so (`TotalPreorder(names)`).
- `Array.prototype.sort` is modelled as a stable insertion sort (`FileActions.SortBy`). `getDirectoryContents` sorts with the comparator as written (`FileActions.AsWritten`), which is not a total preorder, so the order `sort` produces is implementation-defined. For the program's listing the model claims only that the nodes are rearranged (`FileActions.DirectoryContentsPermutes`); the order is claimed only for the corrected listing (`FileActions.CorrectedListingSorted`).
- `fs`, `process.env`, `console`, `Response` and `NextResponse` are not modelled as such. Each file-system answer is an input: whether a path can be accessed and read, whether a directory is readable, a file's stat, the settings file's state, whether a write succeeds. The environment variables are an `Env` value, and a response is a `Response` value. Logging is left out.
- The settings file's JSON is not parsed. A file is one of three cases:
  - `Unreadable`: it is missing, cannot be read, or is not JSON;
  - `WithoutAuth(defaultPath, supportedFileTypes)`: it parses, but without an `auth` object;
  - `Parsed(config)`.
  Other wrong shapes are not modelled, such as a missing `supportedFileTypes` or values of the wrong type.
- `Config.Merge`: an object spread also copies a key that is present with the value `undefined`. The model treats such a key as absent.
- `getFileContent` (`lib/file-actions.ts:94-122`) only reads a file and logs, so it is not part of this model.
- `Mdast`: node positions, `data` and the `checked`/`spread` fields are not modelled.
- `remarkObsidianImages`'s `parts.length === 1` guard is not modelled as a separate branch. `EmbedSyntax.SplitCount` shows it cannot fire once the `test` has succeeded.
- The React components under `components/` and the `app/api/auth` and `app/api/config` routes are presentation and wiring around the modelled functions, so they are not part of this model.

## Findings

| source | as written | input that shows it | evidently intended | confidence | as-written member | corrected member |
|---|---|---|---|---|---|---|
| lib/markdown/obsidian-parser.ts:96 | The pass tests `node.ordered` on the list item. In the Markdown tree the `ordered` flag belongs to the enclosing `list`, so the pass never removes anything. | An ordered list whose item's paragraph is a break followed by "one" keeps its break. | Test the enclosing list's `ordered` flag. | high, not executed | OrderedLists.OrderedFlagIgnored | OrderedLists.FixByListEstablishes |
| lib/config.ts:58-65 | For a settings file without `auth`, a non-empty KB_PASSWORD short-circuits `envPassword \|\| configFromFile.auth.password`, so nothing throws and the new `auth` lacks `enabled`; `verifyPassword` then reads `!config.auth.enabled` as true. | KB_PASSWORD "s" and the file `{"defaultPath": "/kb"}`: the password "x" is accepted. | Keep authentication on, with the default `auth` standing in for a missing one. | medium, not executed | Config.MissingAuthOpensAll | Config.CorrectedKeepsAuth |
| lib/file-actions.ts:79-86 | The comparator returns 0 for a document against an image, whatever their names, so it is not a consistent order and the order of the sorted listing is implementation-defined. | The listing "b.md", "c.png", "a.md": "b.md" ~ "c.png" ~ "a.md", yet "b.md" > "a.md". | Directories first, then every other entry by name. | medium, not executed | FileActions.CompareNodesInconsistent | FileActions.CorrectedListingSorted |
