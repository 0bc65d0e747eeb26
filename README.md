# dev-blog-v2 content index and table of contents, in Dafny

A model of the text processing behind the blog: the content index in
`lib/api/posts/index.ts`, the heading extractor in `components/PostToc/utils.ts`,
the string helpers in `lib/utils/strings.ts` and the metadata schemas in
`lib/api/posts/types.ts`. Each file has its own module:

- `wrappers.dfy` (`Wrappers`): `Option` and `Result`.
- `seqs.dfy` (`Seqs`): the JavaScript built-ins the code relies on. These are
  `Array.prototype.filter`, `String.prototype.split` on one character, string `<`
  (lexicographic on characters), `[...new Set(xs)].sort()` and `findIndex`.
- `strings.dfy` (`Strings`): `trim` with the ECMAScript white-space set,
  ASCII `toLowerCase`/`toUpperCase`, `slugify` and `capitalizeFirstLetter`.
- `types.dfy` (`PostTypes`): the category and topic enumerations as subset
  types of `string`, `PostMeta`, `ProjectMeta` and their schemas.
- `posts.dfy` (`Posts`): covers:
  - the two frontmatter parsers;
  - slug derivation and lookup by slug;
  - the descending date comparator and the sort built on it;
  - the topic filter, the previews listing and the topics in use.
- `toc.dfy` (`PostToc`): `getHeadingsFromMarkdown`. It has two parts:
  - A scanner. It is a leftmost, backtracking reading of
    `/(?<flag>#{2,6})\s+(?<content>.+)/g`. It is not anchored to a line start, and
    `\s+` may cross line breaks, as in the source.
  - A post-processor. `HeadingsWithDepth` is a loop that threads the
    `slugCountTracker` object through the headings. It is proved equal to a
    specification function, and the depth and slug properties are proved about
    that function. The tracker is a plain `{}`, so it already holds the
    inherited `constructor` entry (see "Findings"). `IntendedHeadingsWithDepth`
    is the same loop with an empty counter, as the comments beside it describe.

Content directories are inputs: the list of paths a glob returned, in glob order,
and a function giving the frontmatter record each file parses to. The frontmatter
is an untyped key/value map (`Posts.Frontmatter`). The zod schemas become explicit
field checks. These collect every field's issues in schema order, as zod does.

Lookup by slug follows the code: it takes the first path that ends with
`slug + ".mdx"`. It does not compare the path's derived slug with the requested one, so
a slug can find a file with a longer name (`Posts.FindPathBySlugMatchesSuffix`).
Heading slugs are not unique either (`PostToc.SuffixCollision`).

## Model

| member | source | states |
|---|---|---|
| `Strings.TrimIsSlice` | lib/utils/strings.ts:12 | the trim is the slice between a leading and a trailing run of white space, which are dropped |
| `Strings.TrimEdges` | lib/utils/strings.ts:12 | a non-empty trim starts and ends with a character that is not white space |
| `Strings.TrimIdempotent` | lib/utils/strings.ts:12 | trimming twice is trimming once |
| `Strings.Trim` | lib/utils/strings.ts:12 | trimming never lengthens the text (what it keeps is stated by `TrimIsSlice` and `TrimEdges`) |
| `Strings.Lower` | lib/utils/strings.ts:13 | lower-casing keeps the length and leaves no ASCII upper-case letter |
| `Strings.LowerEachChar` | lib/utils/strings.ts:13 | each ASCII upper-case letter becomes the lower-case letter 32 code points above it, and every other character is kept, in place |
| `Strings.ReplaceChar` | lib/utils/strings.ts:14 | same length; every `from` becomes `to` and every other character is kept in place, so no `from` is left when the two differ |
| `Strings.DeleteChars` | lib/utils/strings.ts:15 | deleting a character class leaves none of its characters and never lengthens the text |
| `Strings.Slugify` | lib/utils/strings.ts:10-15 | the slug has no space, none of `( ) ! . , < > ? " ' [ ] @`, no upper-case letter, and is no longer than the input |
| `Strings.SlugifyOnePass` | lib/utils/strings.ts:10-15 | the four-stage chain equals one pass over the trimmed text: space becomes `-`, listed punctuation disappears, every other character is kept lower-cased and in place |
| `Strings.SlugifyFixedPoint` | lib/utils/strings.ts:10-15 | a string of lower-case letters, digits and `-` is its own slug |
| `Strings.CapitalizeFirstLetter` | lib/utils/strings.ts:1-6 | fails exactly on the empty string; otherwise the length is kept, the rest is unchanged, and the first character is the same letter and not lower-case |
| `Strings.CapitalizeIdempotent` | lib/utils/strings.ts:1-6 | capitalising a capitalised word changes nothing |
| `Seqs.FilterMembership` | lib/api/posts/index.ts:118 | an element is kept by `filter` exactly when it is in the input and passes the test |
| `Seqs.FilterCounts` | lib/api/posts/index.ts:118 | `filter` keeps every occurrence of an element that passes |
| `Seqs.FilterIsSubsequence` | lib/api/posts/index.ts:118 | what `filter` keeps is a subsequence of the input, in its order |
| `Seqs.FilterAppend` | lib/api/posts/index.ts:118 | `filter` distributes over concatenation |
| `Seqs.Split` | lib/api/posts/index.ts:293 | `split` yields at least one piece and no piece holds the separator |
| `Seqs.JoinSplit` | lib/api/posts/index.ts:293 | joining the pieces of a split with the separator gives back the text |
| `Seqs.SplitJoin` | lib/api/posts/index.ts:293 | splitting separator-free pieces joined by the separator gives back the pieces |
| `Seqs.SplitCount` | lib/api/posts/index.ts:293 | a text splits into more than one piece exactly when it holds the separator |
| `Seqs.SplitFirstPiece` | lib/api/posts/index.ts:295 | `split(sep)[0]` is the text up to the first separator, or all of it |
| `Seqs.SplitLastPiece` | lib/api/posts/index.ts:293-294 | the last piece is the text after the last separator, or all of it |
| `Seqs.StrLessTransitive` | lib/api/posts/index.ts:95-96 | string `<` is transitive |
| `Seqs.StrLessTotal` | lib/api/posts/index.ts:95-96 | any two strings are equal or one is below the other |
| `Seqs.SortedDistinct` | components/PostToc/utils.ts:22-24 | `[...new Set(xs)].sort()` is strictly ascending and holds exactly the elements of `xs` |
| `Seqs.AscendingUnique` | lib/api/posts/index.ts:107-111 | two strictly ascending lists with the same elements are equal, so the set-then-sort result is determined by the set alone |
| `Seqs.IndexOf` | components/PostToc/utils.ts:44-46 | `findIndex` returns the first index holding the value, and -1 exactly when there is none |
| `PostTypes.IsoTimestampNonBlank` | lib/api/posts/types.ts:30-31 | an ISO timestamp is its own trim and not blank, so it passes `z.string().trim().min(1)` |
| `Posts.Lookup` | lib/api/posts/index.ts:319 | a field is present exactly when its key is in the frontmatter, with that key's value |
| `Posts.CheckTrimmedString` | lib/api/posts/index.ts:310-311 | passes exactly on a string that is not blank after trimming, and then yields the trim; otherwise issues about that field only |
| `Posts.CheckDate` | lib/api/posts/index.ts:312-313 | passes exactly on a valid date, yielding its ISO string; otherwise issues about that field only |
| `Posts.CheckCategory` | lib/api/posts/index.ts:314 | passes exactly on one of the category names, yielding it; otherwise issues about `category` only |
| `Posts.TopicItemIssues` | lib/api/posts/index.ts:315 | no element issue exactly when every list element is a topic name |
| `Posts.CheckTopics` | lib/api/posts/index.ts:315 | passes exactly on a non-empty list of topic names, yielding them in order; otherwise issues about `topics` only |
| `Posts.FieldIssues` | lib/api/posts/index.ts:309-316 | no issue exactly when the field passes its check; every issue names that field |
| `Posts.SchemaIssues` | lib/api/posts/index.ts:319 | no issue exactly when every schema field passes |
| `Posts.SchemaIssuesSound` | lib/api/posts/index.ts:319 | every issue names a schema field that fails |
| `Posts.SchemaIssuesComplete` | lib/api/posts/index.ts:319 | every failing schema field is named by some issue |
| `Posts.TrimmedValue` | lib/api/posts/index.ts:310-311 | a passing string field yields its trim, which is not blank |
| `Posts.ParsePostFrontmatter` | lib/api/posts/index.ts:309-324 | succeeds exactly when all six post fields pass; the result is the slug plus the trimmed title and description, the two ISO dates, the category and the non-empty topic list; a failure reports only failing post fields |
| `Posts.ParsePostReportsEveryFailure` | lib/api/posts/index.ts:318-319 | a failing post field makes the parse fail and is reported |
| `Posts.ParseProjectFrontmatter` | lib/api/posts/index.ts:329-345 | succeeds exactly when all seven project fields pass; the result is the slug, the trimmed strings and the two ISO dates; a failure reports only failing project fields |
| `Posts.ParseProjectReportsEveryFailure` | lib/api/posts/index.ts:339-340 | a failing project field makes the parse fail and is reported |
| `Posts.ParsedPostIsValid` | lib/api/posts/types.ts:26-34 | a parsed post has at least one topic and satisfies `PostMetaSchema` exactly when its slug is not blank |
| `Posts.ParsedProjectIsValid` | lib/api/posts/types.ts:41-50 | a parsed project satisfies `ProjectMetaSchema` exactly when its slug is not blank |
| `Posts.GetSlugFromPath` | lib/api/posts/index.ts:292-297 | the slug is the start of the file name (the last `/`-piece) up to its first `.`, or the whole file name; it holds neither `/` nor `.` |
| `Posts.SlugOfFile` | lib/api/posts/index.ts:292-297 | the slug of `dir/name.rest` is `name` when `name` has no `/` and no `.` and `rest` has no `/` |
| `Posts.SlugOfContentPath` | lib/api/posts/index.ts:292-297 | the slug of `dir/name.mdx` is `name` when `name` has no `/` and no `.` |
| `Posts.GetAllSlugs` | lib/api/posts/index.ts:300-304 | one slug per path, in path order, each the path's slug |
| `Posts.EndsWithIsSuffix` | lib/api/posts/index.ts:166 | `endsWith` holds exactly when the path is some text followed by the suffix |
| `Posts.EndsWithCommonTail` | lib/api/posts/index.ts:166 | `q + ext` ends with `a + ext` exactly when `q` ends with `a` |
| `Posts.FirstEndingWith` | lib/api/posts/index.ts:166 | the first index whose path ends with the suffix, -1 exactly when none does |
| `Posts.FindPathBySlug` | lib/api/posts/index.ts:164-172 | the first path ending with `slug + ".mdx"`, and none exactly when no path does |
| `Posts.FindPathBySlugComplete` | lib/api/posts/index.ts:166 | a content path `dir/name.mdx` is always found by `name` |
| `Posts.FindPathBySlugMatchesSuffix` | lib/api/posts/index.ts:166 | lookup matches a suffix: the slug `name` finds a file whose own slug is `prefix + name` |
| `Posts.DottedNameNotFound` | lib/api/posts/index.ts:164-172 | a file `dir/a.b.mdx` has the slug `a` and is not found by it, unless `dir/a.b` itself ends with `a` |
| `Posts.PostPreviewFromPath` | lib/api/posts/index.ts:73-88 | a file yields a preview exactly when its frontmatter passes the post schema; the preview carries the path's slug, and a failure reports failing post fields only |
| `Posts.ProjectPreviewFromPath` | lib/api/posts/index.ts:141-158 | the same for the project schema |
| `Posts.ParseAll` | lib/api/posts/index.ts:67-70 | succeeds exactly when every file parses, with the previews in path order; otherwise a validation error holding the issues of the first file that fails, without naming the file |
| `Posts.SortPreviewsByDate` | lib/api/posts/index.ts:91-98 | 1 exactly when `a.created < b.created`, -1 exactly when greater, 0 exactly when equal |
| `Posts.SortPreviewsByDateAntisymmetric` | lib/api/posts/index.ts:91-98 | `cmp(a, b) == -cmp(b, a)` |
| `Posts.SortPreviewsByDateTransitive` | lib/api/posts/index.ts:91-98 | "not after" is transitive, so the comparator is consistent |
| `Posts.InsertByDate` | lib/api/posts/index.ts:52 | inserting adds exactly the one element |
| `Posts.InsertByDateSorted` | lib/api/posts/index.ts:52 | inserting into a list sorted newest first keeps it sorted |
| `Posts.SortByDate` | lib/api/posts/index.ts:49-64 | the sorted previews are a permutation of the input, and no preview was created after the one before it |
| `Posts.InsertByDateStable` | lib/api/posts/index.ts:52 | inserting keeps the relative order of equal-date previews |
| `Posts.SortByDateStable` | lib/api/posts/index.ts:49-64 | previews with the same `created` keep their input order (`Array.prototype.sort` is stable) |
| `Posts.SubsequenceNewestFirst` | lib/api/posts/index.ts:42-43 | a subsequence of a newest-first list is newest first |
| `Posts.GetSortedPostPreviews` | lib/api/posts/index.ts:49-64 | fails exactly when loading fails, with that error; otherwise a newest-first permutation of the loaded previews |
| `Posts.FilterPostPreviewsByTopic` | lib/api/posts/index.ts:115-118 | exactly the previews tagged with the topic, each as often as in the input, as a subsequence of the input |
| `Posts.GetPostPreviews` | lib/api/posts/index.ts:34-46 | without a topic, the sorted list unchanged; with one, the topic filter of the sorted list, that is exactly the sorted previews tagged with it, still newest first; load errors pass through |
| `Posts.AllTopics` | lib/api/posts/index.ts:109 | the flattened topic lists hold exactly the topics of some preview |
| `Posts.TopicsInUse` | lib/api/posts/index.ts:107-111 | strictly ascending, so no duplicates; exactly the union of the previews' topics, all of them topic names |
| `Posts.TopicsInUseIgnoresOrder` | lib/api/posts/index.ts:101-111 | the topics in use do not depend on the order of the previews |
| `Posts.GetAllPostTopicsInUse` | lib/api/posts/index.ts:101-112 | load errors pass through; otherwise strictly ascending and exactly the union of the loaded previews' topics |
| `Posts.GetAllProjectPreviews` | lib/api/posts/index.ts:124-130 | fails exactly when loading fails; otherwise a newest-first permutation of the loaded project previews |
| `Posts.GetPostFromSlug` | lib/api/posts/index.ts:164-176 | not found exactly when no path ends with `slug + ".mdx"`; otherwise the parse of the first such path under that path's own slug, or its validation error |
| `Posts.GetProjectFromSlug` | lib/api/posts/index.ts:228-242 | as `GetPostFromSlug`, with the project parser |
| `PostToc.RunEnd` | components/PostToc/utils.ts:5 | a greedy run: every character up to the end satisfies the class, and the next one does not |
| `PostToc.LastNonTerminator` | components/PostToc/utils.ts:5 | the last position in a range that `.` matches, or none when all are line terminators |
| `PostToc.MatchAt` | components/PostToc/utils.ts:5 | a match found at a position is a match of the pattern there: 2 to 6 hashes, white space, then non-empty content without line terminators |
| `PostToc.MatchAtFirstTried` | components/PostToc/utils.ts:5 | whenever the pattern matches at a position, `MatchAt` finds the match the backtracking matcher tries first |
| `PostToc.Scan` | components/PostToc/utils.ts:7-15 | every match has 2 to 6 hashes and non-empty single-line content |
| `PostToc.ScanLeftmost` | components/PostToc/utils.ts:7 | the first heading comes from the leftmost position where the pattern matches, and is the match tried first there |
| `PostToc.ScanEmpty` | components/PostToc/utils.ts:7 | no heading is reported exactly when the pattern matches at no position |
| `PostToc.NoMatchEmptyToc` | components/PostToc/utils.ts:4-59 | the table of contents is empty exactly when the pattern matches nowhere in the markdown |
| `PostToc.NoHashEmptyToc` | components/PostToc/utils.ts:7-48 | markdown without `#` yields an empty table of contents |
| `PostToc.Tag` | components/PostToc/utils.ts:11 | the tag is `h` followed by one character |
| `PostToc.Tags` | components/PostToc/utils.ts:23 | one tag per heading |
| `PostToc.TagsNameLevels` | components/PostToc/utils.ts:11 | each heading's tag is `h` followed by the digit of its level |
| `PostToc.TagOrder` | components/PostToc/utils.ts:22-24 | tags compare as their levels do, and are equal exactly when the levels are |
| `PostToc.StripMarkup` | components/PostToc/utils.ts:12 | no backtick, `*`, `_` or `:` remains |
| `PostToc.StripMarkupKeepsRest` | components/PostToc/utils.ts:12 | every other character is kept, as often as it occurs and in order |
| `PostToc.NatToDecimal` | components/PostToc/utils.ts:43 | the numeral of a count is a non-empty string of digits without a leading zero; it starts with `0` exactly for 0 |
| `PostToc.DecimalRoundTrip` | components/PostToc/utils.ts:43 | reading the numeral back gives the count |
| `PostToc.DecimalInjective` | components/PostToc/utils.ts:43 | distinct counts give distinct numerals |
| `PostToc.SuffixedReadsBack` | components/PostToc/utils.ts:43 | the slug starts with its base; it is the base alone exactly for count 0, and otherwise `-` and digits that read back as the count |
| `PostToc.Increment` | components/PostToc/utils.ts:34 | `+ 1` adds one to a count, and appends the digit `1` to a string, keeping the string in front |
| `PostToc.Truthy` | components/PostToc/utils.ts:43 | `!!` is false exactly for the count whose numeral is `0` and for the empty string |
| `PostToc.Show` | components/PostToc/utils.ts:43 | `'-' +` writes a count as a non-empty decimal numeral that reads back as the count, and a string as itself |
| `PostToc.ConstructorSlug` | components/PostToc/utils.ts:34-43 | a `constructor` slug starts with `constructor` and is longer |
| `PostToc.TocUpTo` | components/PostToc/utils.ts:38-48 | the first `n` records, record `i` being heading `i`'s tag, content, slug as the code derives it, and depth |
| `PostToc.GetHeadingsFromMarkdown` | components/PostToc/utils.ts:4-59 | the result is the table of contents of the scanned headings |
| `PostToc.HeadingsWithDepth` | components/PostToc/utils.ts:31-48 | the loop over the headings, with the `{}` tracker updated per heading, gives exactly one record per heading, in order, as the specification describes |
| `PostToc.SourceTrackerInit` | components/PostToc/utils.ts:31 | `{}` holds only the inherited `constructor` entry, the `Object` function |
| `PostToc.SourceTrackerStep` | components/PostToc/utils.ts:32-43 | after heading `i` the object holds `constructor` as the function text plus one `1` per use, and for every other base seen one less than its number of uses; the base plus the suffix built from the returned value is the slug of heading `i` |
| `PostToc.SourceHeadingStep` | components/PostToc/utils.ts:38-48 | one pass of the map appends heading `i`'s record and keeps the tracker invariant |
| `PostToc.IntendedHeadingsWithDepth` | components/PostToc/utils.ts:26-36 | the loop with a counter that starts empty gives exactly the intended table, with every slug its base plus `-k` for `k` earlier uses |
| `PostToc.CountTrackerInit` | components/PostToc/utils.ts:31 | an empty counter is the intended tracker before the first heading |
| `PostToc.TrackerStep` | components/PostToc/utils.ts:32-35 | with the intended counter, after heading `i` the tracker holds, for each base seen, one less than its number of occurrences, and no other key; the value returned is the number of earlier headings with that base |
| `PostToc.SourceAgreesOffConstructor` | components/PostToc/utils.ts:31-43 | the code's table and the intended one agree on tag, content and depth everywhere, and on the slug exactly when the base is not `constructor` |
| `PostToc.ConstructorHeading` | components/PostToc/utils.ts:31-43 | a single heading whose base is `constructor` gets the slug `constructor-function Object() { [native code] }1`, where the intended counter gives `constructor` |
| `PostToc.ConstructorTitle` | components/PostToc/utils.ts:39 | the heading text `constructor` has the base slug `constructor` |
| `PostToc.DistinctTagLevel` | components/PostToc/utils.ts:22-24 | the `k`-th distinct tag names a level of at least `2 + k` |
| `PostToc.DepthBounds` | components/PostToc/utils.ts:44-46 | 0 <= depth < number of distinct tags <= 5, which fits the `0..5` of components/PostToc/PostToc.tsx:15 |
| `PostToc.DepthOrder` | components/PostToc/utils.ts:22-46 | one depth is below another exactly when its heading has fewer `#`, and they are equal exactly when the levels are |
| `PostToc.DepthContiguous` | components/PostToc/utils.ts:22-46 | every depth below the number of distinct tags is used by some heading |
| `PostToc.FirstUseUnsuffixed` | components/PostToc/utils.ts:26-43 | a heading's slug is its bare base exactly when its base is not `constructor` and no earlier heading has that base, so there is never a `-0` |
| `PostToc.IntendedFirstUseUnsuffixed` | components/PostToc/utils.ts:26-29 | with the intended counter, a heading's slug is its bare base exactly when no earlier heading has that base |
| `PostToc.SameBaseDistinctSlugs` | components/PostToc/utils.ts:26-43 | headings with the same base get different slugs, whatever their levels |
| `PostToc.SuffixCollision` | components/PostToc/utils.ts:26-43 | slugs are not unique: headings `b`, `b`, `b-1` get slugs `b`, `b-1`, `b-1` (for any base `b` other than `constructor`) |
| `PostToc.DocumentedExample` | components/PostToc/utils.ts:50-56 | headings h2 Intro, h3 Summary, h2 Content, h3 Review, h4 Summary get slugs intro, summary, content, review, summary-1 and depths 0, 1, 0, 1, 2 (for any four distinct words other than `constructor`) |

The slug of record `i` is its base followed by `-k`, where `k` is the number of
earlier headings with the same base (`PostToc.DedupSlug`). The exception is the
base `constructor`, which gets `constructor-` followed by the text of the
`Object` function and `k + 1` ones (`PostToc.SourceSlug`). Its depth is the
`findIndex` of its tag in the sorted distinct tags. `HeadingsWithDepth` is
proved to compute exactly these.

## Findings

| source | as written | input that shows it | evidently intended | confidence | as-written member | corrected member |
|---|---|---|---|---|---|---|
| components/PostToc/utils.ts:31-36 | `slugCountTracker` is `{}`, which inherits `constructor`. For that slug, `slugCountTracker[slug] === undefined` is false, and `+ 1` appends `1` to the `Object` function's text | the markdown `## constructor` | the slug `constructor`, the first use of a name carrying no suffix (lines 26-29) | not executed | `PostToc.ConstructorHeading` | `PostToc.IntendedHeadingsWithDepth` |

`PostToc.ConstructorHeading` (with `PostToc.ConstructorTitle`) exhibits the
slug the code gives. `PostToc.IntendedHeadingsWithDepth` is the loop with a
counter that starts empty. `PostToc.IntendedFirstUseUnsuffixed` proves the
documented rule about it. `PostToc.SourceAgreesOffConstructor` proves that the
two agree except on that one base.

## Left out

- Reading files: `fs.readFile`, the `fast-glob` scans in `getAllPostPaths` and `getPostPathsByPostCategory`, and `compileMDX`/`gray-matter`. The path list and each file's frontmatter are inputs. So the choice between the "all" glob and the category glob in `getPostPreviews`/`getAllPostTopicsInUse` is the caller's choice of path list.
- Compiled MDX content, `contentString` and the remark/rehype plugins of `getPostFromPath`/`getProjectFromPath`. Only the metadata is modelled.
- `getPostFromPath` parses the frontmatter twice: once from `gray-matter` for the MDX scope and once from `compileMDX`. Both parses read the same frontmatter block, so the model parses it once.
- `Promise.all` concurrency. A listing whose files fail to validate reports the first failing file in path order. Which rejection arrives first at run time is not modelled.
- `notFound()` is the `NotFound` error value, not a thrown navigation signal. A zod `ZodError` is the `ValidationError` value with simplified issues: a field, an optional array index and a kind of problem. Like the rethrown `ZodError`, it does not name the file that failed. Messages and the ordering of issues inside one field are not modelled.
- Keys of the frontmatter outside the schema are ignored, as `z.object` strips them. Their values are not modelled beyond the `RawValue` shapes.
- `Date` and `toISOString`: a valid date is carried as its ISO string (`PostTypes.IsoTimestamp`), and an invalid one as `InvalidDate`. Calendars and time zones are not modelled. The comparator orders `created` strings as strings, as the source does.
- `Strings.Lower`: upper- and lower-casing are ASCII only. Unicode case mapping, including mappings that change length, is not modelled. `slugify` of ASCII text is exact.
- Strings are sequences of Unicode scalar values, not UTF-16 code units. String `<` and `sort()` agree with JavaScript on the ASCII text this code compares: ISO dates, `h2`..`h6` tags and topic names.
- PostToc.DocumentedExample: proved for any four ASCII words with distinct lower-case forms other than `constructor`, rather than for the literal words of the comment. The literal instance is one case of it. A word whose slug is `constructor` is the case of `PostToc.ConstructorHeading`.
- PostToc.SuffixCollision: proved for every base but `constructor`, whose slugs carry the `Object` function's text instead of a number (see "Findings").
- The inherited `constructor` entry holds V8's text for the `Object` function, `function Object() { [native code] }`. Other engines may print it differently; the proofs use only that it is not empty and does not start with a digit. `PostToc.SourceAgreesOffConstructor` uses its leading `f` to tell `constructor-function…1` from `constructor-<count>`, and every engine's text begins with `function`. Every other inherited property name of `Object.prototype` holds an upper-case letter or `_`, which no base slug can hold, so no other base meets an inherited entry.
- The sort is modelled as a stable insertion sort (`Posts.SortByDate`). `Array.prototype.sort` is stable and the comparator is consistent, so the sorted order is the same. It is modelled on sequences; the in-place mutation of the array is not modelled.
- The React/Next.js UI, `useTocObserver`, route and metadata configuration: not part of this model.
