/**
 * The content index of lib/api/posts/index.ts with its file-system and MDX
 * plumbing taken out. A content directory is given as the list of files its
 * glob returned, in glob order, each with the frontmatter record its
 * metadata block parses to; everything the index computes from that list is
 * modelled: slug derivation, frontmatter validation, sorting by creation
 * date, topic filtering, the topics in use and lookup by slug.
 */
module Posts {
  import opened Wrappers
  import opened Seqs
  import opened Strings
  import opened PostTypes

  //---------------------------------------------------------------------------
  // raw frontmatter and validation issues
  //---------------------------------------------------------------------------

  /** A value of the untyped frontmatter record. */
  datatype RawValue =
    | Str(s: string)
    | Num(n: int)
    | Bool(b: bool)
    | Null
      /** A valid `Date`, carried as the string its `toISOString()` returns. */
    | Date(iso: IsoTimestamp)
      /** A `Date` whose time value is NaN. */
    | InvalidDate
    | List(items: seq<RawValue>)
    | Mapping(entries: map<string, RawValue>)

  type Frontmatter = map<string, RawValue>

  /** The kinds of zod issue the two schemas can raise. */
  datatype Problem = Required | InvalidType | TooSmall | InvalidDateValue | InvalidEnumValue

  /** The fields of the two frontmatter schemas. */
  datatype Field =
    | TitleField | DescriptionField | CreatedField | UpdatedField
    | CategoryField | TopicsField | ImgUrlField | ImgAltField | GradientField
  {
    /** The frontmatter key of the field. */
    function Key(): string
    {
      match this
      case TitleField => "title"
      case DescriptionField => "description"
      case CreatedField => "created"
      case UpdatedField => "updated"
      case CategoryField => "category"
      case TopicsField => "topics"
      case ImgUrlField => "imgUrl"
      case ImgAltField => "imgAlt"
      case GradientField => "gradient"
    }
  }

  /** The keys of `RawPostFrontmatter`, in schema order. */
  const PostFields: seq<Field> :=
    [TitleField, DescriptionField, CreatedField, UpdatedField, CategoryField, TopicsField]

  /** The keys of `RawProjectFrontmatter`, in schema order. */
  const ProjectFields: seq<Field> :=
    [TitleField, DescriptionField, CreatedField, UpdatedField, ImgUrlField, ImgAltField, GradientField]

  /** One validation issue: the field, the position inside an array field when
      it concerns one element, and the problem. */
  datatype Issue = Issue(field: Field, index: Option<nat>, problem: Problem)

  /** Issues raised by one field check; empty when the check passed. */
  function IssuesOf<T>(r: Result<T, seq<Issue>>): seq<Issue>
  {
    if r.Failure? then r.error else []
  }

  /** Every issue of `issues` is about `field`. */
  ghost predicate AllAbout(issues: seq<Issue>, field: Field)
  {
    forall k :: 0 <= k < |issues| ==> issues[k].field == field
  }

  //---------------------------------------------------------------------------
  // per-field checks (the zod schemas' members)
  //---------------------------------------------------------------------------

  /** The raw value of field `f`, if the frontmatter has it. */
  function Lookup(fm: Frontmatter, f: Field): (v: Option<RawValue>)
    ensures v.Some? <==> f.Key() in fm
    ensures v.Some? ==> v.value == fm[f.Key()]
  {
    if f.Key() in fm then Some(fm[f.Key()]) else None
  }

  predicate StringOk(v: Option<RawValue>) { v.Some? && v.value.Str? && NonBlank(v.value.s) }

  /** `v` holds a valid date whose ISO form is `iso`. */
  predicate DateFrom(v: Option<RawValue>, iso: string) { v.Some? && v.value.Date? && v.value.iso == iso }

  /** `v` holds the list of the topic names `topics`, in order. */
  predicate TopicsFrom(v: Option<RawValue>, topics: seq<Topic>)
  {
    && v.Some? && v.value.List? && |v.value.items| == |topics|
    && forall i :: 0 <= i < |topics| ==> v.value.items[i] == Str(topics[i])
  }

  /** `t` is the trim of the string `v` holds. */
  predicate TrimmedFrom(v: Option<RawValue>, t: string) { v.Some? && v.value.Str? && t == Trim(v.value.s) }

  predicate DateOk(v: Option<RawValue>) { v.Some? && v.value.Date? }

  predicate CategoryOk(v: Option<RawValue>) { v.Some? && v.value.Str? && v.value.s in CategoryNames }

  predicate TopicOk(v: RawValue) { v.Str? && v.s in TopicNames }

  predicate TopicsOk(v: Option<RawValue>)
  {
    && v.Some? && v.value.List? && |v.value.items| >= 1
    && forall i :: 0 <= i < |v.value.items| ==> TopicOk(v.value.items[i])
  }

  /** Whether the raw value of field `f` passes that field's schema check. */
  predicate FieldOk(fm: Frontmatter, f: Field)
  {
    var v := Lookup(fm, f);
    match f
    case CreatedField | UpdatedField => DateOk(v)
    case CategoryField => CategoryOk(v)
    case TopicsField => TopicsOk(v)
    case _ => StringOk(v)
  }

  /** `z.string().trim().min(1)` on the value `v` of field `f`: the trimmed
      string, or one issue about `f`. */
  function CheckTrimmedString(v: Option<RawValue>, f: Field): (r: Result<string, seq<Issue>>)
    ensures r.Success? <==> StringOk(v)
    ensures r.Success? ==> TrimmedFrom(v, r.value)
    ensures r.Failure? ==> r.error != [] && AllAbout(r.error, f)
  {
    match v
    case None => Failure([Issue(f, None, Required)])
    case Some(Str(s)) =>
      TrimIdempotent(s);
      if Trim(s) == [] then Failure([Issue(f, None, TooSmall)]) else Success(Trim(s))
    case Some(_) => Failure([Issue(f, None, InvalidType)])
  }

  /** `z.date().transform((date) => date.toISOString())` on the value `v` of
      field `f`. */
  function CheckDate(v: Option<RawValue>, f: Field): (r: Result<IsoTimestamp, seq<Issue>>)
    ensures r.Success? <==> DateOk(v)
    ensures r.Success? ==> DateFrom(v, r.value)
    ensures r.Failure? ==> r.error != [] && AllAbout(r.error, f)
  {
    match v
    case None => Failure([Issue(f, None, Required)])
    case Some(Date(iso)) => Success(iso)
    case Some(InvalidDate) => Failure([Issue(f, None, InvalidDateValue)])
    case Some(_) => Failure([Issue(f, None, InvalidType)])
  }

  /** `PostCategorySchema` on the value `v` of the `category` field. */
  function CheckCategory(v: Option<RawValue>): (r: Result<Category, seq<Issue>>)
    ensures r.Success? <==> CategoryOk(v)
    ensures r.Success? ==> v == Some(Str(r.value))
    ensures r.Failure? ==> r.error != [] && AllAbout(r.error, CategoryField)
  {
    match v
    case None => Failure([Issue(CategoryField, None, Required)])
    case Some(Str(s)) =>
      if s in CategoryNames then Success(s) else Failure([Issue(CategoryField, None, InvalidEnumValue)])
    case Some(_) => Failure([Issue(CategoryField, None, InvalidType)])
  }

  /** The element issues of `z.array(PostTopicSchema)` from position `from` on. */
  function TopicItemIssues(items: seq<RawValue>, from: nat): (issues: seq<Issue>)
    requires from <= |items|
    ensures issues == [] <==> forall i :: from <= i < |items| ==> TopicOk(items[i])
    ensures AllAbout(issues, TopicsField)
    decreases |items| - from
  {
    if from == |items| then []
    else
      var here := if TopicOk(items[from]) then []
        else [Issue(TopicsField, Some(from), if items[from].Str? then InvalidEnumValue else InvalidType)];
      here + TopicItemIssues(items, from + 1)
  }

  /** `z.array(PostTopicSchema).min(1)` on the value `v` of the `topics`
      field: the length issue comes before the element issues. */
  function CheckTopics(v: Option<RawValue>): (r: Result<seq<Topic>, seq<Issue>>)
    ensures r.Success? <==> TopicsOk(v)
    ensures r.Success? ==> TopicsFrom(v, r.value)
    ensures r.Failure? ==> r.error != [] && AllAbout(r.error, TopicsField)
  {
    match v
    case None => Failure([Issue(TopicsField, None, Required)])
    case Some(List(items)) =>
      var issues := (if |items| < 1 then [Issue(TopicsField, None, TooSmall)] else [])
        + TopicItemIssues(items, 0);
      if issues == [] then
        Success(seq(|items|, i requires 0 <= i < |items| && TopicOk(items[i]) => items[i].s))
      else Failure(issues)
    case Some(_) => Failure([Issue(TopicsField, None, InvalidType)])
  }

  /** The issues the check of field `f` raises; empty when it passes. */
  function FieldIssues(fm: Frontmatter, f: Field): (issues: seq<Issue>)
    ensures issues == [] <==> FieldOk(fm, f)
    ensures AllAbout(issues, f)
  {
    var v := Lookup(fm, f);
    match f
    case CreatedField | UpdatedField => IssuesOf(CheckDate(v, f))
    case CategoryField => IssuesOf(CheckCategory(v))
    case TopicsField => IssuesOf(CheckTopics(v))
    case _ => IssuesOf(CheckTrimmedString(v, f))
  }

  //---------------------------------------------------------------------------
  // frontmatter schemas
  //---------------------------------------------------------------------------

  /** Every field of `fields` passes its check. */
  predicate SchemaOk(fm: Frontmatter, fields: seq<Field>)
  {
    forall i :: 0 <= i < |fields| ==> FieldOk(fm, fields[i])
  }

  /** Some issue of `issues` is about `f`. */
  ghost predicate Reports(issues: seq<Issue>, f: Field)
  {
    exists k :: 0 <= k < |issues| && issues[k].field == f
  }

  /** `z.object(...)` over the keys `fields`: the issues of every field
      check, field by field in schema order. */
  function SchemaIssues(fm: Frontmatter, fields: seq<Field>): (issues: seq<Issue>)
    ensures issues == [] <==> SchemaOk(fm, fields)
  {
    if fields == [] then []
    else FieldIssues(fm, fields[0]) + SchemaIssues(fm, fields[1..])
  }

  /** Every issue of `issues` is about a field of `fields` that fails its
      check. */
  ghost predicate OnlyFailing(fm: Frontmatter, issues: seq<Issue>, fields: seq<Field>)
  {
    forall k :: 0 <= k < |issues| ==> issues[k].field in fields && !FieldOk(fm, issues[k].field)
  }

  /** The schema issues name only fields of the schema that fail. */
  lemma {:induction false} SchemaIssuesSound(fm: Frontmatter, fields: seq<Field>)
    ensures OnlyFailing(fm, SchemaIssues(fm, fields), fields)
  {
    if fields != [] {
      var head: seq<Issue> := FieldIssues(fm, fields[0]);
      var tail: seq<Issue> := SchemaIssues(fm, fields[1..]);
      SchemaIssuesSound(fm, fields[1..]);
      assert OnlyFailing(fm, tail, fields[1..]);
      var issues: seq<Issue> := head + tail;
      forall k | 0 <= k < |issues|
        ensures issues[k].field in fields && !FieldOk(fm, issues[k].field)
      {
        if k < |head| {
          assert issues[k] == head[k] && head != [];
        } else {
          assert issues[k] == tail[k - |head|];
          assert tail[k - |head|].field in fields[1..];
        }
      }
    }
  }

  /** The schema issues name every field of the schema that fails. */
  lemma {:induction false} SchemaIssuesComplete(fm: Frontmatter, fields: seq<Field>, f: Field)
    requires f in fields && !FieldOk(fm, f)
    ensures Reports(SchemaIssues(fm, fields), f)
  {
    var head, tail := FieldIssues(fm, fields[0]), SchemaIssues(fm, fields[1..]);
    assert SchemaIssues(fm, fields) == head + tail;
    if fields[0] == f {
      assert (head + tail)[0] == head[0];
    } else {
      SchemaIssuesComplete(fm, fields[1..], f);
      var k :| 0 <= k < |tail| && tail[k].field == f;
      assert (head + tail)[|head| + k] == tail[k];
    }
  }

  /** The value of a string field whose check passed: its trim. */
  function TrimmedValue(fm: Frontmatter, f: Field): (t: string)
    requires StringOk(Lookup(fm, f))
    ensures TrimmedFrom(Lookup(fm, f), t) && NonBlank(t)
  {
    TrimIdempotent(Lookup(fm, f).value.s);
    CheckTrimmedString(Lookup(fm, f), f).value
  }

  /** `parsePostFrontmatter(rawFrontmatter, slug)`. It succeeds exactly when
      every post field passes its check, and then holds the slug, the trimmed
      title and description, the two ISO dates, the category and the topics.
      Otherwise every issue it reports is about a post field that fails
      (`ParsePostReportsEveryFailure` gives the converse). */
  function ParsePostFrontmatter(fm: Frontmatter, slug: string): (r: Result<PostMeta, seq<Issue>>)
    ensures r.Success? <==> SchemaOk(fm, PostFields)
    ensures r.Success? ==>
      && r.value.slug == slug
      && TrimmedFrom(Lookup(fm, TitleField), r.value.title)
      && TrimmedFrom(Lookup(fm, DescriptionField), r.value.description)
      && DateFrom(Lookup(fm, CreatedField), r.value.created)
      && DateFrom(Lookup(fm, UpdatedField), r.value.updated)
      && Lookup(fm, CategoryField) == Some(Str(r.value.category))
      && TopicsFrom(Lookup(fm, TopicsField), r.value.topics) && |r.value.topics| >= 1
    ensures r.Failure? ==> r.error != []
    ensures r.Failure? ==> OnlyFailing(fm, r.error, PostFields)
  {
    var issues := SchemaIssues(fm, PostFields);
    if issues == [] then
      assert FieldOk(fm, PostFields[0]) && FieldOk(fm, PostFields[1]) && FieldOk(fm, PostFields[2]);
      assert FieldOk(fm, PostFields[3]) && FieldOk(fm, PostFields[4]) && FieldOk(fm, PostFields[5]);
      var topics := CheckTopics(Lookup(fm, TopicsField)).value;
      Success(PostMeta(slug, TrimmedValue(fm, TitleField), TrimmedValue(fm, DescriptionField),
                       CheckDate(Lookup(fm, CreatedField), CreatedField).value,
                       CheckDate(Lookup(fm, UpdatedField), UpdatedField).value,
                       CheckCategory(Lookup(fm, CategoryField)).value, topics))
    else
      SchemaIssuesSound(fm, PostFields);
      Failure(issues)
  }

  /** A failed post parse reports every post field that fails its check. */
  lemma ParsePostReportsEveryFailure(fm: Frontmatter, slug: string, f: Field)
    requires f in PostFields && !FieldOk(fm, f)
    ensures ParsePostFrontmatter(fm, slug).Failure?
    ensures Reports(ParsePostFrontmatter(fm, slug).error, f)
  {
    SchemaIssuesComplete(fm, PostFields, f);
  }

  /** `parseProjectFrontmatter(rawFrontmatter, slug)`: as for posts, with the
      three image fields in place of category and topics. */
  function ParseProjectFrontmatter(fm: Frontmatter, slug: string): (r: Result<ProjectMeta, seq<Issue>>)
    ensures r.Success? <==> SchemaOk(fm, ProjectFields)
    ensures r.Success? ==>
      && r.value.slug == slug
      && TrimmedFrom(Lookup(fm, TitleField), r.value.title)
      && TrimmedFrom(Lookup(fm, DescriptionField), r.value.description)
      && DateFrom(Lookup(fm, CreatedField), r.value.created)
      && DateFrom(Lookup(fm, UpdatedField), r.value.updated)
      && TrimmedFrom(Lookup(fm, ImgUrlField), r.value.imgUrl)
      && TrimmedFrom(Lookup(fm, ImgAltField), r.value.imgAlt)
      && TrimmedFrom(Lookup(fm, GradientField), r.value.gradient)
    ensures r.Failure? ==> r.error != []
    ensures r.Failure? ==> OnlyFailing(fm, r.error, ProjectFields)
  {
    var issues := SchemaIssues(fm, ProjectFields);
    if issues == [] then
      assert FieldOk(fm, ProjectFields[0]) && FieldOk(fm, ProjectFields[1]) && FieldOk(fm, ProjectFields[2]);
      assert FieldOk(fm, ProjectFields[3]) && FieldOk(fm, ProjectFields[4]) && FieldOk(fm, ProjectFields[5]);
      assert FieldOk(fm, ProjectFields[6]);
      Success(ProjectMeta(slug, TrimmedValue(fm, TitleField), TrimmedValue(fm, DescriptionField),
                          CheckDate(Lookup(fm, CreatedField), CreatedField).value,
                          CheckDate(Lookup(fm, UpdatedField), UpdatedField).value,
                          TrimmedValue(fm, ImgUrlField), TrimmedValue(fm, ImgAltField),
                          TrimmedValue(fm, GradientField)))
    else
      SchemaIssuesSound(fm, ProjectFields);
      Failure(issues)
  }

  /** A failed project parse reports every project field that fails its check. */
  lemma ParseProjectReportsEveryFailure(fm: Frontmatter, slug: string, f: Field)
    requires f in ProjectFields && !FieldOk(fm, f)
    ensures ParseProjectFrontmatter(fm, slug).Failure?
    ensures Reports(ParseProjectFrontmatter(fm, slug).error, f)
  {
    SchemaIssuesComplete(fm, ProjectFields, f);
  }

  /** A parsed post satisfies `PostMetaSchema` whenever its slug is not blank
      (the slug is not validated by the parser), and its topic list is never
      empty although the metadata type allows it. */
  lemma ParsedPostIsValid(fm: Frontmatter, slug: string)
    requires ParsePostFrontmatter(fm, slug).Success?
    ensures var m := ParsePostFrontmatter(fm, slug).value;
      |m.topics| >= 1 && (ValidPostMeta(m) <==> NonBlank(slug))
  {
    var m := ParsePostFrontmatter(fm, slug).value;
    TrimIdempotent(Lookup(fm, TitleField).value.s);
    TrimIdempotent(Lookup(fm, DescriptionField).value.s);
    IsoTimestampNonBlank(Lookup(fm, CreatedField).value.iso);
    IsoTimestampNonBlank(Lookup(fm, UpdatedField).value.iso);
  }

  /** A parsed project satisfies `ProjectMetaSchema` whenever its slug is not
      blank. */
  lemma ParsedProjectIsValid(fm: Frontmatter, slug: string)
    requires ParseProjectFrontmatter(fm, slug).Success?
    ensures ValidProjectMeta(ParseProjectFrontmatter(fm, slug).value) <==> NonBlank(slug)
  {
    var m := ParseProjectFrontmatter(fm, slug).value;
    TrimIdempotent(Lookup(fm, TitleField).value.s);
    TrimIdempotent(Lookup(fm, DescriptionField).value.s);
    TrimIdempotent(Lookup(fm, ImgUrlField).value.s);
    TrimIdempotent(Lookup(fm, ImgAltField).value.s);
    TrimIdempotent(Lookup(fm, GradientField).value.s);
    IsoTimestampNonBlank(Lookup(fm, CreatedField).value.iso);
    IsoTimestampNonBlank(Lookup(fm, UpdatedField).value.iso);
  }

  //---------------------------------------------------------------------------
  // slugs and lookup (`getSlugFromPath`, `getAllSlugs`, the `find` calls)
  //---------------------------------------------------------------------------

  /** `getSlugFromPath`: the last `/`-segment of the path up to its first `.`. */
  function GetSlugFromPath(path: string): (slug: string)
    ensures '/' !in slug && '.' !in slug
    ensures var fileName := Last(Split(path, '/'));
      && |slug| <= |fileName| && slug == fileName[..|slug|]
      && (|slug| == |fileName| || fileName[|slug|] == '.')
  {
    var fileName := Last(Split(path, '/'));
    var parts := Split(fileName, '.');
    assert fileName in Split(path, '/');
    SplitFirstPiece(fileName, '.');
    assert forall c :: c in parts[0] ==> c in fileName by {
      assert fileName[..|parts[0]|] == parts[0];
    }
    parts[0]
  }

  /** The slug of `dir/name.mdx` is `name` when `name` holds neither `/`
      nor `.`. */
  lemma SlugOfContentPath(dir: string, name: string)
    requires '/' !in name && '.' !in name
    ensures GetSlugFromPath(dir + "/" + name + ".mdx") == name
  {
    assert ".mdx" == "." + "mdx";
    assert dir + "/" + name + ".mdx" == dir + "/" + name + "." + "mdx";
    SlugOfFile(dir, name, "mdx");
  }

  /** The slug of `dir/name.rest` is `name` when `name` holds neither `/`
      nor `.` and `rest` holds no `/`. */
  lemma SlugOfFile(dir: string, name: string, rest: string)
    requires '/' !in name && '.' !in name && '/' !in rest
    ensures GetSlugFromPath(dir + "/" + name + "." + rest) == name
  {
    var file := name + ['.'] + rest;
    assert dir + "/" + name + "." + rest == dir + ['/'] + file;
    SplitAppendSep(dir, file, '/');
    SplitFree(file, '/');
    SplitPrefix(name, rest, '.');
  }

  /** `getAllSlugs`: the slug of every path, in path order. */
  function GetAllSlugs(paths: seq<string>): (slugs: seq<string>)
    ensures |slugs| == |paths|
    ensures forall i :: 0 <= i < |slugs| ==> slugs[i] == GetSlugFromPath(paths[i])
    ensures forall i :: 0 <= i < |slugs| ==> '/' !in slugs[i] && '.' !in slugs[i]
  {
    seq(|paths|, i requires 0 <= i < |paths| => GetSlugFromPath(paths[i]))
  }

  /** `path.endsWith(suffix)`. */
  predicate EndsWith(path: string, suffix: string)
  {
    |suffix| <= |path| && path[|path| - |suffix|..] == suffix
  }

  /** `endsWith` holds exactly when the path is some text followed by the
      suffix. */
  lemma EndsWithIsSuffix(path: string, suffix: string)
    ensures EndsWith(path, suffix) <==> exists prefix :: prefix + suffix == path
  {
    if EndsWith(path, suffix) {
      assert path[..|path| - |suffix|] + suffix == path;
    }
    forall prefix | prefix + suffix == path
      ensures EndsWith(path, suffix)
    {
      assert path[|path| - |suffix|..] == suffix;
    }
  }

  /** A common tail can be dropped: `q + ext` ends with `a + ext` exactly
      when `q` ends with `a`. */
  lemma EndsWithCommonTail(q: string, a: string, ext: string)
    ensures EndsWith(q + ext, a + ext) <==> EndsWith(q, a)
  {
    var p := q + ext;
    if |a| <= |q| {
      assert p[|p| - |a + ext|..] == q[|q| - |a|..] + ext;
    }
    if EndsWith(p, a + ext) {
      assert q[|q| - |a|..] == p[|p| - |a + ext|..][..|a|];
    }
  }

  /** The index of the first path ending with `suffix`, or -1. */
  function FirstEndingWith(paths: seq<string>, suffix: string): (i: int)
    ensures -1 <= i < |paths|
    ensures i == -1 <==> forall j :: 0 <= j < |paths| ==> !EndsWith(paths[j], suffix)
    ensures i >= 0 ==> EndsWith(paths[i], suffix) && forall j :: 0 <= j < i ==> !EndsWith(paths[j], suffix)
  {
    if paths == [] then -1
    else if EndsWith(paths[0], suffix) then 0
    else
      var k := FirstEndingWith(paths[1..], suffix);
      if k == -1 then -1 else k + 1
  }

  /** `allPaths.find((path) => path.endsWith(`${slug}.mdx`))`: the first path
      whose text ends with the slug and the extension, if any. */
  function FindPathBySlug(paths: seq<string>, slug: string): (r: Option<string>)
    ensures r.None? <==> forall j :: 0 <= j < |paths| ==> !EndsWith(paths[j], slug + ".mdx")
    ensures r.Some? ==> exists i :: (
      && 0 <= i < |paths| && paths[i] == r.value
      && EndsWith(r.value, slug + ".mdx")
      && forall j :: 0 <= j < i ==> !EndsWith(paths[j], slug + ".mdx"))
  {
    var i := FirstEndingWith(paths, slug + ".mdx");
    if i == -1 then None else Some(paths[i])
  }

  /** A content path `dir/name.mdx` is always found by its own slug. */
  lemma FindPathBySlugComplete(paths: seq<string>, dir: string, name: string)
    requires dir + "/" + name + ".mdx" in paths
    ensures FindPathBySlug(paths, name).Some?
  {
    var p := dir + "/" + name + ".mdx";
    var k :| 0 <= k < |paths| && paths[k] == p;
    assert p[|p| - |name + ".mdx"|..] == name + ".mdx";
    assert EndsWith(paths[k], name + ".mdx");
  }

  /** Lookup matches a suffix, not the derived slug: a file named
      `prefix + name` is found by the slug `name` although its own slug is
      `prefix + name`. */
  lemma FindPathBySlugMatchesSuffix(dir: string, prefix: string, name: string)
    requires '/' !in prefix + name && '.' !in prefix + name
    requires prefix != []
    ensures var p := dir + "/" + prefix + name + ".mdx";
      && FindPathBySlug([p], name) == Some(p)
      && GetSlugFromPath(p) == prefix + name != name
  {
    var p := dir + "/" + prefix + name + ".mdx";
    assert p == dir + "/" + (prefix + name) + ".mdx";
    SlugOfContentPath(dir, prefix + name);
    assert p[|p| - |name + ".mdx"|..] == name + ".mdx";
    assert FirstEndingWith([p], name + ".mdx") == 0;
  }

  /** A file name with a `.` before its extension is not found by its own
      slug: `dir/a.b.mdx` has the slug `a`, and the lookup by `a` asks for a
      path ending in `a.mdx`. */
  lemma DottedNameNotFound(dir: string, a: string, b: string)
    requires '/' !in a && '/' !in b && '.' !in a
    requires !EndsWith(dir + "/" + a + "." + b, a)
    ensures var p := dir + "/" + a + "." + b + ".mdx";
      && GetSlugFromPath(p) == a
      && FindPathBySlug([p], a) == None
  {
    var q := dir + "/" + a + "." + b;
    assert q + ".mdx" == dir + "/" + a + "." + (b + ".mdx");
    SlugOfFile(dir, a, b + ".mdx");
    EndsWithCommonTail(q, a, ".mdx");
  }

  //---------------------------------------------------------------------------
  // loading and sorting previews
  //---------------------------------------------------------------------------

  /** Why a listing or a lookup produced no result: a frontmatter that
      failed validation (zod's error, rethrown as it is, so it does not say
      which file failed), or `notFound()`. */
  datatype IndexError = ValidationError(issues: seq<Issue>) | NotFound

  /** The frontmatter parser applied to a file, with the slug taken from its
      path (`getPostPreviewFromPath`, `getProjectPreviewFromPath`). */
  function ParseFile<M>(path: string, read: string -> Frontmatter,
                        parse: (Frontmatter, string) -> Result<M, seq<Issue>>): Result<M, seq<Issue>>
  {
    parse(read(path), GetSlugFromPath(path))
  }

  /** `getPostPreviewFromPath(path)`: a preview exactly when the file's
      frontmatter passes the post schema, carrying the slug of the path;
      otherwise the failing fields' issues and no others. */
  lemma PostPreviewFromPath(path: string, read: string -> Frontmatter)
    ensures var r := ParseFile(path, read, ParsePostFrontmatter);
      && (r.Success? <==> SchemaOk(read(path), PostFields))
      && (r.Success? ==> r.value.slug == GetSlugFromPath(path) && '/' !in r.value.slug && '.' !in r.value.slug)
      && (r.Failure? ==> r.error != [] && OnlyFailing(read(path), r.error, PostFields))
  {
  }

  /** `getProjectPreviewFromPath(path)`, the same for the project schema. */
  lemma ProjectPreviewFromPath(path: string, read: string -> Frontmatter)
    ensures var r := ParseFile(path, read, ParseProjectFrontmatter);
      && (r.Success? <==> SchemaOk(read(path), ProjectFields))
      && (r.Success? ==> r.value.slug == GetSlugFromPath(path) && '/' !in r.value.slug && '.' !in r.value.slug)
      && (r.Failure? ==> r.error != [] && OnlyFailing(read(path), r.error, ProjectFields))
  {
  }

  /** Shifting a prefix of successes on `paths[1..]` by one past a
      successful head gives a prefix of successes on `paths`. */
  lemma FirstFailureShift<M>(paths: seq<string>, read: string -> Frontmatter,
                             parse: (Frontmatter, string) -> Result<M, seq<Issue>>, i: nat)
    requires i < |paths| - 1 && ParseFile(paths[0], read, parse).Success?
    requires forall j :: 0 <= j < i ==> ParseFile(paths[1..][j], read, parse).Success?
    ensures forall j :: 0 <= j < i + 1 ==> ParseFile(paths[j], read, parse).Success?
  {
    forall j | 0 <= j < i + 1
      ensures ParseFile(paths[j], read, parse).Success?
    {
      if j > 0 {
        assert paths[j] == paths[1..][j - 1];
      }
    }
  }

  /** `Promise.all(pathList.map(getPreviewFromPath))`: every file's preview,
      in path order, or the error of the first file that fails. */
  function ParseAll<M>(paths: seq<string>, read: string -> Frontmatter,
                       parse: (Frontmatter, string) -> Result<M, seq<Issue>>): (r: Result<seq<M>, IndexError>)
    ensures r.Success? <==> forall i :: 0 <= i < |paths| ==> ParseFile(paths[i], read, parse).Success?
    ensures r.Success? ==> (
      && |r.value| == |paths|
      && forall i :: 0 <= i < |paths| ==> r.value[i] == ParseFile(paths[i], read, parse).value)
    ensures r.Failure? ==> exists i :: (
      && 0 <= i < |paths| && ParseFile(paths[i], read, parse).Failure?
      && r.error == ValidationError(ParseFile(paths[i], read, parse).error)
      && forall j :: 0 <= j < i ==> ParseFile(paths[j], read, parse).Success?)
  {
    if paths == [] then Success([])
    else
      var head := ParseFile(paths[0], read, parse);
      if head.Failure? then Failure(ValidationError(head.error))
      else
        var rest := ParseAll(paths[1..], read, parse);
        if rest.Failure? then
          assert exists i :: (
            && 0 <= i < |paths| && ParseFile(paths[i], read, parse).Failure?
            && rest.error == ValidationError(ParseFile(paths[i], read, parse).error)
            && forall j :: 0 <= j < i ==> ParseFile(paths[j], read, parse).Success?) by {
            var i :| (
              && 0 <= i < |paths[1..]| && ParseFile(paths[1..][i], read, parse).Failure?
              && rest.error == ValidationError(ParseFile(paths[1..][i], read, parse).error)
              && forall j :: 0 <= j < i ==> ParseFile(paths[1..][j], read, parse).Success?);
            FirstFailureShift(paths, read, parse, i);
            assert paths[i + 1] == paths[1..][i];
          }
          Failure(rest.error)
        else Success([head.value] + rest.value)
  }

  /** `sortPreviewsByDate` on the `created` strings of two previews: 1 when
      `a` was created first, -1 when `b` was, 0 when the strings are equal,
      so that sorting puts the most recent first. */
  function SortPreviewsByDate(a: string, b: string): (c: int)
    ensures c == 1 <==> StrLess(a, b)
    ensures c == -1 <==> StrLess(b, a)
    ensures c == 0 <==> a == b
  {
    StrLessTotal(a, b);
    StrLessIrreflexive(a);
    StrLessAsymmetric(a, b);
    if StrLess(a, b) then 1 else if StrLess(b, a) then -1 else 0
  }

  /** The comparator is antisymmetric. */
  lemma SortPreviewsByDateAntisymmetric(a: string, b: string)
    ensures SortPreviewsByDate(a, b) == -SortPreviewsByDate(b, a)
  {
  }

  /** The comparator is transitive, so `Array.prototype.sort` gets a
      consistent comparator. */
  lemma SortPreviewsByDateTransitive(a: string, b: string, c: string)
    requires SortPreviewsByDate(a, b) <= 0 && SortPreviewsByDate(b, c) <= 0
    ensures SortPreviewsByDate(a, c) <= 0
  {
    if StrLess(b, a) && StrLess(c, b) {
      StrLessTransitive(c, b, a);
    }
  }

  /** No element was created after the one before it. */
  ghost predicate NewestFirst<T>(xs: seq<T>, created: T -> string)
  {
    forall i, j :: 0 <= i < j < |xs| ==> SortPreviewsByDate(created(xs[i]), created(xs[j])) <= 0
  }

  /** Inserts `x` before the first element not created after it. */
  function InsertByDate<T>(x: T, r: seq<T>, created: T -> string): (r': seq<T>)
    ensures multiset(r') == multiset(r) + multiset{x}
  {
    if r == [] then [x]
    else if SortPreviewsByDate(created(x), created(r[0])) <= 0 then [x] + r
    else
      assert r == [r[0]] + r[1..];
      [r[0]] + InsertByDate(x, r[1..], created)
  }

  /** Inserting into a list sorted most recent first keeps it sorted. */
  lemma {:induction false} InsertByDateSorted<T>(x: T, r: seq<T>, created: T -> string)
    requires NewestFirst(r, created)
    ensures NewestFirst(InsertByDate(x, r, created), created)
  {
    if r == [] {
    } else if SortPreviewsByDate(created(x), created(r[0])) <= 0 {
      forall j | 0 <= j < |r| ensures SortPreviewsByDate(created(x), created(r[j])) <= 0 {
        if j > 0 {
          SortPreviewsByDateTransitive(created(x), created(r[0]), created(r[j]));
        }
      }
    } else {
      var t := InsertByDate(x, r[1..], created);
      InsertByDateSorted(x, r[1..], created);
      assert r == [r[0]] + r[1..];
      forall j | 0 <= j < |t| ensures SortPreviewsByDate(created(r[0]), created(t[j])) <= 0 {
        assert t[j] in multiset(t);
        if t[j] in multiset(r[1..]) {
          var k :| 0 <= k < |r[1..]| && r[1..][k] == t[j];
          assert r[k + 1] == t[j];
        }
      }
      NewestFirstCons(r[0], t, created);
    }
  }

  /** An element created no earlier than everything after it can go in front
      of a list sorted most recent first. */
  lemma NewestFirstCons<T>(h: T, t: seq<T>, created: T -> string)
    requires NewestFirst(t, created)
    requires forall j :: 0 <= j < |t| ==> SortPreviewsByDate(created(h), created(t[j])) <= 0
    ensures NewestFirst([h] + t, created)
  {
    var s := [h] + t;
    forall i, j | 0 <= i < j < |s| ensures SortPreviewsByDate(created(s[i]), created(s[j])) <= 0 {
      assert s[j] == t[j - 1];
      if i > 0 {
        assert s[i] == t[i - 1];
      }
    }
  }

  /** `previews.sort(sortPreviewsByDate)`: the previews, most recent first. */
  function SortByDate<T>(xs: seq<T>, created: T -> string): (r: seq<T>)
    ensures NewestFirst(r, created)
    ensures multiset(r) == multiset(xs)
  {
    if xs == [] then []
    else
      assert xs == [xs[0]] + xs[1..];
      InsertByDateSorted(xs[0], SortByDate(xs[1..], created), created);
      InsertByDate(xs[0], SortByDate(xs[1..], created), created)
  }

  /** Whether a preview was created at `c`. */
  function CreatedAt<T>(created: T -> string, c: string): T -> bool
  {
    y => created(y) == c
  }

  /** Inserting keeps the order among previews created at the same time,
      the inserted one going first. */
  lemma {:induction false} InsertByDateStable<T(!new)>(x: T, r: seq<T>, created: T -> string, c: string)
    ensures Filter(InsertByDate(x, r, created), CreatedAt(created, c))
      == Filter([x], CreatedAt(created, c)) + Filter(r, CreatedAt(created, c))
  {
    var same := CreatedAt(created, c);
    if r == [] {
    } else if SortPreviewsByDate(created(x), created(r[0])) <= 0 {
      FilterAppend([x], r, same);
    } else {
      var t := InsertByDate(x, r[1..], created);
      assert InsertByDate(x, r, created) == [r[0]] + t;
      assert r == [r[0]] + r[1..];
      InsertByDateStable(x, r[1..], created, c);
      FilterAppend([r[0]], t, same);
      FilterAppend([r[0]], r[1..], same);
      var fx, f0, ft, fr := Filter([x], same), Filter([r[0]], same), Filter(t, same), Filter(r[1..], same);
      assert ft == fx + fr;
      FilterSingleton(x, same);
      FilterSingleton(r[0], same);
      if same(x) {
        assert created(r[0]) != created(x);
        assert !same(r[0]);
        assert f0 == [];
        assert f0 + ft == fx + (f0 + fr);
      } else {
        assert fx == [];
        assert f0 + ft == fx + (f0 + fr);
      }
    }
  }

  /** The sort is stable: previews created at the same time keep their
      relative order. */
  lemma {:induction false} SortByDateStable<T(!new)>(xs: seq<T>, created: T -> string, c: string)
    ensures Filter(SortByDate(xs, created), CreatedAt(created, c)) == Filter(xs, CreatedAt(created, c))
  {
    if xs != [] {
      SortByDateStable(xs[1..], created, c);
      InsertByDateStable(xs[0], SortByDate(xs[1..], created), created, c);
      assert xs == [xs[0]] + xs[1..];
      FilterAppend([xs[0]], xs[1..], CreatedAt(created, c));
    }
  }

  /** A subsequence of a list sorted most recent first is sorted likewise. */
  lemma {:induction false} SubsequenceNewestFirst<T>(r: seq<T>, s: seq<T>, created: T -> string)
    requires IsSubsequence(r, s) && NewestFirst(s, created)
    ensures NewestFirst(r, created)
  {
    if r != [] {
      assert NewestFirst(s[1..], created);
      if r[0] == s[0] {
        SubsequenceNewestFirst(r[1..], s[1..], created);
        forall j | 1 <= j < |r| ensures SortPreviewsByDate(created(r[0]), created(r[j])) <= 0 {
          SubsequenceMembers(r[1..], s[1..], r[j]);
          var k :| 0 <= k < |s[1..]| && s[1..][k] == r[j];
          assert s[k + 1] == r[j];
        }
      } else {
        SubsequenceNewestFirst(r, s[1..], created);
      }
    }
  }

  /** Every element of a subsequence is an element of the sequence. */
  lemma {:induction false} SubsequenceMembers<T>(r: seq<T>, s: seq<T>, x: T)
    requires IsSubsequence(r, s) && x in r
    ensures x in s
  {
    if r[0] == s[0] {
      if x != r[0] {
        SubsequenceMembers(r[1..], s[1..], x);
      }
    } else {
      SubsequenceMembers(r, s[1..], x);
    }
  }

  //---------------------------------------------------------------------------
  // listings
  //---------------------------------------------------------------------------

  function PostCreated(m: PostMeta): string { m.created }

  function ProjectCreated(m: ProjectMeta): string { m.created }

  /** `getAllPostPreviews` and `getPostPreviewsByCategory`, given the paths
      their glob returned: the parsed previews, most recent first. */
  function GetSortedPostPreviews(paths: seq<string>, read: string -> Frontmatter): (r: Result<seq<PostMeta>, IndexError>)
    ensures var all := ParseAll(paths, read, ParsePostFrontmatter);
      && (r.Success? <==> all.Success?)
      && (r.Success? ==> NewestFirst(r.value, PostCreated) && multiset(r.value) == multiset(all.value))
      && (r.Failure? ==> r.error == all.error)
  {
    var all := ParseAll(paths, read, ParsePostFrontmatter);
    if all.Failure? then Failure(all.error) else Success(SortByDate(all.value, PostCreated))
  }

  /** `filterPostPreviewsByTopic`: the previews tagged with `topic`, in their
      original order. */
  function FilterPostPreviewsByTopic(previews: seq<PostMeta>, topic: Topic): (r: seq<PostMeta>)
    ensures forall p :: p in r <==> p in previews && topic in p.topics
    ensures forall p: PostMeta :: topic in p.topics ==> multiset(r)[p] == multiset(previews)[p]
    ensures IsSubsequence(r, previews)
  {
    var keep := (p: PostMeta) => topic in p.topics;
    FilterIsSubsequence(previews, keep);
    assert forall p :: p in Filter(previews, keep) <==> p in previews && keep(p) by {
      forall p ensures p in Filter(previews, keep) <==> p in previews && keep(p) {
        FilterMembership(previews, keep, p);
      }
    }
    assert forall p: PostMeta :: keep(p) ==> multiset(Filter(previews, keep))[p] == multiset(previews)[p] by {
      forall p: PostMeta | keep(p) ensures multiset(Filter(previews, keep))[p] == multiset(previews)[p] {
        FilterCounts(previews, keep, p);
      }
    }
    Filter(previews, keep)
  }

  /** `getPostPreviews(category, topic)`, given the paths of the category's
      glob: the sorted previews, filtered by the topic only when one is
      given. */
  function GetPostPreviews(paths: seq<string>, read: string -> Frontmatter, topic: Option<Topic>): (r: Result<seq<PostMeta>, IndexError>)
    ensures var sorted := GetSortedPostPreviews(paths, read);
      && (r.Success? <==> sorted.Success?)
      && (r.Failure? ==> r.error == sorted.error)
      && (r.Success? ==> NewestFirst(r.value, PostCreated))
      && (r.Success? && topic.None? ==> r.value == sorted.value)
      && (r.Success? && topic.Some? ==> r.value == FilterPostPreviewsByTopic(sorted.value, topic.value))
      && (r.Success? && topic.Some? ==> forall p :: p in r.value <==> p in sorted.value && topic.value in p.topics)
  {
    var sorted := GetSortedPostPreviews(paths, read);
    if sorted.Failure? then Failure(sorted.error)
    else if topic.Some? then
      var r := FilterPostPreviewsByTopic(sorted.value, topic.value);
      SubsequenceNewestFirst(r, sorted.value, PostCreated);
      Success(r)
    else sorted
  }

  /** `postPreviews.map((postMeta) => postMeta.topics).flat()`. */
  function AllTopics(previews: seq<PostMeta>): (ts: seq<string>)
    ensures forall t :: t in ts <==> exists p :: p in previews && t in p.topics
  {
    if previews == [] then []
    else
      var rest := AllTopics(previews[1..]);
      assert forall p :: p in previews <==> p == previews[0] || p in previews[1..];
      previews[0].topics + rest
  }

  /** `[...new Set(topics)].sort()`: the topics of the previews, each once,
      in ascending order. */
  function TopicsInUse(previews: seq<PostMeta>): (r: seq<string>)
    ensures StrictlyAscending(r)
    ensures forall t :: t in r <==> exists p :: p in previews && t in p.topics
    ensures forall i :: 0 <= i < |r| ==> r[i] in TopicNames
  {
    var r := SortedDistinct(AllTopics(previews));
    assert forall i :: 0 <= i < |r| ==> r[i] in TopicNames by {
      forall i | 0 <= i < |r| ensures r[i] in TopicNames {
        assert r[i] in AllTopics(previews);
        var p :| p in previews && r[i] in p.topics;
      }
    }
    r
  }

  /** The topics in use do not depend on the order of the previews, so
      sorting before collecting them changes nothing. */
  lemma TopicsInUseIgnoresOrder(a: seq<PostMeta>, b: seq<PostMeta>)
    requires multiset(a) == multiset(b)
    ensures TopicsInUse(a) == TopicsInUse(b)
  {
    forall p ensures p in a <==> p in b {
      assert p in a <==> p in multiset(a);
    }
    AscendingUnique(TopicsInUse(a), TopicsInUse(b));
  }

  /** `getAllPostTopicsInUse(category)`, given the paths of the category's
      glob. */
  function GetAllPostTopicsInUse(paths: seq<string>, read: string -> Frontmatter): (r: Result<seq<string>, IndexError>)
    ensures var sorted := GetSortedPostPreviews(paths, read);
      && (r.Success? <==> sorted.Success?)
      && (r.Failure? ==> r.error == sorted.error)
      && (r.Success? ==> StrictlyAscending(r.value))
      && (r.Success? ==> forall t :: t in r.value <==> exists p :: p in sorted.value && t in p.topics)
  {
    var sorted := GetSortedPostPreviews(paths, read);
    if sorted.Failure? then Failure(sorted.error) else Success(TopicsInUse(sorted.value))
  }

  /** `getAllProjectPreviews`, given the paths its glob returned: the parsed
      project previews, most recent first. */
  function GetAllProjectPreviews(paths: seq<string>, read: string -> Frontmatter): (r: Result<seq<ProjectMeta>, IndexError>)
    ensures var all := ParseAll(paths, read, ParseProjectFrontmatter);
      && (r.Success? <==> all.Success?)
      && (r.Success? ==> NewestFirst(r.value, ProjectCreated) && multiset(r.value) == multiset(all.value))
      && (r.Failure? ==> r.error == all.error)
  {
    var all := ParseAll(paths, read, ParseProjectFrontmatter);
    if all.Failure? then Failure(all.error) else Success(SortByDate(all.value, ProjectCreated))
  }

  //---------------------------------------------------------------------------
  // single entries
  //---------------------------------------------------------------------------

  /** `getPostFromSlug(slug)` without the compiled content: `notFound()` when
      no path ends with the slug, otherwise the metadata of the first path
      that does, under that path's own slug. */
  function GetPostFromSlug(paths: seq<string>, read: string -> Frontmatter, slug: string): (r: Result<PostMeta, IndexError>)
    ensures r == Failure(NotFound) <==> forall j :: 0 <= j < |paths| ==> !EndsWith(paths[j], slug + ".mdx")
    ensures r.Success? ==> (
      var p := FindPathBySlug(paths, slug).value;
      && EndsWith(p, slug + ".mdx")
      && r.value.slug == GetSlugFromPath(p)
      && ParsePostFrontmatter(read(p), GetSlugFromPath(p)) == Success(r.value))
    ensures r.Failure? && r.error.ValidationError? ==> (
      var p := FindPathBySlug(paths, slug).value;
      && ParsePostFrontmatter(read(p), GetSlugFromPath(p)) == Failure(r.error.issues))
  {
    match FindPathBySlug(paths, slug)
    case None => Failure(NotFound)
    case Some(p) =>
      match ParseFile(p, read, ParsePostFrontmatter)
      case Success(meta) => Success(meta)
      case Failure(issues) => Failure(ValidationError(issues))
  }

  /** `getProjectFromSlug(slug)` without the compiled content. */
  function GetProjectFromSlug(paths: seq<string>, read: string -> Frontmatter, slug: string): (r: Result<ProjectMeta, IndexError>)
    ensures r == Failure(NotFound) <==> forall j :: 0 <= j < |paths| ==> !EndsWith(paths[j], slug + ".mdx")
    ensures r.Success? ==> (
      var p := FindPathBySlug(paths, slug).value;
      && EndsWith(p, slug + ".mdx")
      && r.value.slug == GetSlugFromPath(p)
      && ParseProjectFrontmatter(read(p), GetSlugFromPath(p)) == Success(r.value))
    ensures r.Failure? && r.error.ValidationError? ==> (
      var p := FindPathBySlug(paths, slug).value;
      && ParseProjectFrontmatter(read(p), GetSlugFromPath(p)) == Failure(r.error.issues))
  {
    match FindPathBySlug(paths, slug)
    case None => Failure(NotFound)
    case Some(p) =>
      match ParseFile(p, read, ParseProjectFrontmatter)
      case Success(meta) => Success(meta)
      case Failure(issues) => Failure(ValidationError(issues))
  }
}
