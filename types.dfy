/**
 * The metadata shapes of lib/api/posts/types.ts: the category and topic
 * enumerations and the post and project metadata records.
 */
module PostTypes {
  import opened Strings

  /** `PostCategorySchema`: the enumeration values. */
  const CategoryNames: seq<string> := ["articles", "notes", "snippets"]

  /** `PostTopicSchema`: the enumeration values. */
  const TopicNames: seq<string> := [
    "Accessibility", "AI", "Animation", "CSS", "Databases", "Git", "HTML",
    "JavaScript", "NextJS", "Performance", "React", "State", "Tailwind",
    "Testing", "TypeScript"
  ]

  /** A `PostCategory` is a string that is one of the category names. */
  type Category = s: string | s in CategoryNames witness "articles"

  /** A `PostTopic` is a string that is one of the topic names. */
  type Topic = s: string | s in TopicNames witness "AI"

  /** The layout of `Date.prototype.toISOString()`: `d` stands for a digit,
      `s` for a sign, every other character for itself. */
  const IsoLayout: string := "dddd-dd-ddTdd:dd:dd.dddZ"
  const IsoExtendedLayout: string := "sdddddd-dd-ddTdd:dd:dd.dddZ"

  predicate FitsLayout(s: string, layout: string)
  {
    && |s| == |layout|
    && forall i :: 0 <= i < |s| ==>
         if layout[i] == 'd' then IsDigit(s[i])
         else if layout[i] == 's' then s[i] == '+' || s[i] == '-'
         else s[i] == layout[i]
  }

  /** A string `toISOString()` can return: four-digit years, or a signed
      six-digit year outside 0000..9999. */
  predicate IsIsoTimestamp(s: string)
  {
    FitsLayout(s, IsoLayout) || FitsLayout(s, IsoExtendedLayout)
  }

  type IsoTimestamp = s: string | IsIsoTimestamp(s) witness "1970-01-01T00:00:00.000Z"

  /** `z.string().trim().min(1)` read as a property of a stored string. */
  predicate NonBlank(s: string) { Trim(s) != [] }

  /** `PostMeta`. */
  datatype PostMeta = PostMeta(
    slug: string,
    title: string,
    description: string,
    created: string,
    updated: string,
    category: Category,
    topics: seq<Topic>)

  /** `ProjectMeta`: image fields and a gradient instead of category and topics. */
  datatype ProjectMeta = ProjectMeta(
    slug: string,
    title: string,
    description: string,
    created: string,
    updated: string,
    imgUrl: string,
    imgAlt: string,
    gradient: string)

  /** `PostMetaSchema`: every string field non-blank; `topics` may be empty. */
  predicate ValidPostMeta(m: PostMeta)
  {
    NonBlank(m.slug) && NonBlank(m.title) && NonBlank(m.description)
    && NonBlank(m.created) && NonBlank(m.updated)
  }

  /** `ProjectMetaSchema`: every string field non-blank. */
  predicate ValidProjectMeta(m: ProjectMeta)
  {
    NonBlank(m.slug) && NonBlank(m.title) && NonBlank(m.description)
    && NonBlank(m.created) && NonBlank(m.updated)
    && NonBlank(m.imgUrl) && NonBlank(m.imgAlt) && NonBlank(m.gradient)
  }

  /** An ISO timestamp is its own trim and is not blank, so a date stored by
      the frontmatter parsers satisfies the metadata schemas. */
  lemma IsoTimestampNonBlank(s: IsoTimestamp)
    ensures Trim(s) == s && NonBlank(s)
  {
    if FitsLayout(s, IsoLayout) {
      assert IsDigit(s[0]) && s[|s| - 1] == 'Z';
    } else {
      assert s[0] == '+' || s[0] == '-';
      assert s[|s| - 1] == 'Z';
    }
    TrimNoEdge(s);
  }
}
