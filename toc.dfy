/**
 * The table of contents of a post (components/PostToc/utils.ts): the
 * headings that the pattern `/(?<flag>#{2,6})\s+(?<content>.+)/g` finds in
 * the markdown, each with its tag, its text without inline markup, an anchor
 * slug made distinct per base slug by a running counter, and a depth that is
 * the rank of its tag among the distinct tags of the document.
 */
module PostToc {
  import opened Wrappers
  import opened Seqs
  import opened Strings

  //---------------------------------------------------------------------------
  // the heading pattern, one position at a time
  //---------------------------------------------------------------------------

  /** The end of the longest run of characters satisfying `p` from `i`. */
  function RunEnd(s: string, i: nat, p: char -> bool): (e: nat)
    requires i <= |s|
    ensures i <= e <= |s|
    ensures forall j :: i <= j < e ==> p(s[j])
    ensures e < |s| ==> !p(s[e])
    decreases |s| - i
  {
    if i < |s| && p(s[i]) then RunEnd(s, i + 1, p) else i
  }

  /** No run satisfying `p` from `i` goes past `RunEnd`. */
  lemma RunEndIsLongest(s: string, i: nat, p: char -> bool, t: nat)
    requires i <= t <= |s|
    requires forall j :: i <= j < t ==> p(s[j])
    ensures t <= RunEnd(s, i, p)
  {
  }

  /** The last position in `[lo, hi)` whose character `.` matches. */
  function LastNonTerminator(s: string, lo: nat, hi: nat): (r: Option<nat>)
    requires hi <= |s|
    ensures r.Some? ==>
      && lo <= r.value < hi
      && !IsLineTerminator(s[r.value])
      && (forall j :: r.value < j < hi ==> IsLineTerminator(s[j]))
    ensures r.None? ==> forall j :: lo <= j < hi ==> IsLineTerminator(s[j])
    decreases hi
  {
    if hi <= lo then None
    else if !IsLineTerminator(s[hi - 1]) then Some(hi - 1)
    else LastNonTerminator(s, lo, hi - 1)
  }

  predicate IsHash(c: char) { c == '#' }

  predicate IsContentChar(c: char) { !IsLineTerminator(c) }

  /** A match that starts at some position `p`: `level` hashes from `p`, then
      white space up to `textStart`, then the content group up to `end`. */
  datatype Match = Match(level: nat, textStart: nat, end: nat)

  /** `s[p..m.end]` matches the pattern, with flag `s[p..p + m.level]` and
      content `s[m.textStart..m.end]`. */
  ghost predicate IsMatch(s: string, p: nat, m: Match)
  {
    && 2 <= m.level <= 6
    && p + m.level < m.textStart < m.end <= |s|
    && (forall j :: p <= j < p + m.level ==> s[j] == '#')
    && (forall j :: p + m.level <= j < m.textStart ==> IsWhitespace(s[j]))
    && (forall j :: m.textStart <= j < m.end ==> !IsLineTerminator(s[j]))
  }

  /** The order in which the backtracking matcher tries the matches at one
      position: more hashes first, then more white space, then longer
      content; `a` is tried no later than `b`. */
  predicate TriedFirst(a: Match, b: Match)
  {
    || a.level > b.level
    || (a.level == b.level && a.textStart > b.textStart)
    || (a.level == b.level && a.textStart == b.textStart && a.end >= b.end)
  }

  /** The match found at position `p`, if any. All three quantifiers are
      greedy: the flag takes up to six hashes, `\s+` all the white space and
      `.+` the rest of the line. If the white space runs to the end of the
      text, `\s+` gives back characters until `.` can match one that is not a
      line terminator. */
  function MatchAt(s: string, p: nat): (r: Option<Match>)
    requires p <= |s|
    ensures r.Some? ==> IsMatch(s, p, r.value)
  {
    var hashes := RunEnd(s, p, IsHash) - p;
    var level := if hashes > 6 then 6 else hashes;
    if level < 2 then None
    else
      var ws := RunEnd(s, p + level, IsWhitespace);
      if ws == p + level then None
      else if ws < |s| then
        Some(Match(level, ws, RunEnd(s, ws, IsContentChar)))
      else
        var last := LastNonTerminator(s, p + level + 1, |s|);
        if last.None? then None
        else Some(Match(level, last.value, RunEnd(s, last.value, IsContentChar)))
  }

  /** `MatchAt` is the regular-expression semantics at one position: when
      the pattern matches there at all, `MatchAt` finds a match, and it is
      the one the backtracking matcher tries first. */
  lemma MatchAtFirstTried(s: string, p: nat, m: Match)
    requires p <= |s| && IsMatch(s, p, m)
    ensures MatchAt(s, p).Some?
    ensures TriedFirst(MatchAt(s, p).value, m)
  {
    var level := FlagLength(s, p, m);
    var ws := RunEnd(s, p + level, IsWhitespace);
    RunEndIsLongest(s, p + level, IsWhitespace, m.textStart);
    if ws < |s| {
      if ws == m.textStart {
        RunEndIsLongest(s, ws, IsContentChar, m.end);
      }
    } else {
      var last := LastNonTerminator(s, p + level + 1, |s|);
      assert !IsLineTerminator(s[m.textStart]);
      if last.value == m.textStart {
        RunEndIsLongest(s, m.textStart, IsContentChar, m.end);
      }
    }
  }

  /** Every match at `p` has the flag `MatchAt` takes: up to six of the
      hashes there, since a shorter flag would leave a `#` where `\s`
      must match. */
  lemma FlagLength(s: string, p: nat, m: Match) returns (level: nat)
    requires p <= |s| && IsMatch(s, p, m)
    ensures var hashes := RunEnd(s, p, IsHash) - p; level == (if hashes > 6 then 6 else hashes)
    ensures m.level == level
  {
    var hashEnd := RunEnd(s, p, IsHash);
    level := if hashEnd - p > 6 then 6 else hashEnd - p;
    RunEndIsLongest(s, p, IsHash, p + m.level);
    assert IsWhitespace(s[p + m.level]) && !IsHash(s[p + m.level]);
  }

  //---------------------------------------------------------------------------
  // content.matchAll(headerRegex)
  //---------------------------------------------------------------------------

  /** The groups of one match: the number of hashes and the content. */
  datatype RawHeading = RawHeading(level: nat, text: string)

  /** The headings of `s[i..]`, in order: the leftmost match, then the
      matches after its end. */
  function Scan(s: string, i: nat): (r: seq<RawHeading>)
    requires i <= |s|
    ensures forall k :: 0 <= k < |r| ==>
      && 2 <= r[k].level <= 6
      && r[k].text != []
      && (forall j :: 0 <= j < |r[k].text| ==> !IsLineTerminator(r[k].text[j]))
    decreases |s| - i
  {
    if i == |s| then []
    else match MatchAt(s, i)
      case None => Scan(s, i + 1)
      case Some(m) => [RawHeading(m.level, s[m.textStart..m.end])] + Scan(s, m.end)
  }

  /** A text without `#` has no headings. */
  lemma {:induction false} NoHashNoHeadings(s: string, i: nat)
    requires i <= |s|
    requires forall j :: i <= j < |s| ==> s[j] != '#'
    ensures Scan(s, i) == []
    decreases |s| - i
  {
    if i < |s| {
      assert RunEnd(s, i, IsHash) == i;
      NoHashNoHeadings(s, i + 1);
    }
  }

  /** No heading is reported exactly when the pattern is tried at every
      position and found at none. */
  lemma {:induction false} ScanEmpty(s: string, i: nat)
    requires i <= |s|
    ensures Scan(s, i) == [] <==> forall q :: i <= q < |s| ==> MatchAt(s, q).None?
    decreases |s| - i
  {
    if i < |s| {
      ScanEmpty(s, i + 1);
    }
  }

  /** The first heading reported comes from the leftmost position at which
      the pattern matches, and is the match tried first there. */
  lemma {:induction false} ScanLeftmost(s: string, i: nat, p: nat, m: Match)
    requires i <= p <= |s| && IsMatch(s, p, m)
    requires forall q :: i <= q < p ==> MatchAt(s, q).None?
    ensures Scan(s, i) != [] && MatchAt(s, p).Some?
    ensures var f := MatchAt(s, p).value;
      Scan(s, i)[0] == RawHeading(f.level, s[f.textStart..f.end]) && TriedFirst(f, m)
    decreases p - i
  {
    MatchAtFirstTried(s, p, m);
    if i < p {
      ScanLeftmost(s, i + 1, p, m);
    }
  }

  //---------------------------------------------------------------------------
  // tags, markup and numbers
  //---------------------------------------------------------------------------

  /** `h${flag.length}`. */
  function Tag(level: nat): (t: string)
    requires 2 <= level <= 6
    ensures |t| == 2 && t[0] == 'h'
  {
    ['h', ('0' as int + level) as char]
  }

  /** Tags compare as their levels do, so sorting the tags sorts the levels. */
  lemma TagOrder(a: nat, b: nat)
    requires 2 <= a <= 6 && 2 <= b <= 6
    ensures StrLess(Tag(a), Tag(b)) <==> a < b
    ensures Tag(a) == Tag(b) <==> a == b
  {
    var ta, tb := Tag(a), Tag(b);
    assert ta[1..][1..] == [] && tb[1..][1..] == [];
    assert StrLess(ta[1..], tb[1..]) <==> ta[1] < tb[1];
    assert ta[1] as int == '0' as int + a && tb[1] as int == '0' as int + b;
  }

  /** The characters `content.replaceAll(/`|\*|_|:/gi, '')` removes. */
  const Markup: set<char> := {'`', '*', '_', ':'}

  function StripMarkup(text: string): (r: string)
    ensures forall i :: 0 <= i < |r| ==> r[i] !in Markup
  {
    DeleteChars(text, Markup)
  }

  /** Every other character is kept, each as often as it occurs, in order. */
  lemma StripMarkupKeepsRest(text: string, c: char)
    requires c !in Markup
    ensures multiset(StripMarkup(text))[c] == multiset(text)[c]
    ensures IsSubsequence(StripMarkup(text), text)
  {
    FilterCounts(text, x => x !in Markup, c);
    FilterIsSubsequence(text, x => x !in Markup);
  }

  /** The decimal numeral of `n`, as `${n}` writes a count. */
  function NatToDecimal(n: nat): (s: string)
    ensures s != []
    ensures forall i :: 0 <= i < |s| ==> IsDigit(s[i])
    ensures |s| > 1 ==> s[0] != '0'
    ensures s[0] == '0' <==> n == 0
    decreases n
  {
    if n < 10 then [('0' as int + n) as char]
    else NatToDecimal(n / 10) + [('0' as int + n % 10) as char]
  }

  /** The value of a numeral. */
  function DecimalValue(s: string): nat
    requires forall i :: 0 <= i < |s| ==> IsDigit(s[i])
  {
    if s == [] then 0
    else
      assert IsDigit(s[|s| - 1]);
      DecimalValue(s[..|s| - 1]) * 10 + (s[|s| - 1] as int - '0' as int)
  }

  lemma {:induction false} DecimalRoundTrip(n: nat)
    ensures DecimalValue(NatToDecimal(n)) == n
    decreases n
  {
    var s := NatToDecimal(n);
    if n >= 10 {
      DecimalRoundTrip(n / 10);
      assert s[..|s| - 1] == NatToDecimal(n / 10);
    }
  }

  /** Distinct counts give distinct numerals. */
  lemma DecimalInjective(a: nat, b: nat)
    requires NatToDecimal(a) == NatToDecimal(b)
    ensures a == b
  {
    DecimalRoundTrip(a);
    DecimalRoundTrip(b);
  }

  //---------------------------------------------------------------------------
  // the table of contents
  //---------------------------------------------------------------------------

  /** One entry: `{ tag, content, slug, depth }`. */
  datatype TocHeading = TocHeading(tag: string, content: string, slug: string, depth: int)

  predicate LevelsOk(raw: seq<RawHeading>)
  {
    forall i :: 0 <= i < |raw| ==> 2 <= raw[i].level <= 6
  }

  /** `headings.map((heading) => heading.tag)`: each tag is `h` and the
      digit of its heading's level. */
  function Tags(raw: seq<RawHeading>): (tags: seq<string>)
    requires LevelsOk(raw)
    ensures |tags| == |raw|
  {
    seq(|raw|, i requires 0 <= i < |raw| && LevelsOk(raw) => Tag(raw[i].level))
  }

  /** Each heading's tag is `h` followed by the digit of its level. */
  lemma TagsNameLevels(raw: seq<RawHeading>)
    requires LevelsOk(raw)
    ensures forall i :: 0 <= i < |raw| ==>
      |Tags(raw)[i]| == 2 && Tags(raw)[i][0] == 'h' && TagLevel(Tags(raw)[i]) == raw[i].level
  {
  }

  /** The slug of each heading's content before de-duplication. */
  function Bases(raw: seq<RawHeading>): (bases: seq<string>)
    ensures |bases| == |raw|
  {
    seq(|raw|, i requires 0 <= i < |raw| => Slugify(StripMarkup(raw[i].text)))
  }

  /** `${slug}${!!slugCount ? '-' + slugCount : ''}` for a numeric count. */
  function Suffixed(base: string, count: nat): string
  {
    if count == 0 then base else base + "-" + NatToDecimal(count)
  }

  /** A suffixed slug starts with its base; it is the base alone exactly for
      the first use, and otherwise `-` and a numeral that reads back as the
      count. */
  lemma SuffixedReadsBack(base: string, count: nat)
    ensures var slug := Suffixed(base, count);
      && |base| <= |slug| && slug[..|base|] == base
      && (count == 0 <==> slug == base)
      && (count > 0 ==>
            && |slug| > |base| + 1 && slug[|base|] == '-'
            && (forall k :: |base| < k < |slug| ==> IsDigit(slug[k]))
            && DecimalValue(slug[|base| + 1..]) == count)
  {
    if count > 0 {
      var slug := Suffixed(base, count);
      assert slug[|base| + 1..] == NatToDecimal(count);
      DecimalRoundTrip(count);
    }
  }

  /** The number of headings before heading `i` with its base. */
  function EarlierUses(bases: seq<string>, i: nat): nat
    requires i < |bases|
  {
    multiset(bases[..i])[bases[i]]
  }

  /** The intended slug of heading `i`: its base, suffixed with the number of
      earlier headings with the same base, whatever their level. */
  function DedupSlug(bases: seq<string>, i: nat): string
    requires i < |bases|
  {
    Suffixed(bases[i], EarlierUses(bases, i))
  }

  //---------------------------------------------------------------------------
  // the slug counter as written: a plain object
  //---------------------------------------------------------------------------

  /** The one key a slug can take that `{}` already has: a slug has no
      upper-case letter and no `_`, and `constructor` is the only other
      property of `Object.prototype` without either. */
  const Constructor: string := "constructor"

  /** `String(Object)` as V8 writes it. */
  const ObjectSource: string := "function Object() { [native code] }"

  /** What `slugCountTracker[slug]` holds: a count, or a string. The
      inherited `Object` function is only ever used in `+ 1`, which turns it
      into its source text. */
  datatype TrackerValue = Count(n: nat) | Text(s: string)

  /** `{}` as the tracker sees it: no own key, and `constructor` inherited. */
  const EmptyObject: map<string, TrackerValue> := map[Constructor := Text(ObjectSource)]

  /** `slugCountTracker[slug] + 1`: addition on a count; on a string, the
      text followed by the digit `1`. */
  function Increment(v: TrackerValue): (r: TrackerValue)
    ensures r.Count? <==> v.Count?
    ensures v.Count? ==> r.n == v.n + 1
    ensures v.Text? ==> |r.s| == |v.s| + 1 && r.s[..|v.s|] == v.s && r.s[|v.s|] == '1'
  {
    match v
    case Count(n) => Count(n + 1)
    case Text(s) => Text(s + "1")
  }

  /** `!!slugCount`: a count is true unless it is 0, whose text is `0`;
      a string is true unless it is empty. */
  predicate Truthy(v: TrackerValue): (b: bool)
    ensures v.Count? ==> (b <==> Show(v) != "0")
    ensures v.Text? ==> (b <==> Show(v) != [])
  {
    match v
    case Count(n) =>
      var d := NatToDecimal(n);
      assert d == "0" ==> d[0] == '0';
      assert n == 0 ==> d == "0" by {
        if n == 0 { assert |d| == 1 && d[0] == '0'; }
      }
      n != 0
    case Text(s) => s != []
  }

  /** `'-' + slugCount` without the hyphen: a count as its decimal
      numeral, a string as itself. */
  function Show(v: TrackerValue): (s: string)
    ensures v.Count? ==> s != [] && (forall i :: 0 <= i < |s| ==> IsDigit(s[i])) && DecimalValue(s) == v.n
    ensures v.Text? ==> s == v.s
  {
    match v
    case Count(n) => DecimalRoundTrip(n); NatToDecimal(n)
    case Text(s) => s
  }

  /** `k` ones. */
  function Ones(k: nat): (s: string)
    ensures |s| == k
  {
    if k == 0 then [] else Ones(k - 1) + "1"
  }

  /** The slug of a heading with base `constructor` after `count` earlier
      ones: the object's inherited function text with one `1` per use. */
  function ConstructorSlug(count: nat): (slug: string)
    ensures |slug| > |Constructor| && slug[..|Constructor|] == Constructor
  {
    Constructor + "-" + ObjectSource + Ones(count + 1)
  }

  /** The slug the source gives heading `i`. */
  function SourceSlug(bases: seq<string>, i: nat): string
    requires i < |bases|
  {
    if bases[i] == Constructor then ConstructorSlug(EarlierUses(bases, i)) else DedupSlug(bases, i)
  }

  //---------------------------------------------------------------------------
  // the table of contents
  //---------------------------------------------------------------------------

  /** Entry `i` of the table of contents: its tag, its content, its slug
      and the rank of its tag among the distinct tags. */
  function Entry(raw: seq<RawHeading>, i: nat): TocHeading
    requires LevelsOk(raw) && i < |raw|
  {
    var tags := Tags(raw);
    TocHeading(tags[i], StripMarkup(raw[i].text), SourceSlug(Bases(raw), i), IndexOf(SortedDistinct(tags), tags[i]))
  }

  /** The first `n` entries. */
  function TocUpTo(raw: seq<RawHeading>, n: nat): (toc: seq<TocHeading>)
    requires LevelsOk(raw) && n <= |raw|
    ensures |toc| == n
    ensures forall i :: 0 <= i < n ==> toc[i] == Entry(raw, i)
  {
    if n == 0 then [] else TocUpTo(raw, n - 1) + [Entry(raw, n - 1)]
  }

  /** The table of contents of the scanned headings. */
  function TocFromRaw(raw: seq<RawHeading>): seq<TocHeading>
    requires LevelsOk(raw)
  {
    TocUpTo(raw, |raw|)
  }

  function TableOfContents(markdown: string): seq<TocHeading>
  {
    TocFromRaw(Scan(markdown, 0))
  }

  /** `getHeadingsFromMarkdown(content)`: the matches, then the records
      with slug and depth. */
  method GetHeadingsFromMarkdown(markdown: string) returns (headings: seq<TocHeading>)
    ensures headings == TableOfContents(markdown)
  {
    var raw := Scan(markdown, 0);
    headings := HeadingsWithDepth(raw);
  }

  /** The tracker after the first `i` headings: `constructor` holds the
      inherited text followed by one `1` per use so far, every other base
      seen holds one less than its number of uses, and nothing else is
      present. */
  ghost predicate SourceTracker(bases: seq<string>, i: nat, tracker: map<string, TrackerValue>)
    requires i <= |bases|
  {
    && Constructor in tracker
    && tracker[Constructor] == Text(ObjectSource + Ones(multiset(bases[..i])[Constructor]))
    && (forall b :: b != Constructor ==> (b in tracker <==> b in bases[..i]))
    && (forall b :: b in tracker && b != Constructor ==>
          tracker[b].Count? && tracker[b].n + 1 == multiset(bases[..i])[b])
  }

  /** The `headings.map` that attaches slug and depth, with the slug counter
      `slugCountTracker` a plain object updated once per heading. */
  method HeadingsWithDepth(raw: seq<RawHeading>) returns (headings: seq<TocHeading>)
    requires LevelsOk(raw)
    ensures headings == TocFromRaw(raw)
  {
    var tags := Tags(raw);
    var uniqueHeadersTags := SortedDistinct(tags);
    ghost var bases := Bases(raw);
    var slugCountTracker := EmptyObject;
    SourceTrackerInit(bases);
    headings := [];
    var i := 0;
    while i < |raw|
      invariant 0 <= i <= |raw|
      invariant SourceTracker(bases, i, slugCountTracker)
      invariant headings == TocUpTo(raw, i)
    {
      var content := StripMarkup(raw[i].text);
      var slug := Slugify(content);
      var slugCount := if slug in slugCountTracker then Increment(slugCountTracker[slug]) else Count(0);
      SourceHeadingStep(raw, i, slugCountTracker, slugCount);
      slugCountTracker := slugCountTracker[slug := slugCount];
      var depth := IndexOf(uniqueHeadersTags, tags[i]);
      var suffix := if Truthy(slugCount) then "-" + Show(slugCount) else "";
      headings := headings + [TocHeading(tags[i], content, slug + suffix, depth)];
      i := i + 1;
    }
  }

  /** One pass of the loop in `HeadingsWithDepth`: heading `i` gets its
      base followed by the suffix the tracker gives, and the tracker
      invariant carries over. */
  lemma SourceHeadingStep(raw: seq<RawHeading>, i: nat, tracker: map<string, TrackerValue>, count: TrackerValue)
    requires LevelsOk(raw) && i < |raw| && SourceTracker(Bases(raw), i, tracker)
    requires var slug := Slugify(StripMarkup(raw[i].text));
      count == if slug in tracker then Increment(tracker[slug]) else Count(0)
    ensures var slug := Slugify(StripMarkup(raw[i].text));
      && SourceTracker(Bases(raw), i + 1, tracker[slug := count])
      && TocUpTo(raw, i + 1) == TocUpTo(raw, i) + [TocHeading(Tags(raw)[i], StripMarkup(raw[i].text),
           slug + (if Truthy(count) then "-" + Show(count) else ""), IndexOf(SortedDistinct(Tags(raw)), Tags(raw)[i]))]
  {
    SourceTrackerStep(Bases(raw), i, tracker, count);
  }

  /** `{}` is the tracker before the first heading. */
  lemma SourceTrackerInit(bases: seq<string>)
    ensures SourceTracker(bases, 0, EmptyObject)
  {
    assert bases[..0] == [];
  }

  /** One step of `updateAndReturnSlugCount` on the plain object: the value
      it returns gives heading `i` its slug, and the tracker invariant carries
      over to the first `i + 1` headings. */
  lemma SourceTrackerStep(bases: seq<string>, i: nat, tracker: map<string, TrackerValue>, count: TrackerValue)
    requires i < |bases| && SourceTracker(bases, i, tracker)
    requires count == if bases[i] in tracker then Increment(tracker[bases[i]]) else Count(0)
    ensures SourceTracker(bases, i + 1, tracker[bases[i] := count])
    ensures bases[i] + (if Truthy(count) then "-" + Show(count) else "") == SourceSlug(bases, i)
  {
    assert bases[..i + 1] == bases[..i] + [bases[i]];
    if bases[i] == Constructor {
      ConstructorStep(bases, i, tracker, count);
    } else {
      CountStep(bases, i, tracker, count);
    }
  }

  /** The step for the base `constructor`: one more `1`. */
  lemma ConstructorStep(bases: seq<string>, i: nat, tracker: map<string, TrackerValue>, count: TrackerValue)
    requires i < |bases| && SourceTracker(bases, i, tracker) && bases[i] == Constructor
    requires bases[..i + 1] == bases[..i] + [bases[i]]
    requires count == Increment(tracker[Constructor])
    ensures SourceTracker(bases, i + 1, tracker[bases[i] := count])
    ensures bases[i] + (if Truthy(count) then "-" + Show(count) else "") == SourceSlug(bases, i)
  {
    var c := multiset(bases[..i])[Constructor];
    assert count == Text(ObjectSource + Ones(c + 1));
    assert Constructor + ("-" + (ObjectSource + Ones(c + 1))) == ConstructorSlug(c);
  }

  /** The step for any other base: a count one above the last. */
  lemma CountStep(bases: seq<string>, i: nat, tracker: map<string, TrackerValue>, count: TrackerValue)
    requires i < |bases| && SourceTracker(bases, i, tracker) && bases[i] != Constructor
    requires bases[..i + 1] == bases[..i] + [bases[i]]
    requires count == if bases[i] in tracker then Increment(tracker[bases[i]]) else Count(0)
    ensures SourceTracker(bases, i + 1, tracker[bases[i] := count])
    ensures bases[i] + (if Truthy(count) then "-" + Show(count) else "") == SourceSlug(bases, i)
  {
    var b := bases[i];
    if b in tracker {
      assert count == Count(multiset(bases[..i])[b]);
    } else {
      assert b !in bases[..i];
    }
  }

  //---------------------------------------------------------------------------
  // the slug counter as intended: a dictionary without inherited keys
  //---------------------------------------------------------------------------

  /** Entry `i` with the intended slug. */
  function IntendedEntry(raw: seq<RawHeading>, i: nat): TocHeading
    requires LevelsOk(raw) && i < |raw|
  {
    var tags := Tags(raw);
    TocHeading(tags[i], StripMarkup(raw[i].text), DedupSlug(Bases(raw), i), IndexOf(SortedDistinct(tags), tags[i]))
  }

  /** The first `n` entries of the intended table. */
  function IntendedTocUpTo(raw: seq<RawHeading>, n: nat): (toc: seq<TocHeading>)
    requires LevelsOk(raw) && n <= |raw|
    ensures |toc| == n
    ensures forall i :: 0 <= i < n ==> toc[i] == IntendedEntry(raw, i)
  {
    if n == 0 then [] else IntendedTocUpTo(raw, n - 1) + [IntendedEntry(raw, n - 1)]
  }

  /** The table of contents the comments beside the counter describe. */
  function IntendedToc(raw: seq<RawHeading>): seq<TocHeading>
    requires LevelsOk(raw)
  {
    IntendedTocUpTo(raw, |raw|)
  }

  /** The `headings.map` with a counter that starts with no keys at all (an
      `Object.create(null)` or a `Map`). After `i` headings it holds, for
      every base seen, one less than the number of headings with that base,
      and no other key. */
  method IntendedHeadingsWithDepth(raw: seq<RawHeading>) returns (headings: seq<TocHeading>)
    requires LevelsOk(raw)
    ensures headings == IntendedToc(raw)
  {
    var tags := Tags(raw);
    var uniqueHeadersTags := SortedDistinct(tags);
    ghost var bases := Bases(raw);
    var slugCountTracker: map<string, nat> := map[];
    CountTrackerInit(bases);
    headings := [];
    var i := 0;
    while i < |raw|
      invariant 0 <= i <= |raw|
      invariant CountTracker(bases, i, slugCountTracker)
      invariant headings == IntendedTocUpTo(raw, i)
    {
      var content := StripMarkup(raw[i].text);
      var slug := Slugify(content);
      var slugCount := if slug in slugCountTracker then slugCountTracker[slug] + 1 else 0;
      assert slug == bases[i];
      TrackerStep(bases, i, slugCountTracker, slugCount);
      slugCountTracker := slugCountTracker[slug := slugCount];
      var depth := IndexOf(uniqueHeadersTags, tags[i]);
      headings := headings + [TocHeading(tags[i], content, Suffixed(slug, slugCount), depth)];
      i := i + 1;
    }
  }

  /** The intended tracker after the first `i` headings: exactly the bases
      seen so far, each holding one less than its number of uses. */
  ghost predicate CountTracker(bases: seq<string>, i: nat, tracker: map<string, nat>)
    requires i <= |bases|
  {
    && (forall b :: b in tracker <==> b in bases[..i])
    && (forall b :: b in tracker ==> tracker[b] + 1 == multiset(bases[..i])[b])
  }

  /** The empty counter is the tracker before the first heading. */
  lemma CountTrackerInit(bases: seq<string>)
    ensures CountTracker(bases, 0, map[])
  {
    assert bases[..0] == [];
  }

  /** One step of the intended counter: the value stored for heading `i`'s
      base is the number of earlier headings with that base, and the tracker
      invariant carries over to the first `i + 1` headings. */
  lemma TrackerStep(bases: seq<string>, i: nat, tracker: map<string, nat>, count: nat)
    requires i < |bases| && CountTracker(bases, i, tracker)
    requires count == if bases[i] in tracker then tracker[bases[i]] + 1 else 0
    ensures count == EarlierUses(bases, i)
    ensures CountTracker(bases, i + 1, tracker[bases[i] := count])
  {
    assert bases[..i + 1] == bases[..i] + [bases[i]];
  }

  /** The source and the intended table differ only in the slugs of
      headings whose base is `constructor`. */
  lemma SourceAgreesOffConstructor(raw: seq<RawHeading>, i: nat)
    requires LevelsOk(raw) && i < |raw|
    ensures var s, t := TocFromRaw(raw)[i], IntendedToc(raw)[i];
      && s.tag == t.tag && s.content == t.content && s.depth == t.depth
      && (s.slug == t.slug <==> Bases(raw)[i] != Constructor)
  {
    var bases := Bases(raw);
    if bases[i] == Constructor {
      var c := EarlierUses(bases, i);
      assert DedupSlug(bases, i) == Suffixed(Constructor, c);
      if c == 0 {
        assert |ConstructorSlug(c)| > |Constructor|;
      } else {
        var u, v := ConstructorSlug(c), Suffixed(Constructor, c);
        SuffixedReadsBack(Constructor, c);
        assert u[|Constructor| + 1] == 'f';
        assert IsDigit(v[|Constructor| + 1]);
      }
    }
  }

  /** A lone heading whose base slug is `constructor` gets the slug
      `constructor-function Object() { [native code] }1` from the source,
      where the comments beside the counter promise `constructor`. */
  lemma ConstructorHeading(text: string)
    requires Slugify(StripMarkup(text)) == Constructor
    ensures var raw := [RawHeading(2, text)];
      && LevelsOk(raw)
      && TocFromRaw(raw)[0].slug == Constructor + "-" + ObjectSource + "1"
      && IntendedToc(raw)[0].slug == Constructor
  {
    var raw := [RawHeading(2, text)];
    assert Bases(raw)[0] == Constructor;
    assert Bases(raw)[..0] == [];
    assert Ones(1) == "1";
  }

  /** The heading text `constructor` is such a heading. */
  lemma ConstructorTitle()
    ensures Slugify(StripMarkup(Constructor)) == Constructor
  {
    var t := Constructor;
    assert forall k :: 0 <= k < |t| ==> IsSlugChar(t[k]);
    SlugFixed(t);
  }

  //---------------------------------------------------------------------------
  // properties of the table of contents
  //---------------------------------------------------------------------------

  /** The level a tag names. */
  function TagLevel(t: string): int
    requires |t| == 2
  {
    t[1] as int - '0' as int
  }

  /** The `k`-th distinct tag names a level of at least `2 + k`. */
  lemma {:induction false} DistinctTagLevel(raw: seq<RawHeading>, k: nat)
    requires LevelsOk(raw) && k < |SortedDistinct(Tags(raw))|
    ensures var unique := SortedDistinct(Tags(raw));
      |unique[k]| == 2 && 2 + k <= TagLevel(unique[k]) <= 6 && unique[k] == Tag(TagLevel(unique[k]))
  {
    var tags := Tags(raw);
    var unique := SortedDistinct(tags);
    assert unique[k] in tags;
    var i :| 0 <= i < |tags| && tags[i] == unique[k];
    if k > 0 {
      DistinctTagLevel(raw, k - 1);
      assert StrLess(unique[k - 1], unique[k]);
      TagOrder(TagLevel(unique[k - 1]), raw[i].level);
    }
  }

  /** `depth` indexes the distinct tags, of which there are at most five, so
      it fits the `0 | 1 | 2 | 3 | 4 | 5` of the heading type. */
  lemma DepthBounds(raw: seq<RawHeading>, i: nat)
    requires LevelsOk(raw) && i < |raw|
    ensures 0 <= TocFromRaw(raw)[i].depth < |SortedDistinct(Tags(raw))| <= 5
  {
    var tags := Tags(raw);
    assert tags[i] in tags;
    DistinctTagLevel(raw, |SortedDistinct(tags)| - 1);
  }

  /** Depth ranks the levels: a heading is shallower than another exactly
      when it has fewer `#`, and as deep exactly when it has as many. */
  lemma DepthOrder(raw: seq<RawHeading>, i: nat, j: nat)
    requires LevelsOk(raw) && i < |raw| && j < |raw|
    ensures TocFromRaw(raw)[i].depth < TocFromRaw(raw)[j].depth <==> raw[i].level < raw[j].level
    ensures TocFromRaw(raw)[i].depth == TocFromRaw(raw)[j].depth <==> raw[i].level == raw[j].level
  {
    var tags := Tags(raw);
    var unique := SortedDistinct(tags);
    assert tags[i] in tags && tags[j] in tags;
    var di, dj := IndexOf(unique, tags[i]), IndexOf(unique, tags[j]);
    TagOrder(raw[i].level, raw[j].level);
    TagOrder(raw[j].level, raw[i].level);
    StrLessAsymmetric(tags[i], tags[j]);
    StrLessIrreflexive(tags[i]);
    assert di < dj ==> StrLess(unique[di], unique[dj]);
    assert dj < di ==> StrLess(unique[dj], unique[di]);
  }

  /** Every depth below the number of distinct tags is used by a heading. */
  lemma DepthContiguous(raw: seq<RawHeading>, d: nat)
    requires LevelsOk(raw) && d < |SortedDistinct(Tags(raw))|
    ensures exists i :: 0 <= i < |raw| && TocFromRaw(raw)[i].depth == d
  {
    var tags := Tags(raw);
    var unique := SortedDistinct(tags);
    assert unique[d] in tags;
    var i :| 0 <= i < |tags| && tags[i] == unique[d];
    var k := IndexOf(unique, unique[d]);
    StrLessIrreflexive(unique[d]);
    assert !StrLess(unique[k], unique[d]);
    assert TocFromRaw(raw)[i].depth == k == d;
  }

  /** A heading keeps its base slug exactly when no earlier heading has the
      same base and the base is not `constructor`, which the object already
      holds. */
  lemma FirstUseUnsuffixed(raw: seq<RawHeading>, i: nat)
    requires LevelsOk(raw) && i < |raw|
    ensures TocFromRaw(raw)[i].slug == Bases(raw)[i]
      <==> Bases(raw)[i] != Constructor && forall j :: 0 <= j < i ==> Bases(raw)[j] != Bases(raw)[i]
  {
    IntendedFirstUseUnsuffixed(raw, i);
    SourceAgreesOffConstructor(raw, i);
  }

  /** With the intended counter, a heading keeps its base slug exactly when
      no earlier heading has the same base: there is never a `-0`. */
  lemma IntendedFirstUseUnsuffixed(raw: seq<RawHeading>, i: nat)
    requires LevelsOk(raw) && i < |raw|
    ensures IntendedToc(raw)[i].slug == Bases(raw)[i]
      <==> forall j :: 0 <= j < i ==> Bases(raw)[j] != Bases(raw)[i]
  {
    var bases := Bases(raw);
    var b := bases[i];
    assert b in multiset(bases[..i]) <==> b in bases[..i];
    assert b in bases[..i] <==> exists j :: 0 <= j < i && bases[j] == b by {
      if b in bases[..i] {
        var j :| 0 <= j < i && bases[..i][j] == b;
      }
    }
  }

  /** Headings with the same base get different slugs. (Slugs are not unique
      in general: see `SuffixCollision`.) */
  lemma SameBaseDistinctSlugs(raw: seq<RawHeading>, i: nat, j: nat)
    requires LevelsOk(raw) && i < j < |raw|
    requires Bases(raw)[i] == Bases(raw)[j]
    ensures TocFromRaw(raw)[i].slug != TocFromRaw(raw)[j].slug
  {
    var bases := Bases(raw);
    var b := bases[i];
    assert bases[..j] == bases[..i] + [b] + bases[i + 1..j];
    var ci, cj := EarlierUses(bases, i), EarlierUses(bases, j);
    assert ci < cj;
    if b == Constructor {
      assert |ConstructorSlug(ci)| < |ConstructorSlug(cj)|;
    } else {
      var si, sj := Suffixed(b, ci), Suffixed(b, cj);
      SuffixedReadsBack(b, ci);
      SuffixedReadsBack(b, cj);
      assert ci > 0 ==> DecimalValue(si[|b| + 1..]) != DecimalValue(sj[|b| + 1..]);
    }
  }

  /** A heading titled like a generated slug collides with it: the
      headings `b`, `b`, `b-1` get the slugs `b`, `b-1`, `b-1`. */
  lemma SuffixCollision(b: string)
    requires b != [] && b != Constructor && forall k :: 0 <= k < |b| ==> IsSlugChar(b[k])
    ensures var toc := TocFromRaw([RawHeading(2, b), RawHeading(3, b), RawHeading(2, b + "-1")]);
      toc[0].slug == b && toc[1].slug == b + "-1" && toc[2].slug == b + "-1"
  {
    var raw := [RawHeading(2, b), RawHeading(3, b), RawHeading(2, b + "-1")];
    SlugFixed(b);
    SlugFixed(b + "-1");
    assert Bases(raw) == [b, b, b + "-1"];
    assert (b + "-1")[|b + "-1"| - 1] != Constructor[|Constructor| - 1];
    SuffixedCounts(b);
  }

  /** Text made of slug characters is its own base slug. */
  lemma SlugFixed(t: string)
    requires forall k :: 0 <= k < |t| ==> IsSlugChar(t[k])
    ensures Slugify(StripMarkup(t)) == t
  {
    FilterKeepsAll(t, c => c !in Markup);
    SlugifyFixedPoint(t);
  }

  lemma SuffixedCounts(b: string)
    requires b != []
    ensures var bases := [b, b, b + "-1"];
      DedupSlug(bases, 0) == b && DedupSlug(bases, 1) == b + "-1" && DedupSlug(bases, 2) == b + "-1"
  {
    var bases := [b, b, b + "-1"];
    assert bases[..1] == [b] && bases[..2] == [b, b];
    assert b + "-1" != b;
    assert NatToDecimal(1) == "1";
  }

  /** Markdown without `#` has an empty table of contents. */
  lemma NoHashEmptyToc(markdown: string)
    requires forall j :: 0 <= j < |markdown| ==> markdown[j] != '#'
    ensures TableOfContents(markdown) == []
  {
    NoHashNoHeadings(markdown, 0);
  }

  /** The table of contents is empty exactly when the heading pattern
      matches nowhere in the markdown. */
  lemma NoMatchEmptyToc(markdown: string)
    ensures TableOfContents(markdown) == [] <==> forall q: nat, m :: q <= |markdown| ==> !IsMatch(markdown, q, m)
  {
    assert |TableOfContents(markdown)| == |Scan(markdown, 0)|;
    ScanEmpty(markdown, 0);
    forall q: nat, m | q <= |markdown| && IsMatch(markdown, q, m)
      ensures MatchAt(markdown, q).Some?
    {
      MatchAtFirstTried(markdown, q, m);
    }
  }

  //---------------------------------------------------------------------------
  // the example in the source
  //---------------------------------------------------------------------------

  /** A non-empty word of ASCII letters, such as `Summary`. */
  predicate IsWord(w: string)
  {
    w != [] && forall k :: 0 <= k < |w| ==> IsAsciiUpper(w[k]) || IsAsciiLower(w[k])
  }

  /** The table of contents documented beside `getHeadingsFromMarkdown`, for
      any four words in place of Intro, Summary, Content and Review: the
      headings h2 Intro, h3 Summary, h2 Content, h3 Review, h4 Summary get
      the slugs intro, summary, content, review, summary-1 and the depths
      0, 1, 0, 1, 2. (A word whose slug is `constructor` behaves otherwise:
      see `ConstructorHeading`.) */
  lemma DocumentedExample(intro: string, summary: string, content: string, review: string)
    requires IsWord(intro) && IsWord(summary) && IsWord(content) && IsWord(review)
    requires var i, s, c, r := Lower(intro), Lower(summary), Lower(content), Lower(review);
      i != s && i != c && i != r && s != c && s != r && c != r
    requires Constructor !in {Lower(intro), Lower(summary), Lower(content), Lower(review)}
    ensures var toc := TocFromRaw([RawHeading(2, intro), RawHeading(3, summary), RawHeading(2, content),
                                   RawHeading(3, review), RawHeading(4, summary)]);
      && |toc| == 5
      && toc[0] == TocHeading("h2", intro, Lower(intro), 0)
      && toc[1] == TocHeading("h3", summary, Lower(summary), 1)
      && toc[2] == TocHeading("h2", content, Lower(content), 0)
      && toc[3] == TocHeading("h3", review, Lower(review), 1)
      && toc[4] == TocHeading("h4", summary, Lower(summary) + "-1", 2)
  {
    var raw := [RawHeading(2, intro), RawHeading(3, summary), RawHeading(2, content),
                RawHeading(3, review), RawHeading(4, summary)];
    WordSlug(intro);
    WordSlug(summary);
    WordSlug(content);
    WordSlug(review);
    ExampleToc(raw, Lower(intro), Lower(summary), Lower(content), Lower(review));
  }

  /** The example with the bases `a`, `b`, `c`, `d`, `b`. */
  lemma ExampleToc(raw: seq<RawHeading>, a: string, b: string, c: string, d: string)
    requires |raw| == 5 && raw[0].level == 2 && raw[1].level == 3 && raw[2].level == 2
    requires raw[3].level == 3 && raw[4].level == 4
    requires StripMarkup(raw[0].text) == raw[0].text && StripMarkup(raw[1].text) == raw[1].text
    requires StripMarkup(raw[2].text) == raw[2].text && StripMarkup(raw[3].text) == raw[3].text
    requires StripMarkup(raw[4].text) == raw[4].text
    requires Bases(raw)[0] == a && Bases(raw)[1] == b && Bases(raw)[2] == c
    requires Bases(raw)[3] == d && Bases(raw)[4] == b
    requires a != b && a != c && a != d && b != c && b != d && c != d
    requires Constructor !in {a, b, c, d}
    ensures LevelsOk(raw)
    ensures var toc := TocFromRaw(raw);
      && |toc| == 5
      && toc[0] == TocHeading("h2", raw[0].text, a, 0)
      && toc[1] == TocHeading("h3", raw[1].text, b, 1)
      && toc[2] == TocHeading("h2", raw[2].text, c, 0)
      && toc[3] == TocHeading("h3", raw[3].text, d, 1)
      && toc[4] == TocHeading("h4", raw[4].text, b + "-1", 2)
  {
    ExampleTags(raw);
    ExampleSlugs(Bases(raw), a, b, c, d);
    ExampleDepths();
    var toc := TocFromRaw(raw);
    assert toc[0] == Entry(raw, 0) == TocHeading("h2", raw[0].text, a, 0);
    assert toc[1] == Entry(raw, 1) == TocHeading("h3", raw[1].text, b, 1);
    assert toc[2] == Entry(raw, 2) == TocHeading("h2", raw[2].text, c, 0);
    assert toc[3] == Entry(raw, 3) == TocHeading("h3", raw[3].text, d, 1);
    assert toc[4] == Entry(raw, 4) == TocHeading("h4", raw[4].text, b + "-1", 2);
  }

  lemma ExampleDepths()
    ensures var unique := ["h2", "h3", "h4"];
      IndexOf(unique, "h2") == 0 && IndexOf(unique, "h3") == 1 && IndexOf(unique, "h4") == 2
  {
    var unique := ["h2", "h3", "h4"];
    assert unique[1..] == ["h3", "h4"] && unique[2..] == ["h4"];
    assert "h2" != "h3" && "h2" != "h4" && "h3" != "h4";
  }

  /** The tags h2, h3, h2, h3, h4 and their ranks. */
  lemma ExampleTags(raw: seq<RawHeading>)
    requires |raw| == 5 && raw[0].level == 2 && raw[1].level == 3 && raw[2].level == 2
    requires raw[3].level == 3 && raw[4].level == 4
    ensures LevelsOk(raw) && Tags(raw) == ["h2", "h3", "h2", "h3", "h4"]
    ensures SortedDistinct(Tags(raw)) == ["h2", "h3", "h4"]
  {
    var tags := Tags(raw);
    assert Tag(2) == "h2" && Tag(3) == "h3" && Tag(4) == "h4";
    assert tags == ["h2", "h3", "h2", "h3", "h4"];
    TagOrder(2, 3);
    TagOrder(2, 4);
    TagOrder(3, 4);
    var unique: seq<string> := ["h2", "h3", "h4"];
    assert StrictlyAscending(unique);
    AscendingUnique(SortedDistinct(tags), unique);
  }

  /** Four distinct bases, the second repeated last. */
  lemma ExampleSlugs(bases: seq<string>, a: string, b: string, c: string, d: string)
    requires |bases| == 5 && bases[0] == a && bases[1] == b && bases[2] == c
    requires bases[3] == d && bases[4] == b
    requires a != b && a != c && a != d && b != c && b != d && c != d
    ensures && DedupSlug(bases, 0) == a && DedupSlug(bases, 1) == b
            && DedupSlug(bases, 2) == c && DedupSlug(bases, 3) == d
            && DedupSlug(bases, 4) == b + "-1"
  {
    assert bases[..1] == [a] && bases[..2] == [a, b];
    assert bases[..3] == [a, b, c] && bases[..4] == [a, b, c, d];
    assert NatToDecimal(1) == "1";
  }

  /** A capitalised word's base slug is the word in lower case. */
  lemma WordSlug(w: string)
    requires IsWord(w)
    ensures StripMarkup(w) == w
    ensures Slugify(StripMarkup(w)) == Lower(w)
  {
    FilterKeepsAll(w, c => c !in Markup);
    TrimNoEdge(w);
    SlugifyOnePass(w);
    WordSlugChars(w);
  }

  lemma {:induction false} WordSlugChars(w: string)
    requires forall k :: 0 <= k < |w| ==> IsAsciiUpper(w[k]) || IsAsciiLower(w[k])
    ensures SlugChars(w) == Lower(w)
  {
    if w != [] {
      WordSlugChars(w[1..]);
      LowerCons(w);
      assert SlugChar(w[0]) == [LowerChar(w[0])];
    }
  }
}
