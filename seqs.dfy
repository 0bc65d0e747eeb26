/**
 * Generic sequence and string operations that the content index and the
 * heading extractor rely on: the JavaScript built-ins `Array.prototype.filter`,
 * `String.prototype.split` with a one-character separator, the relational
 * operator `<` on strings, and `[...new Set(xs)].sort()` on a string array.
 */
module Seqs {

  //---------------------------------------------------------------------------
  // filter
  //---------------------------------------------------------------------------

  /** The elements of `s` that satisfy `keep`, in their original order. */
  function Filter<T(!new)>(s: seq<T>, keep: T -> bool): (r: seq<T>)
    ensures |r| <= |s|
    ensures forall i :: 0 <= i < |r| ==> keep(r[i])
  {
    if s == [] then []
    else if keep(s[0]) then [s[0]] + Filter(s[1..], keep)
    else Filter(s[1..], keep)
  }

  /** Filtering keeps every occurrence of a kept element. */
  lemma {:induction false} FilterCounts<T(!new)>(s: seq<T>, keep: T -> bool, x: T)
    requires keep(x)
    ensures multiset(Filter(s, keep))[x] == multiset(s)[x]
  {
    if s != [] {
      FilterCounts(s[1..], keep, x);
      assert s == [s[0]] + s[1..];
    }
  }

  /** Filtering distributes over concatenation; with the one-element case this
      pins `Filter` down as the order-preserving subsequence of kept elements. */
  lemma {:induction false} FilterAppend<T(!new)>(a: seq<T>, b: seq<T>, keep: T -> bool)
    ensures Filter(a + b, keep) == Filter(a, keep) + Filter(b, keep)
  {
    if a == [] {
      assert a + b == b;
    } else {
      assert (a + b)[0] == a[0];
      assert (a + b)[1..] == a[1..] + b;
      FilterAppend(a[1..], b, keep);
    }
  }

  lemma FilterSingleton<T(!new)>(x: T, keep: T -> bool)
    ensures Filter([x], keep) == if keep(x) then [x] else []
  {
    assert [x][1..] == [];
  }

  /** Filtering a sequence whose every element is kept changes nothing. */
  lemma {:induction false} FilterKeepsAll<T(!new)>(s: seq<T>, keep: T -> bool)
    requires forall i :: 0 <= i < |s| ==> keep(s[i])
    ensures Filter(s, keep) == s
  {
    if s != [] {
      FilterKeepsAll(s[1..], keep);
      assert s == [s[0]] + s[1..];
    }
  }

  /** An element is in the filtered sequence exactly when it is in the input
      and is kept. */
  lemma FilterMembership<T(!new)>(s: seq<T>, keep: T -> bool, x: T)
    ensures x in Filter(s, keep) <==> x in s && keep(x)
  {
    if keep(x) {
      FilterCounts(s, keep, x);
    }
  }

  /** `r` is `s` with some elements left out, the rest kept in order. */
  predicate IsSubsequence<T(==)>(r: seq<T>, s: seq<T>)
  {
    if r == [] then true
    else if s == [] then false
    else if r[0] == s[0] then IsSubsequence(r[1..], s[1..])
    else IsSubsequence(r, s[1..])
  }

  /** What `Filter` keeps is a subsequence of its input. */
  lemma {:induction false} FilterIsSubsequence<T(!new)>(s: seq<T>, keep: T -> bool)
    ensures IsSubsequence(Filter(s, keep), s)
  {
    if s != [] {
      FilterIsSubsequence(s[1..], keep);
    }
  }

  //---------------------------------------------------------------------------
  // split / join on a one-character separator
  //---------------------------------------------------------------------------

  /** `s.split(sep)`: the maximal separator-free pieces of `s`, at least one. */
  function Split(s: string, sep: char): (parts: seq<string>)
    ensures |parts| >= 1
    ensures forall i :: 0 <= i < |parts| ==> sep !in parts[i]
  {
    if s == [] then [[]]
    else
      var rest := Split(s[1..], sep);
      if s[0] == sep then [[]] + rest
      else [[s[0]] + rest[0]] + rest[1..]
  }

  /** `parts.join(sep)`. */
  function Join(parts: seq<string>, sep: char): string
    requires |parts| >= 1
  {
    if |parts| == 1 then parts[0] else parts[0] + [sep] + Join(parts[1..], sep)
  }

  lemma {:induction false} JoinSplit(s: string, sep: char)
    ensures Join(Split(s, sep), sep) == s
  {
    if s != [] {
      var rest := Split(s[1..], sep);
      JoinSplit(s[1..], sep);
      if s[0] == sep {
        assert ([[]] + rest)[1..] == rest;
        assert s == [] + [sep] + s[1..];
      } else {
        var parts := [[s[0]] + rest[0]] + rest[1..];
        if |rest| == 1 {
          assert s == [s[0]] + rest[0];
        } else {
          assert parts[1..] == rest[1..];
          assert Join(rest, sep) == rest[0] + [sep] + Join(rest[1..], sep);
          assert s == [s[0]] + s[1..];
        }
      }
    }
  }

  lemma {:induction false} SplitJoin(parts: seq<string>, sep: char)
    requires |parts| >= 1
    requires forall i :: 0 <= i < |parts| ==> sep !in parts[i]
    ensures Split(Join(parts, sep), sep) == parts
  {
    if |parts| == 1 {
      SplitFree(parts[0], sep);
    } else {
      SplitJoin(parts[1..], sep);
      SplitPrefix(parts[0], Join(parts[1..], sep), sep);
      assert [parts[0]] + parts[1..] == parts;
    }
  }

  /** A separator-free string is not split. */
  lemma {:induction false} SplitFree(s: string, sep: char)
    requires sep !in s
    ensures Split(s, sep) == [s]
  {
    if s != [] {
      assert sep !in s[1..];
      SplitFree(s[1..], sep);
      assert s == [s[0]] + s[1..];
    }
  }

  /** Splitting `w + [sep] + t`, with `w` separator-free, puts `w` first. */
  lemma {:induction false} SplitPrefix(w: string, t: string, sep: char)
    requires sep !in w
    ensures Split(w + [sep] + t, sep) == [w] + Split(t, sep)
  {
    if w == [] {
      assert (w + [sep] + t)[1..] == t;
    } else {
      assert (w + [sep] + t)[1..] == w[1..] + [sep] + t;
      assert sep !in w[1..];
      SplitPrefix(w[1..], t, sep);
      assert w == [w[0]] + w[1..];
    }
  }

  /** Splitting at a separator occurrence concatenates the pieces of both
      sides. */
  lemma {:induction false} SplitAppendSep(x: string, y: string, sep: char)
    ensures Split(x + [sep] + y, sep) == Split(x, sep) + Split(y, sep)
  {
    if x == [] {
      assert (x + [sep] + y)[1..] == y;
    } else {
      assert (x + [sep] + y)[1..] == x[1..] + [sep] + y;
      assert (x + [sep] + y)[0] == x[0];
      SplitAppendSep(x[1..], y, sep);
    }
  }

  /** The first piece is the text up to the first separator, or all of it. */
  lemma {:induction false} SplitFirstPiece(s: string, sep: char)
    ensures var h := Split(s, sep)[0];
      && |h| <= |s| && s[..|h|] == h && (|h| == |s| || s[|h|] == sep)
  {
    if s != [] && s[0] != sep {
      SplitFirstPiece(s[1..], sep);
      var r := Split(s[1..], sep)[0];
      assert Split(s, sep)[0] == [s[0]] + r;
      assert s == [s[0]] + s[1..];
    }
  }

  /** The last piece is the text after the last separator, or all of it. */
  lemma {:induction false} SplitLastPiece(s: string, sep: char)
    ensures var l := Last(Split(s, sep));
      && |l| <= |s| && s[|s| - |l|..] == l && (|l| == |s| || s[|s| - |l| - 1] == sep)
  {
    if s != [] {
      SplitLastPiece(s[1..], sep);
      var rest := Split(s[1..], sep);
      var l := Last(rest);
      var parts := Split(s, sep);
      assert parts == if s[0] == sep then [[]] + rest else [[s[0]] + rest[0]] + rest[1..];
      assert s[|s| - |l|..] == s[1..][|s| - 1 - |l|..];
      if s[0] != sep && |rest| == 1 {
        SplitCount(s[1..], sep);
        assert Last(parts) == [s[0]] + s[1..] == s;
      } else if s[0] != sep {
        SplitCount(s[1..], sep);
        assert Last(parts) == l;
      } else {
        assert Last(parts) == l;
      }
    }
  }

  /** The text splits into several pieces exactly when it holds a separator. */
  lemma {:induction false} SplitCount(s: string, sep: char)
    ensures |Split(s, sep)| > 1 <==> sep in s
  {
    if s != [] {
      SplitCount(s[1..], sep);
      assert s == [s[0]] + s[1..];
    }
  }

  /** The last element of a non-empty sequence (`xs[xs.length - 1]`). */
  function Last<T>(xs: seq<T>): T
    requires |xs| > 0
  {
    xs[|xs| - 1]
  }

  //---------------------------------------------------------------------------
  // string order
  //---------------------------------------------------------------------------

  /** `a < b` on strings: lexicographic order on characters, a proper prefix
      being smaller. */
  predicate StrLess(a: string, b: string)
  {
    if a == [] then b != []
    else if b == [] then false
    else if a[0] == b[0] then StrLess(a[1..], b[1..])
    else a[0] < b[0]
  }

  lemma {:induction false} StrLessIrreflexive(a: string)
    ensures !StrLess(a, a)
  {
    if a != [] {
      StrLessIrreflexive(a[1..]);
    }
  }

  lemma {:induction false} StrLessTransitive(a: string, b: string, c: string)
    requires StrLess(a, b) && StrLess(b, c)
    ensures StrLess(a, c)
  {
    if a != [] && a[0] == b[0] && b[0] == c[0] {
      StrLessTransitive(a[1..], b[1..], c[1..]);
    }
  }

  lemma {:induction false} StrLessTotal(a: string, b: string)
    ensures a == b || StrLess(a, b) || StrLess(b, a)
  {
    if a != [] && b != [] && a[0] == b[0] {
      StrLessTotal(a[1..], b[1..]);
      if a[1..] == b[1..] {
        assert a == [a[0]] + a[1..] && b == [b[0]] + b[1..];
      }
    }
  }

  lemma StrLessAsymmetric(a: string, b: string)
    ensures !(StrLess(a, b) && StrLess(b, a))
  {
    if StrLess(a, b) && StrLess(b, a) {
      StrLessTransitive(a, b, a);
      StrLessIrreflexive(a);
    }
  }

  //---------------------------------------------------------------------------
  // [...new Set(xs)].sort()
  //---------------------------------------------------------------------------

  ghost predicate StrictlyAscending(r: seq<string>)
  {
    forall i, j :: 0 <= i < j < |r| ==> StrLess(r[i], r[j])
  }

  /** Every element of an ascending sequence is above an element below its head. */
  lemma BelowHead(x: string, r: seq<string>)
    requires StrictlyAscending(r) && r != [] && StrLess(x, r[0])
    ensures forall j :: 0 <= j < |r| ==> StrLess(x, r[j])
  {
    forall j | 0 < j < |r| {
      StrLessTransitive(x, r[0], r[j]);
    }
  }

  /** Inserts `x` into an ascending duplicate-free sequence, unless present. */
  function InsertDistinct(r: seq<string>, x: string): (r': seq<string>)
    requires StrictlyAscending(r)
    ensures StrictlyAscending(r')
    ensures forall y :: y in r' <==> y in r || y == x
  {
    if r == [] then [x]
    else if x == r[0] then r
    else if StrLess(x, r[0]) then
      BelowHead(x, r);
      [x] + r
    else
      StrLessTotal(x, r[0]);
      var t := InsertDistinct(r[1..], x);
      assert forall y :: y in t ==> StrLess(r[0], y) by {
        forall y | y in t ensures StrLess(r[0], y) {
          if y != x {
            var j :| 0 <= j < |r[1..]| && r[1..][j] == y;
            assert r[j + 1] == y;
          }
        }
      }
      [r[0]] + t
  }

  /** `[...new Set(xs)].sort()` for strings. */
  function SortedDistinct(xs: seq<string>): (r: seq<string>)
    ensures StrictlyAscending(r)
    ensures forall y :: y in r <==> y in xs
  {
    if xs == [] then []
    else
      var init := xs[..|xs| - 1];
      assert xs == init + [xs[|xs| - 1]];
      InsertDistinct(SortedDistinct(init), xs[|xs| - 1])
  }

  /** An ascending sequence is determined by its set of elements: whatever
      algorithm builds it, `SortedDistinct(xs)` is the sorted list of the set. */
  lemma {:induction false} AscendingUnique(a: seq<string>, b: seq<string>)
    requires StrictlyAscending(a) && StrictlyAscending(b)
    requires forall y :: y in a <==> y in b
    ensures a == b
  {
    if a == [] {
      forall y ensures multiset(b)[y] == 0 {
        assert y !in b;
      }
      assert multiset(b) == multiset{};
      assert |b| == |multiset(b)| == 0;
    } else {
      assert b != [] by { assert a[0] in b; }
      if a[0] != b[0] {
        assert a[0] in b && b[0] in a;
        var k :| 0 <= k < |b| && b[k] == a[0];
        var m :| 0 <= m < |a| && a[m] == b[0];
        assert StrLess(b[0], a[0]) && StrLess(a[0], b[0]);
        StrLessAsymmetric(a[0], b[0]);
      }
      forall y ensures y in a[1..] <==> y in b[1..] {
        AscendingTail(a, y);
        AscendingTail(b, y);
      }
      AscendingUnique(a[1..], b[1..]);
      assert a == [a[0]] + a[1..] && b == [b[0]] + b[1..];
    }
  }

  lemma AscendingTail(a: seq<string>, y: string)
    requires StrictlyAscending(a) && a != []
    ensures y in a[1..] <==> y in a && y != a[0]
  {
    if y in a[1..] {
      var j :| 0 <= j < |a[1..]| && a[1..][j] == y;
      assert StrLess(a[0], a[j + 1]);
      StrLessIrreflexive(a[0]);
    }
    if y in a && y != a[0] {
      var j :| 0 <= j < |a| && a[j] == y;
      assert a[1..][j - 1] == y;
    }
  }

  /** `xs.findIndex(x => x === y)`: the first index holding `y`, or -1. */
  function IndexOf(xs: seq<string>, y: string): (i: int)
    ensures -1 <= i < |xs|
    ensures i >= 0 <==> y in xs
    ensures i >= 0 ==> xs[i] == y && forall j :: 0 <= j < i ==> xs[j] != y
  {
    if xs == [] then -1
    else if xs[0] == y then 0
    else
      var i := IndexOf(xs[1..], y);
      assert y in xs[1..] <==> y in xs;
      if i < 0 then -1 else i + 1
  }
}
