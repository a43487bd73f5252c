/** Text helpers used by the monthly-trend resolver: Python's `str.lower` on
    column names, the substring test `k in c`, and the month keyword scan
    `any(k in c for k in [...])`. */
module Text {

  /** An ASCII upper-case letter. */
  predicate IsUpper(c: char) {
    'A' <= c <= 'Z'
  }

  /** `str.lower` on one character (ASCII letters only). */
  function LowerChar(c: char): (r: char)
    ensures !IsUpper(r)
    ensures IsUpper(c) ==> r as int == c as int + 32
    ensures !IsUpper(c) ==> r == c
  {
    if IsUpper(c) then (c as int - 'A' as int + 'a' as int) as char else c
  }

  /** No character of `s` is an upper-case letter. */
  predicate IsLowerCase(s: string) {
    forall i :: 0 <= i < |s| ==> !IsUpper(s[i])
  }

  /** `a` and `b` spell the same word up to letter case. */
  predicate EqualIgnoringCase(a: string, b: string) {
    |a| == |b| && forall i :: 0 <= i < |a| ==> LowerChar(a[i]) == LowerChar(b[i])
  }

  /** `s.lower()`: the lower-case spelling of `s`, same length, same word. */
  function Lower(s: string): (r: string)
    ensures IsLowerCase(r)
    ensures EqualIgnoringCase(r, s)
  {
    if s == [] then [] else [LowerChar(s[0])] + Lower(s[1..])
  }

  /** `Lower(s)` is the only lower-case string that equals `s` ignoring case,
      so lower-casing is determined by the two properties it ensures. */
  lemma {:induction false} LowerUnique(s: string, t: string)
    requires IsLowerCase(t) && EqualIgnoringCase(t, s)
    ensures t == Lower(s)
  {
    var r := Lower(s);
    forall i | 0 <= i < |t|
      ensures t[i] == r[i]
    {
      assert LowerChar(t[i]) == LowerChar(s[i]) == LowerChar(r[i]);
    }
  }

  /** A name with no upper-case letter is its own lower-case spelling. */
  lemma LowerKeepsLowerCase(s: string)
    requires IsLowerCase(s)
    ensures Lower(s) == s
  {
    LowerUnique(s, s);
  }

  /** Lower-casing an already normalised header changes nothing. */
  lemma LowerIdempotent(s: string)
    ensures Lower(Lower(s)) == Lower(s)
  {
    LowerKeepsLowerCase(Lower(s));
  }

  /** `p` is a prefix of `s`. */
  predicate StartsWith(s: string, p: string) {
    |p| <= |s| && s[..|p|] == p
  }

  /** Python's `k in s` on strings: `k` occurs in `s` as a contiguous run. */
  predicate Contains(s: string, k: string)
    decreases |s|
    ensures Contains(s, k) ==> |k| <= |s|
    ensures |k| == 0 ==> Contains(s, k)
  {
    StartsWith(s, k) || (|s| > 0 && Contains(s[1..], k))
  }

  /** `k` occurs in `s` starting at position `i`. */
  predicate OccursAt(s: string, k: string, i: int) {
    0 <= i <= |s| - |k| && s[i..i + |k|] == k
  }

  /** `Contains` agrees with the positional definition of a substring. */
  lemma {:induction false} ContainsIffOccurs(s: string, k: string)
    ensures Contains(s, k) <==> exists i :: OccursAt(s, k, i)
  {
    if Contains(s, k) {
      if StartsWith(s, k) {
        assert OccursAt(s, k, 0);
      } else {
        ContainsIffOccurs(s[1..], k);
        var i :| OccursAt(s[1..], k, i);
        assert s[i + 1..i + 1 + |k|] == s[1..][i..i + |k|];
        assert OccursAt(s, k, i + 1);
      }
    }
    if exists i :: OccursAt(s, k, i) {
      var i :| OccursAt(s, k, i);
      if i > 0 {
        assert s[1..][i - 1..i - 1 + |k|] == s[i..i + |k|];
        assert OccursAt(s[1..], k, i - 1);
        ContainsIffOccurs(s[1..], k);
      }
    }
  }

  /** The keywords of a month/period column name, in the order scanned. */
  const MonthKeywords: seq<string> := ["month", "mes", "data", "date", "dt", "period"]

  /** `any(k in name for k in keywords)`, checked keyword by keyword. */
  predicate AnyKeywordIn(keywords: seq<string>, name: string)
    decreases |keywords|
  {
    |keywords| > 0 && (Contains(name, keywords[0]) || AnyKeywordIn(keywords[1..], name))
  }

  /** A column name that the trend tab takes for a month/date column: one
      of the six keywords occurs in it. */
  predicate IsMonthLike(name: string)
    ensures IsMonthLike(name) <==> exists k :: k in MonthKeywords && Contains(name, k)
  {
    AnyKeywordInIff(MonthKeywords, name);
    AnyKeywordIn(MonthKeywords, name)
  }

  /** The short-circuit scan holds exactly when some keyword occurs in the name. */
  lemma {:induction false} AnyKeywordInIff(keywords: seq<string>, name: string)
    ensures AnyKeywordIn(keywords, name) <==> exists j :: 0 <= j < |keywords| && Contains(name, keywords[j])
  {
    if |keywords| > 0 {
      AnyKeywordInIff(keywords[1..], name);
      if exists j :: 0 <= j < |keywords| && Contains(name, keywords[j]) {
        var j :| 0 <= j < |keywords| && Contains(name, keywords[j]);
        if j > 0 {
          assert keywords[1..][j - 1] == keywords[j];
        }
      }
      if exists j :: 0 <= j < |keywords| - 1 && Contains(name, keywords[1..][j]) {
        var j :| 0 <= j < |keywords| - 1 && Contains(name, keywords[1..][j]);
        assert keywords[j + 1] == keywords[1..][j];
      }
    }
  }

  /** A string in which the keyword's first letter never appears cannot contain it. */
  lemma {:induction false} FirstLetterAbsent(s: string, k: string)
    requires |k| > 0
    requires forall i :: 0 <= i < |s| ==> s[i] != k[0]
    ensures !Contains(s, k)
  {
    if |s| > 0 {
      if |k| <= |s| {
        assert s[..|k|][0] != k[0];
      }
      FirstLetterAbsent(s[1..], k);
    }
  }

  /** `events`, the preferred metric name, never matches a month keyword,
      so it can never be picked as the month column. */
  lemma EventsNotMonthLike()
    ensures !IsMonthLike("events")
  {
    forall k | k in MonthKeywords
      ensures !Contains("events", k)
    {
      FirstLetterAbsent("events", k);
    }
  }
}
