/**
 * The Python `str` operations the transcript handling calls: `strip`,
 * `startswith` and `split(sep)`, and the scans its regular expressions
 * perform: a leading `\s*`, the first character of a class, and the first
 * occurrence of a literal substring. `JoinWith` is not called by the
 * handling; it states what `split` inverts.
 */
module PyStr {
  import opened Results

  /** The characters for which Python's `str.isspace()` holds; a `\s` in a
      `str` regular expression matches exactly these too. */
  const Whitespace: set<char> := {
    '\t', '\n', '\U{0B}', '\U{0C}', '\r', '\U{1C}', '\U{1D}', '\U{1E}', '\U{1F}', ' ',
    '\U{85}', '\U{A0}', '\U{1680}',
    '\U{2000}', '\U{2001}', '\U{2002}', '\U{2003}', '\U{2004}', '\U{2005}',
    '\U{2006}', '\U{2007}', '\U{2008}', '\U{2009}', '\U{200A}',
    '\U{2028}', '\U{2029}', '\U{202F}', '\U{205F}', '\U{3000}'
  }

  predicate IsSpace(c: char) {
    c in Whitespace
  }

  predicate AllSpace(s: string) {
    forall i :: 0 <= i < |s| ==> IsSpace(s[i])
  }

  /** A string with no whitespace at either end, as `strip()` leaves it. */
  predicate IsStripped(s: string) {
    s == [] || (!IsSpace(s[0]) && !IsSpace(s[|s| - 1]))
  }

  /** The index of the first non-whitespace character of `s` at or after
      `i`, or `|s|` when there is none. */
  function SkipSpaces(s: string, i: nat): (k: nat)
    requires i <= |s|
    ensures i <= k <= |s|
    ensures forall m :: i <= m < k ==> IsSpace(s[m])
    ensures k < |s| ==> !IsSpace(s[k])
    decreases |s| - i
  {
    if i == |s| || !IsSpace(s[i]) then i else SkipSpaces(s, i + 1)
  }

  /** The index just past the last non-whitespace character of `s` before
      `j` and not before `lo`, or `lo` when there is none. */
  function SkipSpacesBack(s: string, lo: nat, j: nat): (k: nat)
    requires lo <= j <= |s|
    ensures lo <= k <= j
    ensures forall m :: k <= m < j ==> IsSpace(s[m])
    ensures k > lo ==> !IsSpace(s[k - 1])
    decreases j
  {
    if j == lo || !IsSpace(s[j - 1]) then j else SkipSpacesBack(s, lo, j - 1)
  }

  /** What a greedy `\s*` at the start of `s` leaves: the leading whitespace
      is dropped and nothing else. */
  function LStrip(s: string): (r: string)
    ensures |r| <= |s| && r == s[|s| - |r|..]
    ensures r == [] || !IsSpace(r[0])
    ensures forall m :: 0 <= m < |s| - |r| ==> IsSpace(s[m])
  {
    s[SkipSpaces(s, 0)..]
  }

  /** `s.strip()`: the text between the leading and the trailing whitespace.
      StripUnique and StripSplits show this is the only such reading. */
  function Strip(s: string): (r: string)
    ensures IsStripped(r) && |r| <= |s|
    ensures r == [] <==> AllSpace(s)
    ensures forall c :: c in r ==> c in s
  {
    var a := SkipSpaces(s, 0);
    var e := SkipSpacesBack(s, a, |s|);
    s[a..e]
  }

  /** The bounds `strip` cuts at: the stripped text is `s[a..e]`, everything
      before `a` and from `e` on is whitespace. */
  lemma StripBounds(s: string) returns (a: nat, e: nat)
    ensures a <= e <= |s| && Strip(s) == s[a..e] && LStrip(s) == s[a..]
    ensures forall m :: 0 <= m < a ==> IsSpace(s[m])
    ensures forall m :: e <= m < |s| ==> IsSpace(s[m])
  {
    a := SkipSpaces(s, 0);
    e := SkipSpacesBack(s, a, |s|);
  }

  /** `s.startswith(prefix)` */
  predicate StartsWith(s: string, prefix: string) {
    |prefix| <= |s| && s[..|prefix|] == prefix
  }

  /** `pat` occurs in `s` starting at index `j`. */
  predicate OccursAt(s: string, pat: string, j: nat) {
    j + |pat| <= |s| && s[j..j + |pat|] == pat
  }

  /** The index of the first character of `s` that lies in `cs`, as a scan for
      a regular-expression character class finds it; None when there is none. */
  function FirstIn(s: string, cs: set<char>): (r: Option<nat>)
    ensures r.None? <==> forall i :: 0 <= i < |s| ==> s[i] !in cs
    ensures r.Some? ==> r.value < |s| && s[r.value] in cs
    ensures r.Some? ==> forall i :: 0 <= i < r.value ==> s[i] !in cs
  {
    if s == [] then None
    else if s[0] in cs then Some(0)
    else
      match FirstIn(s[1..], cs)
      case None => None
      case Some(i) => Some(i + 1)
  }

  /** The first index at or after `from` where `pat` occurs in `s`, as the
      lazy `(.*?)` of a regular expression finds the literal that follows it. */
  function FindFrom(s: string, pat: string, from: nat): (r: Option<nat>)
    ensures r.None? <==> forall j: nat :: from <= j ==> !OccursAt(s, pat, j)
    ensures r.Some? ==> from <= r.value && OccursAt(s, pat, r.value)
    ensures r.Some? ==> forall j: nat :: from <= j < r.value ==> !OccursAt(s, pat, j)
    decreases |s| - from
  {
    if from + |pat| > |s| then None
    else if s[from..from + |pat|] == pat then
      assert OccursAt(s, pat, from);
      Some(from)
    else FindFrom(s, pat, from + 1)
  }

  /** `s.split(sep)` for a one-character separator: the pieces between
      successive separators, always at least one. */
  function Split(s: string, sep: char): (r: seq<string>)
    ensures |r| >= 1
    ensures forall i :: 0 <= i < |r| ==> sep !in r[i]
    decreases |s|
  {
    match FirstIn(s, {sep})
    case None => [s]
    case Some(i) => [s[..i]] + Split(s[i + 1..], sep)
  }

  /** `sep.join(parts)` for a one-character separator. */
  function JoinWith(parts: seq<string>, sep: char): string {
    if parts == [] then []
    else if |parts| == 1 then parts[0]
    else parts[0] + [sep] + JoinWith(parts[1..], sep)
  }

  /** Joining the pieces of a split gives back the original string. */
  lemma {:induction false} SplitJoin(s: string, sep: char)
    ensures JoinWith(Split(s, sep), sep) == s
    decreases |s|
  {
    match FirstIn(s, {sep})
    case None =>
    case Some(i) =>
      var rest := Split(s[i + 1..], sep);
      SplitJoin(s[i + 1..], sep);
      assert Split(s, sep) == [s[..i]] + rest;
      calc {
        JoinWith(Split(s, sep), sep);
        s[..i] + [sep] + JoinWith(rest, sep);
        s[..i] + [s[i]] + s[i + 1..];
        s;
      }
  }

  /** Splitting a join of separator-free pieces gives back those pieces. */
  lemma {:induction false} JoinSplit(parts: seq<string>, sep: char)
    requires |parts| >= 1
    requires forall i :: 0 <= i < |parts| ==> sep !in parts[i]
    ensures Split(JoinWith(parts, sep), sep) == parts
  {
    if |parts| > 1 {
      var head, tail := parts[0], JoinWith(parts[1..], sep);
      var s := head + [sep] + tail;
      assert JoinWith(parts, sep) == s;
      assert forall i :: 0 <= i < |head| ==> s[i] == head[i] && s[i] != sep;
      assert s[|head|] == sep;
      assert FirstIn(s, {sep}) == Some(|head|);
      assert s[..|head|] == head && s[|head| + 1..] == tail;
      JoinSplit(parts[1..], sep);
      assert parts == [head] + parts[1..];
    }
  }

  /** Extending the last piece of a join extends the join by the same text. */
  lemma {:induction false} JoinWithLast(parts: seq<string>, b: string, c: string, sep: char)
    ensures JoinWith(parts + [b + c], sep) == JoinWith(parts + [b], sep) + c
    decreases |parts|
  {
    if parts != [] {
      JoinWithLast(parts[1..], b, c, sep);
      assert (parts + [b + c])[1..] == parts[1..] + [b + c];
      assert (parts + [b])[1..] == parts[1..] + [b];
    }
  }

  /** A join ends with the last character of its last piece, and starts with
      the first character of its first piece when that piece is not empty. */
  lemma {:induction false} JoinWithEnds(parts: seq<string>, sep: char)
    requires |parts| >= 1 && parts[|parts| - 1] != []
    ensures |JoinWith(parts, sep)| > 0
    ensures parts[0] != [] ==> JoinWith(parts, sep)[0] == parts[0][0]
    ensures JoinWith(parts, sep)[|JoinWith(parts, sep)| - 1] == parts[|parts| - 1][|parts[|parts| - 1]| - 1]
    decreases |parts|
  {
    if |parts| > 1 {
      JoinWithEnds(parts[1..], sep);
    }
  }

  /** `strip` has exactly one possible result: whatever whitespace surrounds a
      stripped core, stripping returns that core. */
  lemma StripUnique(p: string, r: string, q: string)
    requires AllSpace(p) && AllSpace(q) && IsStripped(r)
    ensures Strip(p + r + q) == r
  {
    var s := p + r + q;
    assert forall m :: 0 <= m < |p| ==> s[m] == p[m];
    assert forall m :: 0 <= m < |q| ==> s[|p| + |r| + m] == q[m];
    var a := SkipSpaces(s, 0);
    if r == [] {
      assert AllSpace(s) by {
        forall m | 0 <= m < |s|
          ensures IsSpace(s[m])
        {
          if m >= |p| {
            assert s[m] == q[m - |p|];
          }
        }
      }
    } else {
      assert s[|p|] == r[0];
      assert a == |p|;
      assert s[|p| + |r| - 1] == r[|r| - 1];
      var e := SkipSpacesBack(s, a, |s|);
      assert e == |p| + |r|;
      assert s[a..e] == r;
    }
  }

  /** A prefix made of whitespace characters. */
  lemma AllSpacePrefix(s: string, a: nat)
    requires a <= |s|
    requires forall m :: 0 <= m < a ==> IsSpace(s[m])
    ensures AllSpace(s[..a])
  {
    forall m | 0 <= m < a
      ensures IsSpace(s[..a][m])
    {
      assert s[..a][m] == s[m];
    }
  }

  /** A suffix made of whitespace characters. */
  lemma AllSpaceSuffix(s: string, e: nat)
    requires e <= |s|
    requires forall m :: e <= m < |s| ==> IsSpace(s[m])
    ensures AllSpace(s[e..])
  {
    forall m | 0 <= m < |s| - e
      ensures IsSpace(s[e..][m])
    {
      assert s[e..][m] == s[e + m];
    }
  }

  /** Two runs of whitespace make one. */
  lemma AllSpaceConcat(a: string, b: string)
    requires AllSpace(a) && AllSpace(b)
    ensures AllSpace(a + b)
  {
    forall m | 0 <= m < |a + b|
      ensures IsSpace((a + b)[m])
    {
      if m >= |a| {
        assert (a + b)[m] == b[m - |a|];
      }
    }
  }

  /** Moving the text after the middle part into the suffix. */
  lemma Regroup(p: string, r: string, t: string, q: string)
    ensures p + (r + t) + q == p + r + (t + q)
  {
  }

  /** Removing only leading whitespace first does not change what `strip` gives. */
  lemma StripLStrip(s: string)
    ensures Strip(LStrip(s)) == Strip(s)
  {
    var a, e := StripBounds(s);
    AllSpaceSuffix(s, e);
    assert LStrip(s) == [] + s[a..e] + s[e..];
    StripUnique([], s[a..e], s[e..]);
  }

  /** Every string is its stripped core surrounded by whitespace. */
  lemma StripSplits(s: string) returns (p: string, q: string)
    ensures AllSpace(p) && AllSpace(q)
    ensures s == p + Strip(s) + q
  {
    var a, e := StripBounds(s);
    AllSpacePrefix(s, a);
    AllSpaceSuffix(s, e);
    p, q := s[..a], s[e..];
    assert s == p + s[a..e] + q;
  }

  /** Stripping twice is stripping once. */
  lemma StripIdempotent(s: string)
    ensures Strip(Strip(s)) == Strip(s)
  {
    StripUnique([], Strip(s), []);
    assert [] + Strip(s) + [] == Strip(s);
  }
}
