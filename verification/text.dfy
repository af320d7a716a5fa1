/**
 * The handful of Python string and path operations the scraper relies on:
 * `str.isspace`/`str.rstrip`, `str.find`, `'_'.join`, `str.lower`,
 * `str.replace` and the two-argument POSIX `os.path.join`.
 */
module Text {

  /** Python's `str.isspace` character class (what `rstrip()` with no argument removes). */
  predicate IsSpace(c: char) {
    || ('\t' <= c <= '\r')                  // \t \n \v \f \r
    || ('\U{1C}' <= c <= ' ')               // file/group/record/unit separators and space
    || c == '\U{85}' || c == '\U{A0}' || c == '\U{1680}'
    || ('\U{2000}' <= c <= '\U{200A}')
    || c == '\U{2028}' || c == '\U{2029}' || c == '\U{202F}' || c == '\U{205F}' || c == '\U{3000}'
  }

  /**
   * `s.rstrip()`: drop the trailing run of whitespace. The result is a prefix of `s`
   * (so leading and internal characters are untouched), does not end in whitespace,
   * and everything removed was whitespace.
   */
  function RStrip(s: string): (r: string)
    ensures r <= s
    ensures |r| == 0 || !IsSpace(r[|r| - 1])
    ensures forall i :: |r| <= i < |s| ==> IsSpace(s[i])
    decreases |s|
  {
    if |s| == 0 || !IsSpace(s[|s| - 1]) then s else RStrip(s[..|s| - 1])
  }

  /** The three properties of `RStrip` determine its result: any string meeting them is `RStrip(s)`. */
  lemma RStripUnique(s: string, t: string)
    requires t <= s
    requires |t| == 0 || !IsSpace(t[|t| - 1])
    requires forall i :: |t| <= i < |s| ==> IsSpace(s[i])
    ensures t == RStrip(s)
  {
  }

  /** `s.find(pat) != -1`: `pat` occurs somewhere in `s`. */
  predicate Contains(s: string, pat: string)
    decreases |s|
  {
    pat <= s || (|s| > 0 && Contains(s[1..], pat))
  }

  /** `pat` occurs in `s` starting at index `i`. */
  predicate OccursAt(s: string, pat: string, i: int) {
    0 <= i <= |s| - |pat| && s[i..i + |pat|] == pat
  }

  /** `Contains` agrees with the positional reading of `find`: some index starts an occurrence of `pat`. */
  lemma {:induction false} ContainsIffOccurrence(s: string, pat: string)
    ensures Contains(s, pat) <==> exists i :: OccursAt(s, pat, i)
    decreases |s|
  {
    if pat <= s {
      assert OccursAt(s, pat, 0);
    } else if |s| == 0 {
    } else {
      ContainsIffOccurrence(s[1..], pat);
      if Contains(s[1..], pat) {
        var i :| OccursAt(s[1..], pat, i);
        assert s[1..][i..i + |pat|] == s[i + 1..i + 1 + |pat|];
        assert OccursAt(s, pat, i + 1);
      }
      if exists i :: OccursAt(s, pat, i) {
        var i :| OccursAt(s, pat, i);
        assert s[1..][i - 1..i - 1 + |pat|] == s[i..i + |pat|];
        assert OccursAt(s[1..], pat, i - 1);
      }
    }
  }

  /** Suffix test, as Python's `str.endswith`. */
  predicate EndsWith(s: string, suffix: string) {
    |suffix| <= |s| && s[|s| - |suffix|..] == suffix
  }

  /** A suffix of a suffix is a suffix. */
  lemma EndsWithTrans(a: string, b: string, c: string)
    requires EndsWith(a, b) && EndsWith(b, c)
    ensures EndsWith(a, c)
  {
    assert a[|a| - |c|..] == a[|a| - |b|..][|b| - |c|..];
  }

  /** `sep.join(parts)` for a one-character separator. */
  function JoinWith(sep: char, parts: seq<string>): (r: string)
    decreases |parts|
  {
    if |parts| == 0 then ""
    else if |parts| == 1 then parts[0]
    else parts[0] + [sep] + JoinWith(sep, parts[1..])
  }

  /** Index of the first occurrence of `c` in `s`. */
  function FirstIndex(s: string, c: char): (r: nat)
    requires c in s
    ensures r < |s| && s[r] == c && c !in s[..r]
  {
    if s[0] == c then 0 else 1 + FirstIndex(s[1..], c)
  }

  /** `s.split(sep)` for a one-character separator: always at least one piece. */
  function Split(sep: char, s: string): (r: seq<string>)
    ensures |r| > 0
    decreases |s|
  {
    if sep !in s then [s]
    else
      var i := FirstIndex(s, sep);
      [s[..i]] + Split(sep, s[i + 1..])
  }

  /** The first separator after a separator-free head is the one right after it. */
  lemma {:induction false} FirstIndexAfter(a: string, c: char, b: string)
    requires c !in a
    ensures c in a + [c] + b
    ensures FirstIndex(a + [c] + b, c) == |a|
    decreases |a|
  {
    var s := a + [c] + b;
    assert s[|a|] == c;
    if |a| > 0 {
      assert s[1..] == a[1..] + [c] + b;
      FirstIndexAfter(a[1..], c, b);
    }
  }

  /** Joining pieces that do not contain the separator can be undone by splitting. */
  lemma {:induction false} SplitJoin(sep: char, parts: seq<string>)
    requires |parts| > 0
    requires forall j :: 0 <= j < |parts| ==> sep !in parts[j]
    ensures Split(sep, JoinWith(sep, parts)) == parts
    decreases |parts|
  {
    if |parts| > 1 {
      var rest := JoinWith(sep, parts[1..]);
      var s := parts[0] + [sep] + rest;
      assert JoinWith(sep, parts) == s;
      FirstIndexAfter(parts[0], sep, rest);
      assert s[..|parts[0]|] == parts[0];
      assert s[|parts[0]| + 1..] == rest;
      SplitJoin(sep, parts[1..]);
      assert Split(sep, s) == [parts[0]] + parts[1..];
    }
  }

  /** ASCII lower-casing of one character (`str.lower` on the ASCII letters). */
  function LowerChar(c: char): (r: char)
    ensures 'A' <= c <= 'Z' ==> 'a' <= r <= 'z'
    ensures !('A' <= c <= 'Z') ==> r == c
  {
    if 'A' <= c <= 'Z' then (c as int - 'A' as int + 'a' as int) as char else c
  }

  /** `s.lower()` restricted to ASCII letters. */
  function Lower(s: string): (r: string)
    ensures |r| == |s|
    ensures forall i :: 0 <= i < |s| ==> r[i] == LowerChar(s[i])
  {
    seq(|s|, i requires 0 <= i < |s| => LowerChar(s[i]))
  }

  /** `s.replace(a, b)` for single characters. */
  function ReplaceChar(s: string, a: char, b: char): (r: string)
    ensures |r| == |s|
    ensures forall i :: 0 <= i < |s| ==> r[i] == (if s[i] == a then b else s[i])
  {
    seq(|s|, i requires 0 <= i < |s| => if s[i] == a then b else s[i])
  }

  /** What `os.path.join` puts in front of a relative name: `dir`, with a `/` added unless it is empty or already ends with one. */
  function DirPrefix(dir: string): (p: string)
    ensures dir <= p
    ensures |p| > 0 ==> p[|p| - 1] == '/'
  {
    if |dir| == 0 || dir[|dir| - 1] == '/' then dir else dir + "/"
  }

  /**
   * Two-argument POSIX `os.path.join(dir, name)`: an absolute `name` replaces `dir`,
   * otherwise a `/` is inserted unless `dir` is empty or already ends with one.
   */
  function PathJoin(dir: string, name: string): (r: string)
    ensures EndsWith(r, name)
    ensures |name| > 0 && name[0] != '/' ==> r[..|r| - |name|] == DirPrefix(dir)
    ensures |name| > 0 && name[0] == '/' ==> r == name
  {
    if |name| > 0 && name[0] == '/' then name
    else if |dir| == 0 || dir[|dir| - 1] == '/' then dir + name
    else dir + "/" + name
  }

  /** Relative names joined onto the same directory give distinct paths. */
  lemma PathJoinInjective(dir: string, a: string, b: string)
    requires |a| > 0 && a[0] != '/'
    requires |b| > 0 && b[0] != '/'
    requires PathJoin(dir, a) == PathJoin(dir, b)
    ensures a == b
  {
    var ra := PathJoin(dir, a);
    assert ra[|ra| - |a|..] == a;
    assert ra[|ra| - |b|..] == b;
  }
}
