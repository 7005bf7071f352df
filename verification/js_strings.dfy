/**
 * The JavaScript string operations the application relies on, on `seq<char>`:
 * `trim`, `includes`/`indexOf`, `replace` of the first occurrence of a literal,
 * a global regular-expression replace of a literal by the empty string,
 * `split` on a one-character separator, `join`, `startsWith`/`endsWith`,
 * ASCII case mapping, and the decimal rendering of integers.
 */
module JsStrings {
  import opened Wrappers

  // ---------------------------------------------------------------- trim

  /** The characters `String.prototype.trim` removes: ECMAScript WhiteSpace and LineTerminator. */
  predicate IsSpace(c: char) {
    var n := c as int;
    n == 0x09 || n == 0x0A || n == 0x0B || n == 0x0C || n == 0x0D || n == 0x20 || n == 0xA0 ||
    n == 0x1680 || (0x2000 <= n <= 0x200A) || n == 0x2028 || n == 0x2029 || n == 0x202F ||
    n == 0x205F || n == 0x3000 || n == 0xFEFF
  }

  /** `!s.trim()`: the string is empty or made only of white space. */
  predicate IsBlank(s: string) {
    forall k | 0 <= k < |s| :: IsSpace(s[k])
  }

  /** No leading and no trailing white space. */
  predicate IsTrimmed(s: string) {
    s == [] || (!IsSpace(s[0]) && !IsSpace(s[|s| - 1]))
  }

  /** Number of leading white-space characters. */
  function LeadingSpaces(s: string): (i: nat)
    ensures i <= |s|
    ensures forall k | 0 <= k < i :: IsSpace(s[k])
    ensures i < |s| ==> !IsSpace(s[i])
  {
    if s == [] || !IsSpace(s[0]) then 0 else 1 + LeadingSpaces(s[1..])
  }

  /** Index where the trailing white space begins. */
  function TrailingStart(s: string): (j: nat)
    ensures j <= |s|
    ensures forall k | j <= k < |s| :: IsSpace(s[k])
    ensures j > 0 ==> !IsSpace(s[j - 1])
  {
    if s == [] || !IsSpace(s[|s| - 1]) then |s| else TrailingStart(s[..|s| - 1])
  }

  function TrimEnd(s: string): string {
    s[..TrailingStart(s)]
  }

  /** `s.trim()` */
  function Trim(s: string): (r: string)
    ensures IsTrimmed(r)
    ensures r == [] <==> IsBlank(s)
    ensures LeadingSpaces(s) + |r| <= |s| && r == s[LeadingSpaces(s)..LeadingSpaces(s) + |r|]
    ensures IsBlank(s[LeadingSpaces(s) + |r|..])
  {
    var t := s[LeadingSpaces(s)..];
    TrimShape(s, LeadingSpaces(s), t, TrailingStart(t));
    t[..TrailingStart(t)]
  }

  /** What is left after `lead` leading and the trailing white space of the rest are cut off. */
  lemma TrimShape(s: string, lead: nat, t: string, end: nat)
    requires lead <= |s| && t == s[lead..]
    requires (forall k | 0 <= k < lead :: IsSpace(s[k])) && (lead < |s| ==> !IsSpace(s[lead]))
    requires end <= |t| && (forall k | end <= k < |t| :: IsSpace(t[k])) && (end > 0 ==> !IsSpace(t[end - 1]))
    ensures IsTrimmed(t[..end])
    ensures t[..end] == [] <==> IsBlank(s)
    ensures lead + |t[..end]| <= |s| && t[..end] == s[lead..lead + |t[..end]|]
    ensures IsBlank(s[lead + |t[..end]|..])
  {
    var r := t[..end];
    assert r != [] ==> r[0] == s[lead];
    assert IsBlank(s) ==> lead == |s|;
    assert t != [] ==> end > 0;
    assert s[lead + |r|..] == t[end..];
  }

  lemma TrimOfTrimmed(s: string)
    requires IsTrimmed(s)
    ensures Trim(s) == s
  {
    if s != [] {
      assert LeadingSpaces(s) == 0;
      assert TrailingStart(s) == |s|;
    }
  }

  // ------------------------------------------------------- search, replace

  predicate OccursAt(s: string, p: string, i: nat) {
    i + |p| <= |s| && s[i..i + |p|] == p
  }

  /** `s.includes(p)` */
  predicate Contains(s: string, p: string) {
    exists i: nat | i <= |s| :: OccursAt(s, p, i)
  }

  predicate StartsWith(s: string, p: string) {
    |p| <= |s| && s[..|p|] == p
  }

  predicate EndsWith(s: string, p: string) {
    |p| <= |s| && s[|s| - |p|..] == p
  }

  function IndexFrom(s: string, p: string, from: nat): (r: Option<nat>)
    decreases |s| - from
    ensures r.Some? ==> from <= r.value && OccursAt(s, p, r.value)
    ensures r.Some? ==> forall j | from <= j < r.value :: !OccursAt(s, p, j)
    ensures r.None? ==> forall j: nat | from <= j :: !OccursAt(s, p, j)
  {
    if from + |p| > |s| then None
    else if OccursAt(s, p, from) then Some(from)
    else IndexFrom(s, p, from + 1)
  }

  /** `s.indexOf(p)`, with `None` for -1. */
  function IndexOf(s: string, p: string): (r: Option<nat>)
    ensures r.Some? <==> Contains(s, p)
    ensures r.Some? ==> OccursAt(s, p, r.value) && forall j | 0 <= j < r.value :: !OccursAt(s, p, j)
  {
    IndexFrom(s, p, 0)
  }

  /** `s.replace(p, r)` with a string pattern: only the first occurrence is replaced. */
  function ReplaceFirst(s: string, p: string, r: string): string {
    match IndexOf(s, p)
    case None => s
    case Some(i) => s[..i] + r + s[i + |p|..]
  }

  /** `s.replace(/p/g, '')` for a literal pattern: leftmost, non-overlapping occurrences are deleted. */
  function RemoveAll(s: string, p: string): string
    requires |p| > 0
    decreases |s|
  {
    if s == [] then []
    else if OccursAt(s, p, 0) then RemoveAll(s[|p|..], p)
    else [s[0]] + RemoveAll(s[1..], p)
  }

  lemma OccursInTail(x: char, t: string, p: string, i: nat)
    requires i > 0
    ensures OccursAt([x] + t, p, i) ==> OccursAt(t, p, i - 1)
  {
    if i + |p| <= 1 + |t| {
      assert ([x] + t)[i..i + |p|] == t[i - 1..i - 1 + |p|];
    }
  }

  lemma OccursInSlice(s: string, lo: nat, hi: nat, p: string, i: nat)
    requires lo <= hi <= |s|
    ensures OccursAt(s[lo..hi], p, i) ==> OccursAt(s, p, lo + i)
  {
    if i + |p| <= hi - lo {
      var a, b := s[lo..hi][i..i + |p|], s[lo + i..lo + i + |p|];
      forall k | 0 <= k < |p|
        ensures a[k] == b[k]
      {
      }
      assert a == b;
    }
  }

  /** A string that does not start with a backtick keeps its first character through the removal. */
  lemma RemoveFencesKeepsHead(u: string)
    requires u != [] && u[0] != '`'
    ensures RemoveAll(u, "```") != [] && RemoveAll(u, "```")[0] == u[0]
  {
    assert !OccursAt(u, "```", 0);
  }

  /** Removing every "```" leaves no "```" behind, although removal joins the surrounding text. */
  lemma {:induction false} RemoveFencesComplete(s: string)
    ensures !Contains(RemoveAll(s, "```"), "```")
    decreases |s|
  {
    var f := "```";
    var r := RemoveAll(s, f);
    if s == [] {
    } else if OccursAt(s, f, 0) {
      RemoveFencesComplete(s[3..]);
    } else {
      var t := s[1..];
      RemoveFencesComplete(t);
      var rt := RemoveAll(t, f);
      assert r == [s[0]] + rt;
      forall i: nat | 0 < i <= |r|
        ensures !OccursAt(r, f, i)
      {
        OccursInTail(s[0], rt, f, i);
      }
      // no occurrence at 0 either: one of the first three characters is not a backtick
      if s[0] == '`' && t != [] {
        if t[0] != '`' {
          RemoveFencesKeepsHead(t);
        } else {
          assert |t| == 1 || t[1] != '`' by {
            assert |t| > 1 ==> s[..3] == [s[0], t[0], t[1]];
          }
          assert !OccursAt(t, f, 0);
          var u := t[1..];
          assert rt == [t[0]] + RemoveAll(u, f);
          if u != [] {
            RemoveFencesKeepsHead(u);
          }
        }
      }
      assert !OccursAt(r, f, 0);
    }
  }

  /** If the pattern is absent, every slice of the string lacks it too. */
  lemma AbsentFromSlice(s: string, lo: nat, hi: nat, p: string)
    requires lo <= hi <= |s| && !Contains(s, p)
    ensures !Contains(s[lo..hi], p)
  {
    forall i: nat | i <= hi - lo
      ensures !OccursAt(s[lo..hi], p, i)
    {
      OccursInSlice(s, lo, hi, p, i);
    }
  }

  /** A pattern without a proper border (no proper prefix equal to a suffix). */
  predicate Unbordered(p: string) {
    forall k | 0 < k < |p| :: p[k..] != p[..|p| - k]
  }

  /** The first occurrence of an unbordered pattern in `c + p` is the appended one when `c` lacks it. */
  lemma {:induction false} FirstOccurrenceAppended(c: string, p: string)
    requires Unbordered(p) && !Contains(c, p)
    ensures IndexOf(c + p, p) == Some(|c|)
  {
    var s := c + p;
    assert OccursAt(s, p, |c|) by { assert s[|c|..|c| + |p|] == p; }
    forall j | 0 <= j < |c|
      ensures !OccursAt(s, p, j)
    {
      NotBeforeAppended(c, p, j);
    }
    assert IndexOf(s, p).Some?;
  }

  /** Before the appended copy, an unbordered pattern occurs neither inside `c` nor across the seam. */
  lemma NotBeforeAppended(c: string, p: string, j: nat)
    requires Unbordered(p) && !Contains(c, p) && j < |c|
    ensures !OccursAt(c + p, p, j)
  {
    var s := c + p;
    if j + |p| <= |c| {
      assert s[j..j + |p|] == c[j..j + |p|];
      assert !OccursAt(c, p, j);
    } else {
      // an occurrence here would straddle the seam, making p[k..] a border of p
      var k := |c| - j;
      assert 0 < k < |p|;
      assert s[j..j + |p|][k..] == p[..|p| - k] by {
        assert s[j..j + |p|][k..] == s[|c|..|c| + (|p| - k)];
      }
      assert p[k..] != p[..|p| - k];
    }
  }

  lemma ReplaceFirstAppended(c: string, p: string)
    requires Unbordered(p) && !Contains(c, p)
    ensures ReplaceFirst(c + p, p, "") == c
  {
    FirstOccurrenceAppended(c, p);
    assert (c + p)[..|c|] == c;
  }

  /** Appending `q` creates no occurrence of `p` when neither part has one and `q`'s first character cannot continue a partial `p`. */
  lemma AppendKeepsAbsent(c: string, q: string, p: string)
    requires !Contains(c, p) && !Contains(q, p)
    requires |q| > 0 && forall k | 0 < k < |p| :: p[k] != q[0]
    ensures !Contains(c + q, p)
  {
    var s := c + q;
    forall i: nat | i <= |s|
      ensures !OccursAt(s, p, i)
    {
      if i + |p| <= |s| {
        if i + |p| <= |c| {
          assert s[i..i + |p|] == c[i..i + |p|];
          assert !OccursAt(c, p, i);
        } else if i >= |c| {
          assert s[i..i + |p|] == q[i - |c|..i - |c| + |p|];
          assert !OccursAt(q, p, i - |c|);
        } else {
          var k := |c| - i;
          assert s[i..i + |p|][k] == q[0];
        }
      }
    }
  }

  lemma ReplaceFirstAbsent(s: string, p: string, r: string)
    requires !Contains(s, p)
    ensures ReplaceFirst(s, p, r) == s
  {
  }

  // ---------------------------------------------------------- split, join

  /** The first position at or after `k` holding `c`. */
  function CharIndexFrom(s: string, c: char, k: nat): (i: nat)
    requires exists j | k <= j < |s| :: s[j] == c
    ensures k <= i < |s| && s[i] == c
    ensures forall j | k <= j < i :: s[j] != c
    decreases |s| - k
  {
    if s[k] == c then k else CharIndexFrom(s, c, k + 1)
  }

  function FirstIndexOf(s: string, c: char): (i: nat)
    requires c in s
    ensures i < |s| && s[i] == c && c !in s[..i]
  {
    CharIndexFrom(s, c, 0)
  }

  /** `s.split(sep)` for a one-character separator. */
  function Split(s: string, sep: char): (parts: seq<string>)
    ensures |parts| >= 1
    decreases |s|
  {
    if sep !in s then [s]
    else
      var i := FirstIndexOf(s, sep);
      [s[..i]] + Split(s[i + 1..], sep)
  }

  /** No part holds the separator. */
  lemma {:induction false} SplitPartsLackSep(s: string, sep: char)
    ensures forall k | 0 <= k < |Split(s, sep)| :: sep !in Split(s, sep)[k]
    decreases |s|
  {
    if sep in s {
      var i := FirstIndexOf(s, sep);
      SplitPartsLackSep(s[i + 1..], sep);
      assert Split(s, sep) == [s[..i]] + Split(s[i + 1..], sep);
    }
  }

  /** `parts.join(sep)` */
  function Join(parts: seq<string>, sep: string): string {
    if parts == [] then ""
    else if |parts| == 1 then parts[0]
    else parts[0] + sep + Join(parts[1..], sep)
  }

  /** Splitting and joining again gives back the text. */
  lemma {:induction false} JoinSplit(s: string, sep: char)
    ensures Join(Split(s, sep), [sep]) == s
    decreases |s|
  {
    if sep in s {
      var i := FirstIndexOf(s, sep);
      JoinSplit(s[i + 1..], sep);
      SplitUnfold(s, sep);
      JoinSplitStep(s, sep, i, Split(s[i + 1..], sep));
    }
  }

  lemma SplitUnfold(s: string, sep: char)
    requires sep in s
    ensures var i := FirstIndexOf(s, sep); Split(s, sep) == [s[..i]] + Split(s[i + 1..], sep)
  {
  }

  /** The text before a separator, joined with the parts that give back what follows it, gives back the whole. */
  lemma JoinSplitStep(s: string, sep: char, i: nat, later: seq<string>)
    requires i < |s| && s[i] == sep && later != [] && Join(later, [sep]) == s[i + 1..]
    ensures Join([s[..i]] + later, [sep]) == s
  {
    JoinCons(s[..i], later, [sep]);
    assert s == s[..i] + [sep] + s[i + 1..];
  }

  lemma JoinCons(first: string, parts: seq<string>, sep: string)
    requires parts != []
    ensures Join([first] + parts, sep) == first + sep + Join(parts, sep)
  {
    assert ([first] + parts)[1..] == parts;
  }

  // ------------------------------------------------------------ case, digits

  function LowerChar(c: char): char {
    if 'A' <= c <= 'Z' then (c as int + 32) as char else c
  }

  function UpperChar(c: char): char {
    if 'a' <= c <= 'z' then (c as int - 32) as char else c
  }

  /** `s.toLowerCase()` on ASCII letters. */
  function Lower(s: string): (r: string)
    ensures |r| == |s| && forall k | 0 <= k < |s| :: r[k] == LowerChar(s[k])
  {
    seq(|s|, k requires 0 <= k < |s| => LowerChar(s[k]))
  }

  /** `s.toUpperCase()` on ASCII letters. */
  function Upper(s: string): (r: string)
    ensures |r| == |s| && forall k | 0 <= k < |s| :: r[k] == UpperChar(s[k])
  {
    seq(|s|, k requires 0 <= k < |s| => UpperChar(s[k]))
  }

  function DigitChar(d: nat): char
    requires d < 10
  {
    ('0' as int + d) as char
  }

  predicate IsDigits(s: string) {
    forall k | 0 <= k < |s| :: '0' <= s[k] <= '9'
  }

  /** Decimal rendering of a natural number, as in a template literal. */
  function NatToString(n: nat): (r: string)
    ensures |r| >= 1 && IsDigits(r)
    ensures (|r| > 1) == (n >= 10)
  {
    if n < 10 then [DigitChar(n)] else NatToString(n / 10) + [DigitChar(n % 10)]
  }

  function DigitsValue(s: string): nat
    requires IsDigits(s)
  {
    if s == [] then 0 else 10 * DigitsValue(s[..|s| - 1]) + (s[|s| - 1] as int - '0' as int)
  }

  /** The decimal rendering reads back as the number. */
  lemma {:induction false} NatToStringValue(n: nat)
    ensures DigitsValue(NatToString(n)) == n
  {
    if n >= 10 {
      NatToStringValue(n / 10);
      var r := NatToString(n);
      assert r[..|r| - 1] == NatToString(n / 10);
    }
  }

  /** Decimal rendering of an integer (`String(n)` for an integral number). */
  function IntToString(n: int): string {
    if n < 0 then "-" + NatToString(-n) else NatToString(n)
  }
}
