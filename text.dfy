/**
 * The few java.lang.String operations the lifecycle code relies on, over
 * `seq<char>`: ASCII lower-casing, trim, prefix/suffix/substring tests,
 * first-occurrence replacement, last index of a character, decimal
 * rendering of numbers and comma-separated lists.
 */
module Text {
  import opened Common

  /** Character.toLowerCase restricted to ASCII letters. */
  function LowerChar(c: char): char {
    if 'A' <= c <= 'Z' then (c as int + 32) as char else c
  }

  function ToLower(s: string): (r: string)
    ensures |r| == |s|
    ensures forall i :: 0 <= i < |s| ==> r[i] == LowerChar(s[i])
  {
    seq(|s|, i requires 0 <= i < |s| => LowerChar(s[i]))
  }

  lemma ToLowerAppend(a: string, b: string)
    ensures ToLower(a + b) == ToLower(a) + ToLower(b)
  {
    assert forall i :: 0 <= i < |a + b| ==> ToLower(a + b)[i] == (ToLower(a) + ToLower(b))[i];
  }

  /** Lower-casing twice is lower-casing once. */
  lemma ToLowerIdempotent(s: string)
    ensures ToLower(ToLower(s)) == ToLower(s)
  {
  }

  /** A string without upper-case letters is its own lower-case form. */
  lemma ToLowerOfLower(s: string)
    requires forall i :: 0 <= i < |s| ==> !('A' <= s[i] <= 'Z')
    ensures ToLower(s) == s
  {
  }

  predicate StartsWith(s: string, p: string) {
    |p| <= |s| && s[..|p|] == p
  }

  predicate EndsWith(s: string, p: string) {
    |p| <= |s| && s[|s| - |p|..] == p
  }

  /** `p` occurs in `s` starting at position `i`. */
  predicate OccursAt(s: string, p: string, i: int) {
    0 <= i && i + |p| <= |s| && s[i..i + |p|] == p
  }

  /** String.contains */
  predicate Contains(s: string, p: string) {
    exists i :: 0 <= i <= |s| && OccursAt(s, p, i)
  }

  /** String.indexOf(p, k): the first occurrence of `p` at or after `k`. */
  function IndexOfFrom(s: string, p: string, k: nat): (r: Option<nat>)
    decreases |s| - k
    ensures r.Some? ==> k <= r.value && OccursAt(s, p, r.value)
    ensures r.Some? ==> forall j :: k <= j < r.value ==> !OccursAt(s, p, j)
    ensures r.None? ==> forall j :: k <= j ==> !OccursAt(s, p, j)
  {
    if k + |p| > |s| then None
    else if s[k..k + |p|] == p then Some(k)
    else IndexOfFrom(s, p, k + 1)
  }

  function IndexOf(s: string, p: string): Option<nat> {
    IndexOfFrom(s, p, 0)
  }

  /** An occurrence with none before it is the one indexOf finds. */
  lemma IndexOfIsFirst(s: string, p: string, i: int)
    requires OccursAt(s, p, i)
    requires forall j :: 0 <= j < i ==> !OccursAt(s, p, j)
    ensures IndexOf(s, p) == Some(i)
  {
  }

  /** A pattern cannot start where its first character is missing. */
  lemma NoOccurrenceWithoutFirstChar(s: string, p: string, i: int)
    requires |p| > 0 && 0 <= i <= |s|
    requires forall j :: 0 <= j < i ==> s[j] != p[0]
    ensures forall j :: 0 <= j < i ==> !OccursAt(s, p, j)
  {
    forall j | 0 <= j < i ensures !OccursAt(s, p, j) {
      if j + |p| <= |s| {
        assert s[j..j + |p|][0] == s[j];
      }
    }
  }

  /** The parts of a three-piece concatenation sit where they were put. */
  lemma Concat3(a: string, b: string, c: string)
    ensures StartsWith(a + b + c, a) && OccursAt(a + b + c, b, |a|) && EndsWith(a + b + c, c)
  {
    assert (a + b + c)[..|a|] == a;
    assert (a + b + c)[|a|..|a| + |b|] == b;
    assert (a + b + c)[|a| + |b|..] == c;
  }

  lemma PrefixOfAppend(a: string, b: string, p: string)
    requires StartsWith(a, p)
    ensures StartsWith(a + b, p)
  {
    assert (a + b)[..|p|] == a[..|p|];
  }

  lemma SuffixOfAppend(a: string, b: string, p: string)
    requires EndsWith(a, p)
    ensures EndsWith(a + b, p + b)
  {
    assert (a + b)[|a + b| - |p + b|..] == a[|a| - |p|..] + b;
  }

  lemma EndsWithTrans(s: string, t: string, u: string)
    requires EndsWith(s, t) && EndsWith(t, u)
    ensures EndsWith(s, u)
  {
    assert s[|s| - |u|..] == t[|t| - |u|..];
  }

  /**
   * A pattern placed after a prefix that lacks its first character is the
   * first occurrence, so replaceFirst replaces exactly that one.
   */
  lemma FirstOccurrenceAfter(pre: string, p: string, rest: string, r: string)
    requires |p| > 0 && p[0] !in pre
    ensures IndexOf(pre + p + rest, p) == Some(|pre|)
    ensures ReplaceFirst(pre + p + rest, p, r) == pre + r + rest
  {
    var s := pre + p + rest;
    forall j | 0 <= j < |pre| ensures s[j] != p[0] {
      assert s[j] == pre[j];
    }
    NoOccurrenceWithoutFirstChar(s, p, |pre|);
    Concat3(pre, p, rest);
    IndexOfIsFirst(s, p, |pre|);
    assert s[..|pre|] == pre && s[|pre| + |p|..] == rest;
  }

  lemma ContainsIffFound(s: string, p: string)
    ensures Contains(s, p) <==> IndexOf(s, p).Some?
  {
    if IndexOf(s, p).Some? {
      assert OccursAt(s, p, IndexOf(s, p).value);
    }
  }

  /**
   * String.replaceFirst(p, r) for a pattern and a replacement without
   * regular-expression metacharacters: the first occurrence is replaced.
   */
  function ReplaceFirst(s: string, p: string, r: string): string {
    match IndexOf(s, p)
    case None => s
    case Some(i) => s[..i] + r + s[i + |p|..]
  }

  lemma ReplaceFirstAtStart(s: string, p: string, r: string)
    requires StartsWith(s, p)
    ensures ReplaceFirst(s, p, r) == r + s[|p|..]
  {
    assert OccursAt(s, p, 0);
  }

  /** String.lastIndexOf(c) */
  function LastIndexOf(s: string, c: char): (r: Option<nat>)
    ensures r.Some? ==> r.value < |s| && s[r.value] == c
    ensures r.Some? ==> forall j :: r.value < j < |s| ==> s[j] != c
    ensures r.None? ==> forall j :: 0 <= j < |s| ==> s[j] != c
  {
    if s == [] then None
    else if s[|s| - 1] == c then Some(|s| - 1)
    else LastIndexOf(s[..|s| - 1], c)
  }

  /** The extension of a file name: the text after its last dot, or "" when it has none. */
  function Extension(name: string): (r: string)
    ensures '.' !in r
  {
    match LastIndexOf(name, '.')
    case None => ""
    case Some(i) => name[i + 1..]
  }

  /** A non-empty extension ends where the name ends. */
  lemma ExtensionIsSuffix(name: string)
    ensures EndsWith(name, Extension(name))
  {
    match LastIndexOf(name, '.')
    case None =>
    case Some(i) =>
      assert name[|name| - |Extension(name)|..] == name[i + 1..];
  }

  /** The file name without its last dot and extension. */
  function BaseName(name: string): string {
    match LastIndexOf(name, '.')
    case None => name
    case Some(i) => name[..i]
  }

  lemma BaseNameAndExtension(name: string)
    requires '.' in name
    ensures name == BaseName(name) + "." + Extension(name)
  {
    var i :| 0 <= i < |name| && name[i] == '.';
    assert LastIndexOf(name, '.').Some?;
  }

  /** Every character is one String.trim removes. */
  predicate AllBlank(s: string) {
    s == [] || (s[0] <= ' ' && AllBlank(s[1..]))
  }

  lemma {:induction false} AllBlankAppend(a: string, b: string)
    requires AllBlank(a) && AllBlank(b)
    ensures AllBlank(a + b)
  {
    if a == [] {
      assert a + b == b;
    } else {
      AllBlankAppend(a[1..], b);
      assert (a + b)[1..] == a[1..] + b;
    }
  }

  lemma SliceOfSuffix(s: string, i: nat, k: nat)
    requires i + k <= |s|
    ensures s[i..][..k] == s[i..i + k] && s[i..][k..] == s[i + k..]
  {
  }

  /** The number of blanks String.trim drops at the front of `s`. */
  function LeadingBlanks(s: string): (k: nat)
    ensures k <= |s| && AllBlank(s[..k])
    ensures k < |s| ==> s[k] > ' '
  {
    if s != [] && s[0] <= ' ' then
      var k := LeadingBlanks(s[1..]);
      assert s[..k + 1][1..] == s[1..][..k];
      assert k + 1 < |s| ==> s[k + 1] == s[1..][k];
      k + 1
    else
      assert s[..0] == [];
      0
  }

  /** The length of `s` once String.trim has dropped the blanks at its end. */
  function LengthBeforeTrailingBlanks(s: string): (n: nat)
    ensures n <= |s| && AllBlank(s[n..])
    ensures n > 0 ==> s[n - 1] > ' '
  {
    if s != [] && s[|s| - 1] <= ' ' then
      var front := s[..|s| - 1];
      var n := LengthBeforeTrailingBlanks(front);
      assert s[n..] == front[n..] + [s[|s| - 1]];
      assert AllBlank([s[|s| - 1]]) by { assert [s[|s| - 1]][1..] == []; }
      AllBlankAppend(front[n..], [s[|s| - 1]]);
      assert n > 0 ==> s[n - 1] == front[n - 1];
      n
    else
      assert s[|s|..] == [];
      |s|
  }

  /** String.trim: drops leading and trailing characters not above the space. */
  function TrimStart(s: string): (r: string)
    ensures |r| <= |s| && r == s[|s| - |r|..] && AllBlank(s[..|s| - |r|])
    ensures r == [] || r[0] > ' '
  {
    s[LeadingBlanks(s)..]
  }

  function TrimEnd(s: string): (r: string)
    ensures |r| <= |s| && r == s[..|r|] && AllBlank(s[|r|..])
    ensures r == [] || r[|r| - 1] > ' '
  {
    s[..LengthBeforeTrailingBlanks(s)]
  }

  /** Cutting blanks off the front of `s` and then off the back keeps a slice of `s`. */
  lemma TrimmedSlice(s: string, t: string, r: string)
    requires |t| <= |s| && t == s[|s| - |t|..]
    requires |r| <= |t| && r == t[..|r|] && AllBlank(t[|r|..])
    requires t == [] || t[0] > ' '
    ensures r == [] || r[0] > ' '
    ensures |s| - |t| + |r| <= |s|
    ensures r == s[|s| - |t|..|s| - |t| + |r|]
    ensures AllBlank(s[|s| - |t| + |r|..])
  {
    SliceOfSuffix(s, |s| - |t|, |r|);
    assert r != [] ==> r[0] == t[0];
  }

  /**
   * The result is the slice of `s` that starts after the leading blanks,
   * and everything cut off on either side is blank.
   */
  function Trim(s: string): (r: string)
    ensures r == [] || (r[0] > ' ' && r[|r| - 1] > ' ')
    ensures |s| - |TrimStart(s)| + |r| <= |s|
    ensures r == s[|s| - |TrimStart(s)|..|s| - |TrimStart(s)| + |r|]
    ensures AllBlank(s[..|s| - |TrimStart(s)|])
    ensures AllBlank(s[|s| - |TrimStart(s)| + |r|..])
  {
    var t := TrimStart(s);
    var r := TrimEnd(t);
    TrimmedSlice(s, t, r);
    r
  }

  predicate IsDigit(c: char) {
    '0' <= c <= '9'
  }

  function DigitChar(d: nat): (c: char)
    requires d < 10
    ensures IsDigit(c)
  {
    ('0' as int + d) as char
  }

  /** Long.toString for a non-negative value. */
  function NatToString(n: nat): (r: string)
    ensures |r| > 0
    ensures forall i :: 0 <= i < |r| ==> IsDigit(r[i])
  {
    if n < 10 then [DigitChar(n)] else NatToString(n / 10) + [DigitChar(n % 10)]
  }

  /** Long.toString */
  function IntToString(n: int): (r: string)
    ensures |r| > 0
    ensures forall i :: 0 <= i < |r| ==> IsDigit(r[i]) || (i == 0 && r[i] == '-')
  {
    if n < 0 then "-" + NatToString(-n) else NatToString(n)
  }

  /** Reads a decimal numeral (no sign). */
  function ParseNat(s: string): (r: int)
    ensures (forall i :: 0 <= i < |s| ==> IsDigit(s[i])) ==> r >= 0
  {
    if s == [] then 0 else ParseNat(s[..|s| - 1]) * 10 + (s[|s| - 1] as int - '0' as int)
  }

  /** Long.parseLong on a numeral that may start with a minus sign. */
  function ParseInt(s: string): int {
    if |s| > 0 && s[0] == '-' then -ParseNat(s[1..]) else ParseNat(s)
  }

  lemma {:induction false} ParseNatToString(n: nat)
    ensures ParseNat(NatToString(n)) == n
  {
    if n >= 10 {
      var s := NatToString(n);
      assert s[..|s| - 1] == NatToString(n / 10);
      ParseNatToString(n / 10);
    }
  }

  lemma IntToStringRoundTrip(n: int)
    ensures ParseInt(IntToString(n)) == n
  {
    if n < 0 {
      assert IntToString(n)[1..] == NatToString(-n);
      ParseNatToString(-n);
    } else {
      ParseNatToString(n);
    }
  }

  /** The elements of `xs` separated by `sep`, built from the last element backwards. */
  function Join(xs: seq<string>, sep: char): string {
    if |xs| == 0 then ""
    else if |xs| == 1 then xs[0]
    else Join(xs[..|xs| - 1], sep) + [sep] + xs[|xs| - 1]
  }

  /** String.split on a single character, keeping empty pieces. */
  function Split(s: string, sep: char): (r: seq<string>)
    ensures |r| > 0
  {
    match LastIndexOf(s, sep)
    case None => [s]
    case Some(i) => Split(s[..i], sep) + [s[i + 1..]]
  }

  lemma {:induction false} SplitJoin(xs: seq<string>, sep: char)
    requires |xs| > 0
    requires forall i :: 0 <= i < |xs| ==> sep !in xs[i]
    ensures Split(Join(xs, sep), sep) == xs
  {
    if |xs| > 1 {
      var init := xs[..|xs| - 1];
      var last := xs[|xs| - 1];
      var s := Join(xs, sep);
      assert s == Join(init, sep) + [sep] + last;
      var i := |Join(init, sep)|;
      assert s[i] == sep;
      assert forall j :: i < j < |s| ==> s[j] == last[j - i - 1];
      assert LastIndexOf(s, sep) == Some(i);
      assert s[..i] == Join(init, sep);
      assert s[i + 1..] == last;
      SplitJoin(init, sep);
      assert init + [last] == xs;
    }
  }
}
