/**
 Character classes and the handful of Python `str` operations the core relies on:
 whitespace as `str.isspace()` sees it, ASCII lower-casing, `in`/`find`, `strip`,
 regex-style removal of a leading run of characters, and `split` on one character.
 */
module Text {

  datatype Option<T> = None | Some(value: T)

  /** Whitespace exactly as Python's `str.isspace()` and the regex class `\s` see it on `str`. */
  predicate IsSpace(c: char) {
    || c == ' '
    || ('\t' <= c <= '\r')
    || ('\U{1C}' <= c <= '\U{1F}')
    || c == '\U{85}'
    || c == '\U{A0}'
    || c == '\U{1680}'
    || ('\U{2000}' <= c <= '\U{200A}')
    || c == '\U{2028}'
    || c == '\U{2029}'
    || c == '\U{202F}'
    || c == '\U{205F}'
    || c == '\U{3000}'
  }

  predicate IsDigit(c: char) {
    '0' <= c <= '9'
  }

  predicate IsLetter(c: char) {
    ('a' <= c <= 'z') || ('A' <= c <= 'Z')
  }

  predicate IsAlnum(c: char) {
    IsLetter(c) || IsDigit(c)
  }

  /** ASCII lower-casing; every other character is left alone. */
  function LowerChar(c: char): char {
    if 'A' <= c <= 'Z' then (c as int - 'A' as int + 'a' as int) as char else c
  }

  function Lower(s: string): string {
    seq(|s|, i requires 0 <= i < |s| => LowerChar(s[i]))
  }

  lemma LowerAppend(a: string, b: string)
    ensures Lower(a + b) == Lower(a) + Lower(b)
  {
  }

  /** Lower-casing works character by character, so it commutes with slicing. */
  lemma LowerSlice(s: string, i: nat, j: nat)
    requires i <= j <= |s|
    ensures Lower(s)[i..j] == Lower(s[i..j])
  {
  }

  /** A string with no upper-case letter is its own lower-cased form. */
  lemma LowerOfLowerCase(s: string)
    requires forall i :: 0 <= i < |s| ==> !('A' <= s[i] <= 'Z')
    ensures Lower(s) == s
  {
  }

  lemma LowerIdempotent(s: string)
    ensures Lower(Lower(s)) == Lower(s)
  {
  }

  /** `sub` occurs in `s` starting at index `i`. */
  predicate OccursAt(s: string, sub: string, i: int) {
    0 <= i && i + |sub| <= |s| && s[i..i + |sub|] == sub
  }

  /** Python's `sub in s`; it also says that `sub` is a contiguous slice of `s`. */
  predicate Contains(s: string, sub: string) {
    exists i | 0 <= i <= |s| - |sub| :: OccursAt(s, sub, i)
  }

  function FindFrom(s: string, sub: string, k: nat): (r: int)
    requires k <= |s|
    ensures r == -1 || (k <= r && OccursAt(s, sub, r))
    ensures r == -1 ==> forall j :: k <= j ==> !OccursAt(s, sub, j)
    ensures r != -1 ==> forall j :: k <= j < r ==> !OccursAt(s, sub, j)
    decreases |s| - k
  {
    if k + |sub| > |s| then -1
    else if s[k..k + |sub|] == sub then k
    else FindFrom(s, sub, k + 1)
  }

  /** Python's `s.find(sub)`: the first index where `sub` occurs, or -1. */
  function Find(s: string, sub: string): (r: int)
    ensures r == -1 <==> !Contains(s, sub)
    ensures r != -1 ==> OccursAt(s, sub, r)
    ensures r != -1 ==> forall j :: 0 <= j < r ==> !OccursAt(s, sub, j)
  {
    FindFrom(s, sub, 0)
  }

  lemma FindIsFirst(s: string, sub: string, i: nat)
    requires OccursAt(s, sub, i)
    requires forall j :: 0 <= j < i ==> !OccursAt(s, sub, j)
    ensures Find(s, sub) == i
  {
  }

  lemma ContainsInfix(a: string, b: string, c: string)
    ensures Contains(a + b + c, b)
  {
    assert OccursAt(a + b + c, b, |a|);
  }

  /** A slice of a string that does not contain `sub` does not contain it either. */
  lemma NotContainsSlice(s: string, sub: string, lo: nat, hi: nat)
    requires lo <= hi <= |s|
    requires !Contains(s, sub)
    ensures !Contains(s[lo..hi], sub)
  {
    forall i | 0 <= i <= hi - lo - |sub|
      ensures !OccursAt(s[lo..hi], sub, i)
    {
      var t := s[lo..hi];
      assert !OccursAt(s, sub, lo + i);
      var u, v := t[i..i + |sub|], s[lo + i..lo + i + |sub|];
      assert forall k :: 0 <= k < |sub| ==> u[k] == v[k];
      assert u == v;
    }
  }

  /** A string that avoids a piece of `sub` avoids `sub`. */
  lemma NotContainsWithoutPiece(s: string, sub: string, piece: string, p: nat)
    requires OccursAt(sub, piece, p)
    requires !Contains(s, piece)
    ensures !Contains(s, sub)
  {
    forall i | 0 <= i <= |s| - |sub|
      ensures !OccursAt(s, sub, i)
    {
      assert !OccursAt(s, piece, i + p);
      var w := s[i..i + |sub|];
      var u, v := w[p..p + |piece|], s[i + p..i + p + |piece|];
      assert forall k :: 0 <= k < |piece| ==> u[k] == v[k];
      assert u == v;
    }
  }

  /** A string in which `c` does not occur contains no `sub` that has `c` at position `p`. */
  lemma NotContainsWithoutChar(s: string, sub: string, p: nat, c: char)
    requires p < |sub| && sub[p] == c
    requires c !in s
    ensures !Contains(s, sub)
  {
  }

  predicate StartsWith(s: string, prefix: string) {
    |prefix| <= |s| && s[..|prefix|] == prefix
  }

  predicate EndsWith(s: string, suffix: string) {
    |suffix| <= |s| && s[|s| - |suffix|..] == suffix
  }

  /** The length of the longest prefix of `s` made only of characters `drop` accepts. */
  function CountLeading(s: string, drop: char -> bool): (k: nat)
    ensures k <= |s|
    ensures forall i :: 0 <= i < k ==> drop(s[i])
    ensures k < |s| ==> !drop(s[k])
  {
    if s == [] || !drop(s[0]) then 0 else 1 + CountLeading(s[1..], drop)
  }

  /** The length of the longest suffix of `s` made only of characters `drop` accepts. */
  function CountTrailing(s: string, drop: char -> bool): (k: nat)
    ensures k <= |s|
    ensures forall i :: |s| - k <= i < |s| ==> drop(s[i])
    ensures k < |s| ==> !drop(s[|s| - k - 1])
  {
    if s == [] || !drop(s[|s| - 1]) then 0 else 1 + CountTrailing(s[..|s| - 1], drop)
  }

  /** The two counting contracts pin the count down: any index with the same shape is it. */
  lemma CountLeadingUnique(s: string, drop: char -> bool, k: nat)
    requires k <= |s|
    requires forall i :: 0 <= i < k ==> drop(s[i])
    requires k < |s| ==> !drop(s[k])
    ensures CountLeading(s, drop) == k
  {
  }

  lemma CountTrailingUnique(s: string, drop: char -> bool, k: nat)
    requires k <= |s|
    requires forall i :: |s| - k <= i < |s| ==> drop(s[i])
    requires k < |s| ==> !drop(s[|s| - k - 1])
    ensures CountTrailing(s, drop) == k
  {
  }

  /** The regex substitution `re.sub('^[...]+', '', s)` for a character class `drop`. */
  function TrimStart(s: string, drop: char -> bool): string {
    s[CountLeading(s, drop)..]
  }

  function TrimEnd(s: string, drop: char -> bool): string {
    s[..|s| - CountTrailing(s, drop)]
  }

  /** Neither end of `s` is whitespace: what `str.strip()` leaves. */
  predicate Stripped(s: string) {
    s == [] || (!IsSpace(s[0]) && !IsSpace(s[|s| - 1]))
  }

  /** Python's `str.strip()` with no argument. */
  function Strip(s: string): (r: string)
    ensures Stripped(r)
    ensures Stripped(s) ==> r == s
  {
    var a := CountLeading(s, IsSpace);
    var t := s[a..];
    var b := CountTrailing(t, IsSpace);
    assert Stripped(s) && s != [] ==> a == 0 && b == 0;
    t[..|t| - b]
  }

  /** What `strip` returns is a slice of its input. */
  lemma StripIsSlice(s: string)
    ensures Contains(s, Strip(s))
  {
    var a := CountLeading(s, IsSpace);
    var t := s[a..];
    var b := CountTrailing(t, IsSpace);
    assert t[..|t| - b] == s[a..|s| - b];
    assert OccursAt(s, t[..|t| - b], a);
  }

  /** `strip` returns the empty string exactly on all-whitespace input. */
  lemma StripEmptyIff(s: string)
    ensures Strip(s) == [] <==> forall i :: 0 <= i < |s| ==> IsSpace(s[i])
  {
  }

  /** Python's `str.split(sep)` for a one-character separator. */
  function Split(s: string, sep: char): (parts: seq<string>)
    ensures |parts| >= 1
    ensures forall k :: 0 <= k < |parts| ==> sep !in parts[k]
    ensures Join(parts, sep) == s
    decreases |s|
  {
    var i := Find(s, [sep]);
    if i == -1 then
      assert forall j :: 0 <= j < |s| ==> !OccursAt(s, [sep], j);
      assert forall j :: 0 <= j < |s| ==> s[j] != sep by {
        forall j | 0 <= j < |s| ensures s[j] != sep {
          assert !OccursAt(s, [sep], j);
          assert s[j..j + 1] == [s[j]];
        }
      }
      [s]
    else
      assert s[i..i + 1] == [sep];
      assert forall j :: 0 <= j < i ==> s[j] != sep by {
        forall j | 0 <= j < i ensures s[j] != sep {
          assert !OccursAt(s, [sep], j);
          assert s[j..j + 1] == [s[j]];
        }
      }
      var rest := Split(s[i + 1..], sep);
      assert s == s[..i] + [sep] + s[i + 1..];
      [s[..i]] + rest
  }

  /** `sep.join(parts)`: the inverse of `Split`. */
  function Join(parts: seq<string>, sep: char): string {
    if |parts| == 0 then ""
    else if |parts| == 1 then parts[0]
    else parts[0] + [sep] + Join(parts[1..], sep)
  }

  /** Splitting undoes joining: a non-empty list of separator-free parts comes back unchanged. */
  lemma {:induction false} SplitJoin(parts: seq<string>, sep: char)
    requires |parts| >= 1
    requires forall k :: 0 <= k < |parts| ==> sep !in parts[k]
    ensures Split(Join(parts, sep), sep) == parts
    decreases |parts|
  {
    var s := Join(parts, sep);
    var p0 := parts[0];
    if |parts| == 1 {
      assert s == p0;
      NotContainsWithoutChar(p0, [sep], 0, sep);
    } else {
      var rest := Join(parts[1..], sep);
      assert s == p0 + [sep] + rest;
      assert OccursAt(s, [sep], |p0|);
      forall j | 0 <= j < |p0|
        ensures !OccursAt(s, [sep], j)
      {
        assert s[j] == p0[j];
      }
      FindIsFirst(s, [sep], |p0|);
      assert s[|p0| + 1..] == rest;
      assert s[..|p0|] == p0;
      SplitJoin(parts[1..], sep);
      assert parts == [p0] + parts[1..];
    }
  }

  /** `strip` removes whitespace before a string that is already stripped, and nothing else. */
  lemma StripAfterSpaces(ws: string, s: string)
    requires forall i :: 0 <= i < |ws| ==> IsSpace(ws[i])
    requires s != [] && Stripped(s)
    ensures Strip(ws + s) == s
  {
    var t := ws + s;
    CountLeadingUnique(t, IsSpace, |ws|);
    assert t[|ws|..] == s;
    CountTrailingUnique(s, IsSpace, 0);
  }

  /** Stripping a string that starts with a non-space keeps that first character. */
  lemma StripKeepsFirst(s: string)
    requires s != [] && !IsSpace(s[0])
    ensures Strip(s) != [] && Strip(s)[0] == s[0]
  {
    CountLeadingUnique(s, IsSpace, 0);
  }

  /** Being contained is transitive, so a slice of a string avoiding `sub` avoids it too. */
  lemma NotContainsInPart(s: string, part: string, sub: string)
    requires Contains(s, part)
    requires !Contains(s, sub)
    ensures !Contains(part, sub)
  {
    var a :| 0 <= a <= |s| - |part| && OccursAt(s, part, a);
    NotContainsSlice(s, sub, a, a + |part|);
  }

  /** A prefix holds no `sub` if no occurrence of `sub` in the whole string fits inside it. */
  lemma NotContainsBeforeFirst(s: string, sub: string, i: nat)
    requires i <= |s|
    requires forall j :: 0 <= j <= i - |sub| ==> !OccursAt(s, sub, j)
    ensures !Contains(s[..i], sub)
  {
    forall j | 0 <= j <= i - |sub|
      ensures !OccursAt(s[..i], sub, j)
    {
      assert !OccursAt(s, sub, j);
      var u, v := s[..i][j..j + |sub|], s[j..j + |sub|];
      assert forall k :: 0 <= k < |sub| ==> u[k] == v[k];
      assert u == v;
    }
  }

  /** `strip` cuts `s` at the first and after the last non-whitespace character: any pair of
      indices that frame the non-whitespace part is where it cuts. */
  lemma StripCharacterized(s: string, p: nat, q: nat)
    requires p <= q <= |s|
    requires forall i :: 0 <= i < p ==> IsSpace(s[i])
    requires forall i :: q <= i < |s| ==> IsSpace(s[i])
    requires p < q ==> !IsSpace(s[p]) && !IsSpace(s[q - 1])
    ensures Strip(s) == s[p..q]
  {
    if p < q {
      CountLeadingUnique(s, IsSpace, p);
      var t := s[p..];
      CountTrailingUnique(t, IsSpace, |s| - q);
      assert t[..q - p] == s[p..q];
    } else {
      StripEmptyIff(s);
    }
  }
}
