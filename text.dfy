/**
 * The JavaScript string operations the matching code relies on:
 * lower-casing, `includes`, `startsWith`, first-occurrence and global
 * character replacement, `split` on a character, `split` on a regular
 * expression of the form `[class]+`, and `trim`.
 */
module Text {

  /** ASCII lower-casing of one character; every other character is left as it is. */
  function LowerChar(c: char): char {
    if 'A' <= c <= 'Z' then (c as int + 32) as char else c
  }

  /** `s.toLowerCase()`, restricted to ASCII letters. */
  function ToLower(s: string): string {
    seq(|s|, i requires 0 <= i < |s| => LowerChar(s[i]))
  }

  /** The characters JavaScript's `\s` and `trim` treat as white space. */
  predicate IsSpace(c: char) {
    var n := c as int;
    n == 0x09 || n == 0x0A || n == 0x0B || n == 0x0C || n == 0x0D || n == 0x20
    || n == 0xA0 || n == 0x1680 || (0x2000 <= n <= 0x200A) || n == 0x2028 || n == 0x2029
    || n == 0x202F || n == 0x205F || n == 0x3000 || n == 0xFEFF
  }

  /** `\d` of a JavaScript regular expression: an ASCII digit. */
  predicate IsDigit(c: char) {
    '0' <= c <= '9'
  }

  /** `hay.includes(needle)`. */
  predicate Contains(hay: string, needle: string) {
    exists i :: 0 <= i <= |hay| - |needle| && OccursAt(hay, needle, i)
  }

  /** `needle` occurs in `hay` starting at position `i`. */
  predicate OccursAt(hay: string, needle: string, i: int)
    requires 0 <= i <= |hay| - |needle|
  {
    hay[i..i + |needle|] == needle
  }

  /** `s.startsWith(prefix)`. */
  predicate StartsWith(s: string, prefix: string) {
    |prefix| <= |s| && s[..|prefix|] == prefix
  }

  /** `s.indexOf(c)`: the first position of `c` in `s`, or -1. */
  function IndexOf(s: string, c: char): (k: int)
    ensures -1 <= k < |s|
    ensures k == -1 <==> c !in s
    ensures k >= 0 ==> s[k] == c && c !in s[..k]
  {
    if s == [] then -1
    else if s[0] == c then 0
    else
      var k := IndexOf(s[1..], c);
      if k < 0 then -1
      else
        assert s[..k + 1] == [s[0]] + s[1..][..k];
        k + 1
  }

  /** `s.replace(from, to)` with a one-character string pattern: only the FIRST occurrence is replaced. */
  function ReplaceFirst(s: string, from: char, to: char): string {
    var k := IndexOf(s, from);
    if k < 0 then s else s[..k] + [to] + s[k + 1..]
  }

  /** `s.replace(/from/g, to)`: every occurrence is replaced. */
  function ReplaceAll(s: string, from: char, to: char): string {
    seq(|s|, i requires 0 <= i < |s| => if s[i] == from then to else s[i])
  }

  /** `s.split(sep)` with a one-character separator: never empty, and pieces may be empty. */
  function Split(s: string, sep: char): (parts: seq<string>)
    ensures |parts| >= 1
    ensures forall i :: 0 <= i < |parts| ==> sep !in parts[i]
    ensures |parts| == 1 <==> sep !in s
    ensures parts[0] == if sep in s then s[..IndexOf(s, sep)] else s
    decreases |s|
  {
    var k := IndexOf(s, sep);
    if k < 0 then [s] else [s[..k]] + Split(s[k + 1..], sep)
  }

  /** `parts.join(sep)`. */
  function Join(parts: seq<string>, sep: char): string
    requires |parts| >= 1
  {
    if |parts| == 1 then parts[0] else parts[0] + [sep] + Join(parts[1..], sep)
  }

  /** One step of `Split`: the piece before the first separator, then the split of the rest. */
  lemma SplitStep(s: string, sep: char)
    requires sep in s
    ensures var k := IndexOf(s, sep);
      Split(s, sep) == [s[..k]] + Split(s[k + 1..], sep)
  {
    assert IndexOf(s, sep) != -1;
  }

  /** Joining the piece before a separator with pieces that join to the rest gives the whole string. */
  lemma JoinStep(s: string, sep: char, k: nat, rest: seq<string>)
    requires k < |s| && s[k] == sep
    requires |rest| >= 1 && Join(rest, sep) == s[k + 1..]
    ensures Join([s[..k]] + rest, sep) == s
  {
    assert ([s[..k]] + rest)[1..] == rest;
    assert s == s[..k] + [sep] + s[k + 1..];
  }

  /** Splitting and joining again gives back the original string. */
  lemma {:induction false} SplitJoin(s: string, sep: char)
    ensures Join(Split(s, sep), sep) == s
    decreases |s|
  {
    if sep in s {
      var k := IndexOf(s, sep);
      SplitStep(s, sep);
      SplitJoin(s[k + 1..], sep);
      JoinStep(s, sep, k, Split(s[k + 1..], sep));
    }
  }

  /** The length of the longest prefix of `s` made of characters in the class. */
  function RunLength(s: string, inClass: char -> bool): (n: nat)
    ensures n <= |s|
    ensures forall i :: 0 <= i < n ==> inClass(s[i])
    ensures n < |s| ==> !inClass(s[n])
  {
    if s == [] || !inClass(s[0]) then 0 else 1 + RunLength(s[1..], inClass)
  }

  /** The position of the first character of `s` in the class, or |s|. */
  function FirstIn(s: string, inClass: char -> bool): (k: nat)
    ensures k <= |s|
    ensures forall i :: 0 <= i < k ==> !inClass(s[i])
    ensures k < |s| ==> inClass(s[k])
  {
    if s == [] || inClass(s[0]) then 0 else 1 + FirstIn(s[1..], inClass)
  }

  /**
   * `s.split(/[class]+/)`: the pieces between maximal runs of separator
   * characters; the first and last piece are empty when `s` starts or ends
   * with a separator, and the empty string gives one empty piece.
   */
  function SplitRuns(s: string, isSep: char -> bool): (parts: seq<string>)
    ensures |parts| >= 1
    ensures forall i, j :: 0 <= i < |parts| && 0 <= j < |parts[i]| ==> !isSep(parts[i][j])
    decreases |s|
  {
    var k := FirstIn(s, isSep);
    if k == |s| then [s]
    else
      var m := k + RunLength(s[k..], isSep);
      [s[..k]] + SplitRuns(s[m..], isSep)
  }

  /** The separators of `model.split(/[\s\-_]+/)`. */
  predicate IsModelSeparator(c: char) {
    IsSpace(c) || c == '-' || c == '_'
  }

  /** The maximal run of ASCII digits at the start of `s` (the group of `/^(\d+)/`). */
  function LeadingDigits(s: string): (d: string)
    ensures StartsWith(s, d)
    ensures forall i :: 0 <= i < |d| ==> IsDigit(d[i])
    ensures |d| < |s| ==> !IsDigit(s[|d|])
  {
    s[..RunLength(s, IsDigit)]
  }

  /** `s.trim()`: white space removed from both ends. */
  function Trim(s: string): (r: string)
    ensures r == [] || (!IsSpace(r[0]) && !IsSpace(r[|r| - 1]))
    ensures exists a, b ::
      && 0 <= a <= b <= |s| && r == s[a..b]
      && (forall i :: 0 <= i < a ==> IsSpace(s[i]))
      && (forall i :: b <= i < |s| ==> IsSpace(s[i]))
  {
    var a := RunLength(s, IsSpace);
    var b := |s| - TrailingSpaces(s);
    if a >= b then s[a..a] else s[a..b]
  }

  /** The number of white-space characters at the end of `s`. */
  function TrailingSpaces(s: string): (n: nat)
    ensures n <= |s|
    ensures forall i :: |s| - n <= i < |s| ==> IsSpace(s[i])
    ensures n < |s| ==> !IsSpace(s[|s| - n - 1])
  {
    if s == [] || !IsSpace(s[|s| - 1]) then 0 else 1 + TrailingSpaces(s[..|s| - 1])
  }

  /** `ReplaceFirst` changes at most one character: the first occurrence, when there is one. */
  lemma ReplaceFirstChangesFirstOccurrence(s: string, from: char, to: char)
    ensures |ReplaceFirst(s, from, to)| == |s|
    ensures from !in s ==> ReplaceFirst(s, from, to) == s
    ensures from in s ==> var k := IndexOf(s, from);
      ReplaceFirst(s, from, to)[k] == to
      && forall i :: 0 <= i < |s| && i != k ==> ReplaceFirst(s, from, to)[i] == s[i]
  {
  }

  /** A character first occurs right after a prefix that does not contain it. */
  lemma IndexOfAfterPrefix(a: string, c: char, rest: string)
    requires c !in a
    ensures IndexOf(a + [c] + rest, c) == |a|
  {
    var s := a + [c] + rest;
    assert s[..|a|] == a;
    assert s[|a|] == c;
  }

  /** A string without white space is its own `trim()`. */
  lemma TrimWithoutSpace(s: string)
    requires forall i :: 0 <= i < |s| ==> !IsSpace(s[i])
    ensures Trim(s) == s
  {
    if s != [] {
      assert RunLength(s, IsSpace) == 0;
      assert TrailingSpaces(s) == 0;
    }
  }
}
