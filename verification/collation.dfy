/**
  String equality as the database's `=` decides it. The queries that
  compare strings run in SQL Server under its default collation,
  SQL_Latin1_General_CP1_CI_AS: letters compare without regard to case,
  and trailing spaces are ignored, because the shorter operand is padded
  with spaces. Case pairs are taken from the Latin-1 range.
 */
module Collation {

  /** The lower-case partner of an upper-case Latin-1 letter (A..Z and U+00C0..U+00DE except U+00D7); any other character is its own. */
  function FoldCase(c: char): (f: char)
    ensures f == ' ' <==> c == ' '
  {
    var n := c as int;
    if 0x41 <= n <= 0x5A || (0xC0 <= n <= 0xDE && n != 0xD7) then (n + 32) as char else c
  }

  /** `s` without its trailing spaces. */
  function TrimTrailingSpaces(s: string): (t: string)
    ensures t <= s
    ensures t == [] || t[|t| - 1] != ' '
    ensures forall i :: |t| <= i < |s| ==> s[i] == ' '
  {
    if s != [] && s[|s| - 1] == ' ' then TrimTrailingSpaces(s[..|s| - 1]) else s
  }

  /** `s` with every letter case-folded. */
  function Fold(s: string): (t: string)
    ensures |t| == |s|
    ensures forall i :: 0 <= i < |s| ==> t[i] == FoldCase(s[i])
  {
    seq(|s|, i requires 0 <= i < |s| => FoldCase(s[i]))
  }

  /** What the collation compares: the string without trailing spaces, case-folded. */
  function Key(s: string): string {
    Fold(TrimTrailingSpaces(s))
  }

  /** The database's `=` on two strings. */
  predicate SqlEquals(a: string, b: string) {
    Key(a) == Key(b)
  }

  /** A string compares equal to itself followed by any run of spaces. */
  lemma {:induction false} TrailingSpacesIgnored(s: string, pad: string)
    requires forall i :: 0 <= i < |pad| ==> pad[i] == ' '
    ensures TrimTrailingSpaces(s + pad) == TrimTrailingSpaces(s)
    ensures SqlEquals(s, s + pad)
    decreases |pad|
  {
    if pad == [] {
      assert s + pad == s;
    } else {
      var shorter := pad[..|pad| - 1];
      assert (s + pad)[|s + pad| - 1] == ' ';
      assert (s + pad)[..|s + pad| - 1] == s + shorter;
      TrailingSpacesIgnored(s, shorter);
    }
  }

  /** Strings whose characters agree up to letter case have the same trimmed length. */
  lemma {:induction false} CaseVariantsTrimAlike(a: string, b: string)
    requires |a| == |b|
    requires forall i :: 0 <= i < |a| ==> FoldCase(a[i]) == FoldCase(b[i])
    ensures |TrimTrailingSpaces(a)| == |TrimTrailingSpaces(b)|
    decreases |a|
  {
    if a != [] {
      var n := |a| - 1;
      assert FoldCase(a[n]) == FoldCase(b[n]);
      if a[n] == ' ' {
        CaseVariantsTrimAlike(a[..n], b[..n]);
      }
    }
  }

  /** Strings that differ only in the case of their letters compare equal. */
  lemma CaseIgnored(a: string, b: string)
    requires |a| == |b|
    requires forall i :: 0 <= i < |a| ==> FoldCase(a[i]) == FoldCase(b[i])
    ensures SqlEquals(a, b)
  {
    CaseVariantsTrimAlike(a, b);
    var (ta, tb) := (TrimTrailingSpaces(a), TrimTrailingSpaces(b));
    assert forall i :: 0 <= i < |ta| ==> ta[i] == a[i] && tb[i] == b[i];
  }
}
