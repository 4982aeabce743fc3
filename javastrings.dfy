/**
 * The java.lang.String operations the watermarker relies on: `toLowerCase`,
 * `endsWith`, `indexOf`, `split(" ")` and `replace` of one character by another.
 */
module JavaStrings {

  /** Lower-cases an ASCII capital letter; every other character is unchanged. */
  function LowerChar(c: char): (r: char)
    ensures 'A' <= c <= 'Z' ==> r as int == c as int + 32
    ensures !('A' <= c <= 'Z') ==> r == c
  {
    if 'A' <= c <= 'Z' then (c as int + 32) as char else c
  }

  /** `s.toLowerCase()`, character by character. */
  function ToLower(s: string): (r: string)
    ensures |r| == |s|
  {
    if s == [] then [] else [LowerChar(s[0])] + ToLower(s[1..])
  }

  lemma {:induction false} ToLowerAt(s: string, i: nat)
    requires i < |s|
    ensures ToLower(s)[i] == LowerChar(s[i])
  {
    if i > 0 {
      ToLowerAt(s[1..], i - 1);
    }
  }

  /** Lower-casing twice is lower-casing once. */
  lemma {:induction false} ToLowerIdempotent(s: string)
    ensures ToLower(ToLower(s)) == ToLower(s)
  {
    if s != [] {
      ToLowerIdempotent(s[1..]);
    }
  }

  /** Lower-casing is determined character by character. */
  lemma ToLowerIs(s: string, t: string)
    requires |s| == |t| && forall k :: 0 <= k < |s| ==> LowerChar(s[k]) == t[k]
    ensures ToLower(s) == t
  {
    forall k | 0 <= k < |s| ensures ToLower(s)[k] == t[k] {
      ToLowerAt(s, k);
    }
  }

  /** `s.endsWith(suffix)`. */
  predicate EndsWith(s: string, suffix: string) {
    |suffix| <= |s| && s[|s| - |suffix|..] == suffix
  }

  /** `s.indexOf(c)`, except that "not found" is |s| rather than -1. */
  function IndexOf(s: string, c: char): (i: nat)
    ensures i <= |s|
    ensures i < |s| ==> s[i] == c
    ensures forall k :: 0 <= k < i ==> s[k] != c
  {
    if s == [] || s[0] == c then 0 else 1 + IndexOf(s[1..], c)
  }

  /** The pieces of `s` between the occurrences of `sep`, empty pieces included. */
  function Fields(s: string, sep: char): (r: seq<string>)
    ensures |r| >= 1 && r[0] == s[..IndexOf(s, sep)]
    decreases |s|
  {
    var i := IndexOf(s, sep);
    if i == |s| then [s] else [s[..i]] + Fields(s[i + 1..], sep)
  }

  /** Drops the empty strings at the end of `fs`. */
  function DropTrailingEmpty(fs: seq<string>): (r: seq<string>)
    ensures |r| <= |fs| && r == fs[..|r|]
    ensures forall k :: |r| <= k < |fs| ==> fs[k] == []
    ensures r != [] ==> r[|r| - 1] != []
    ensures r == [] <==> AllEmpty(fs)
  {
    if fs == [] then []
    else if fs[|fs| - 1] == [] then DropTrailingEmpty(fs[..|fs| - 1])
    else fs
  }

  /**
   * `s.split(String.valueOf(sep))` for a separator that is not a regular-expression
   * metacharacter: a string without the separator comes back whole (even the empty
   * string); otherwise the fields, with trailing empty ones removed.
   */
  function Split(s: string, sep: char): seq<string> {
    if IndexOf(s, sep) == |s| then [s] else DropTrailingEmpty(Fields(s, sep))
  }

  predicate AllChars(s: string, c: char) {
    forall k :: 0 <= k < |s| ==> s[k] == c
  }

  predicate AllEmpty(fs: seq<string>) {
    forall k :: 0 <= k < |fs| ==> fs[k] == []
  }

  lemma {:induction false} FieldsAllEmpty(s: string, sep: char)
    ensures AllEmpty(Fields(s, sep)) <==> AllChars(s, sep)
    decreases |s|
  {
    var i := IndexOf(s, sep);
    if i < |s| {
      var rest := s[i + 1..];
      FieldsAllEmpty(rest, sep);
      var fs := Fields(s, sep);
      assert fs == [s[..i]] + Fields(rest, sep);
      if AllChars(s, sep) {
        assert i == 0;
        assert AllChars(rest, sep);
      }
      if AllEmpty(fs) {
        assert i == 0 by { assert |fs[0]| == i; }
        assert AllEmpty(Fields(rest, sep)) by {
          assert Fields(rest, sep) == fs[1..];
        }
        forall k | 0 <= k < |s|
          ensures s[k] == sep
        {
          if k > 0 {
            assert s[k] == rest[k - 1];
          }
        }
      }
    } else if s != [] {
      assert s[0] != sep;
      assert Fields(s, sep)[0] == s;
    }
  }

  /**
   * `split` gives no pieces exactly when `s` is non-empty and made only of separators;
   * otherwise its first piece is everything before the first separator.
   */
  lemma SplitHead(s: string, sep: char)
    ensures Split(s, sep) == [] <==> |s| > 0 && AllChars(s, sep)
    ensures Split(s, sep) != [] ==> Split(s, sep)[0] == s[..IndexOf(s, sep)]
  {
    FieldsAllEmpty(s, sep);
    if |s| > 0 && AllChars(s, sep) {
      assert s[0] == sep;
    }
  }

  /** `s.replace(from, to)` for one-character strings: every `from` becomes `to`. */
  function Replace(s: string, from: char, to: char): (r: string)
    ensures |r| == |s|
    ensures forall k :: 0 <= k < |s| && s[k] != from ==> r[k] == s[k]
    ensures forall k :: 0 <= k < |s| && s[k] == from ==> r[k] == to
  {
    seq(|s|, k requires 0 <= k < |s| => if s[k] == from then to else s[k])
  }

  /** Replacing a character that does not occur changes nothing. */
  lemma ReplaceAbsent(s: string, from: char, to: char)
    requires forall k :: 0 <= k < |s| ==> s[k] != from
    ensures Replace(s, from, to) == s
  {
  }
}
