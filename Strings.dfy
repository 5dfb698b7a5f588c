/** Text helpers shared by the manifest analyser: Python's notion of
    whitespace, substring tests, `str.strip`, `str.split("\n")` and
    `str.join`. */
module Strings {

  /** The characters Python treats as whitespace, both for `str.isspace`
      (and hence `str.strip()`) and for the regular-expression class `\s`. */
  predicate IsSpace(c: char) {
    c == ' ' || ('\t' <= c <= '\r') || ('\U{1C}' <= c <= '\U{1F}') ||
    c == '\U{85}' || c == '\U{A0}' || c == '\U{1680}' ||
    ('\U{2000}' <= c <= '\U{200A}') || c == '\U{2028}' || c == '\U{2029}' ||
    c == '\U{202F}' || c == '\U{205F}' || c == '\U{3000}'
  }

  /** `p` occurs in `s` starting at index `i`. */
  predicate StartsAt(s: string, i: int, p: string) {
    0 <= i && i + |p| <= |s| && s[i..i + |p|] == p
  }

  /** Python's `p in s` on two strings. */
  predicate Contains(s: string, p: string) {
    ContainsFrom(s, p, 0)
  }

  /** `p` occurs in `s` at index `i` or later. */
  predicate ContainsFrom(s: string, p: string, i: nat)
    decreases |s| - i
  {
    i + |p| <= |s| && (StartsAt(s, i, p) || (i < |s| && ContainsFrom(s, p, i + 1)))
  }

  /** An occurrence at `i` means `s` contains `p`. */
  lemma ContainsAt(s: string, p: string, i: int)
    ensures StartsAt(s, i, p) ==> Contains(s, p)
  {
    if StartsAt(s, i, p) {
      ContainsFromAt(s, p, 0, i);
    }
  }

  lemma {:induction false} ContainsFromAt(s: string, p: string, from: nat, i: int)
    requires from <= i && StartsAt(s, i, p)
    ensures ContainsFrom(s, p, from)
    decreases i - from
  {
    if from < i {
      ContainsFromAt(s, p, from + 1, i);
    }
  }

  /** Without an occurrence at any index, `s` does not contain `p`. */
  lemma NotContainsAll(s: string, p: string)
    requires forall i :: 0 <= i <= |s| - |p| ==> !StartsAt(s, i, p)
    ensures !Contains(s, p)
  {
    NotContainsFrom(s, p, 0);
  }

  lemma {:induction false} NotContainsFrom(s: string, p: string, from: nat)
    requires forall i :: from <= i <= |s| - |p| ==> !StartsAt(s, i, p)
    ensures !ContainsFrom(s, p, from)
    decreases |s| - from
  {
    if from < |s| {
      NotContainsFrom(s, p, from + 1);
    }
  }

  /** A string shorter than the pattern cannot contain it. */
  lemma NotContainsShort(s: string, p: string)
    requires |s| < |p|
    ensures !Contains(s, p)
  {
    NotContainsAll(s, p);
  }

  /** Python's `s.strip()`: `s` without its leading and trailing whitespace. */
  function Strip(s: string): string
    decreases |s|
  {
    if |s| > 0 && IsSpace(s[0]) then Strip(s[1..])
    else if |s| > 0 && IsSpace(s[|s| - 1]) then Strip(s[..|s| - 1])
    else s
  }

  /** `r` is `s[i..j]`, and everything of `s` outside that slice is whitespace. */
  ghost predicate TrimmedAt(s: string, r: string, i: int, j: int) {
    && 0 <= i <= j <= |s| && r == s[i..j]
    && (forall k :: 0 <= k < i ==> IsSpace(s[k]))
    && (forall k :: j <= k < |s| ==> IsSpace(s[k]))
  }

  /** What stripping leaves: a middle slice of `s`, with only whitespace cut
      off on either side, that neither starts nor ends with whitespace. */
  lemma {:induction false} StripTrims(s: string)
    ensures exists i, j :: TrimmedAt(s, Strip(s), i, j)
    ensures Strip(s) == [] || (!IsSpace(Strip(s)[0]) && !IsSpace(Strip(s)[|Strip(s)| - 1]))
    decreases |s|
  {
    if |s| > 0 && IsSpace(s[0]) {
      StripTrims(s[1..]);
      var i, j :| TrimmedAt(s[1..], Strip(s[1..]), i, j);
      TrimmedDropFirst(s, Strip(s), i, j);
    } else if |s| > 0 && IsSpace(s[|s| - 1]) {
      StripTrims(s[..|s| - 1]);
      var i, j :| TrimmedAt(s[..|s| - 1], Strip(s[..|s| - 1]), i, j);
      TrimmedDropLast(s, Strip(s), i, j);
    } else {
      assert TrimmedAt(s, Strip(s), 0, |s|);
    }
  }

  lemma TrimmedDropFirst(s: string, r: string, i: int, j: int)
    requires |s| > 0 && IsSpace(s[0]) && TrimmedAt(s[1..], r, i, j)
    ensures TrimmedAt(s, r, i + 1, j + 1)
  {
    var t := s[1..];
    assert forall k :: 1 <= k < |s| ==> s[k] == t[k - 1];
  }

  lemma TrimmedDropLast(s: string, r: string, i: int, j: int)
    requires |s| > 0 && IsSpace(s[|s| - 1]) && TrimmedAt(s[..|s| - 1], r, i, j)
    ensures TrimmedAt(s, r, i, j)
  {
    var t := s[..|s| - 1];
    assert forall k :: 0 <= k < |t| ==> s[k] == t[k];
  }

  /** Python's `sep.join(parts)`. */
  function Join(parts: seq<string>, sep: string): string
    decreases |parts|
  {
    if |parts| == 0 then ""
    else if |parts| == 1 then parts[0]
    else parts[0] + sep + Join(parts[1..], sep)
  }

  /** Python's `s.split(sep)` for a one-character separator: the pieces
      between separators, so there is always at least one piece, and
      joining the pieces back with the separator gives `s` again. */
  function Split(s: string, sep: char): (parts: seq<string>)
    ensures |parts| >= 1
    ensures forall k :: 0 <= k < |parts| ==> sep !in parts[k]
    ensures Join(parts, [sep]) == s
    decreases |s|
  {
    if |s| == 0 then [""]
    else
      var rest := Split(s[1..], sep);
      if s[0] == sep then
        assert [s[0]] + Join(rest, [sep]) == s;
        [""] + rest
      else
        var parts := [[s[0]] + rest[0]] + rest[1..];
        JoinConsHead(s[0], rest, [sep]);
        assert [s[0]] + Join(rest, [sep]) == s;
        parts
  }

  /** Splitting undoes joining: pieces free of the separator are exactly
      what `Split` recovers from their join. */
  lemma {:induction false} SplitJoin(parts: seq<string>, sep: char)
    requires |parts| >= 1
    requires forall k :: 0 <= k < |parts| ==> sep !in parts[k]
    ensures Split(Join(parts, [sep]), sep) == parts
    decreases |parts|, |parts[0]|
  {
    var s := Join(parts, [sep]);
    if |parts[0]| == 0 {
      if |parts| > 1 {
        assert s == [sep] + Join(parts[1..], [sep]);
        assert s[1..] == Join(parts[1..], [sep]);
        SplitJoin(parts[1..], sep);
        assert parts == [""] + parts[1..];
      }
    } else {
      var c := parts[0][0];
      var tail := [parts[0][1..]] + parts[1..];
      assert parts[0] == [c] + parts[0][1..];
      assert tail[1..] == parts[1..];
      JoinConsHead(c, tail, [sep]);
      assert [[c] + tail[0]] + tail[1..] == parts;
      assert s == [c] + Join(tail, [sep]);
      assert s[1..] == Join(tail, [sep]);
      SplitJoin(tail, sep);
      assert c != sep by {
        assert c == parts[0][0];
      }
    }
  }

  /** A string without whitespace at either end is its own strip. */
  lemma StripUnpadded(s: string)
    requires |s| > 0 && !IsSpace(s[0]) && !IsSpace(s[|s| - 1])
    ensures Strip(s) == s
  {
  }

  /** Prepending a character to the first piece prepends it to the join. */
  lemma JoinConsHead(c: char, parts: seq<string>, sep: string)
    requires |parts| >= 1
    ensures Join([[c] + parts[0]] + parts[1..], sep) == [c] + Join(parts, sep)
  {
    var ps := [[c] + parts[0]] + parts[1..];
    assert ps[1..] == parts[1..];
  }

  /** The decimal digits of `n`, as Python's `str(n)` prints a non-negative int. */
  function NatToString(n: nat): (r: string)
    ensures |r| >= 1
    ensures forall k :: 0 <= k < |r| ==> '0' <= r[k] <= '9'
    decreases n
  {
    var d := [('0' as int + n % 10) as char];
    if n < 10 then d else NatToString(n / 10) + d
  }

  /** The number a string of decimal digits denotes, most significant digit first. */
  function DecimalValue(s: string): nat
    requires forall k :: 0 <= k < |s| ==> '0' <= s[k] <= '9'
    decreases |s|
  {
    if s == [] then 0
    else 10 * DecimalValue(s[..|s| - 1]) + (s[|s| - 1] as int - '0' as int)
  }

  /** The digits of `n` read back as `n`, with no leading zero unless `n`
      is itself zero. */
  lemma {:induction false} NatToStringValue(n: nat)
    ensures DecimalValue(NatToString(n)) == n
    ensures n > 0 ==> NatToString(n)[0] != '0'
    decreases n
  {
    var r := NatToString(n);
    if n >= 10 {
      NatToStringValue(n / 10);
      assert r[..|r| - 1] == NatToString(n / 10);
    }
  }
}
