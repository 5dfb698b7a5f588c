/** Tolerant extraction of an `apiVersion`/`kind` pair from a fragment of
    templated YAML that a YAML parser would reject. Each value is found the
    way the search for `<key>:\s*([^\s\n{]+)` finds it: at the leftmost
    occurrence of the key after which, once whitespace is skipped, a
    character other than `{` follows; the value is the longest run of
    characters that are neither whitespace nor `{`. */
module TemplatedYaml {
  import opened Strings
  import opened Wrappers

  const ApiVersionKey := "apiVersion:"
  const KindKey := "kind:"

  /** The pair recovered from one fragment (the two-key dict of the source). */
  datatype Fragment = Fragment(apiVersion: string, kind: string)

  /** A character the value group `[^\s\n{]` accepts. */
  predicate ValueChar(c: char) {
    !IsSpace(c) && c != '{'
  }

  /** A value as the search can capture it: non-empty, no whitespace, no `{`. */
  predicate IsValue(v: string) {
    |v| > 0 && forall k :: 0 <= k < |v| ==> ValueChar(v[k])
  }

  /** Index of the first non-whitespace character at or after `i` (`\s*`). */
  function SkipSpace(s: string, i: nat): (j: nat)
    requires i <= |s|
    ensures i <= j <= |s|
    ensures forall k :: i <= k < j ==> IsSpace(s[k])
    ensures j < |s| ==> !IsSpace(s[j])
    decreases |s| - i
  {
    if i < |s| && IsSpace(s[i]) then SkipSpace(s, i + 1) else i
  }

  /** End of the longest run of value characters starting at `j`. */
  function RunEnd(s: string, j: nat): (e: nat)
    requires j <= |s|
    ensures j <= e <= |s|
    ensures forall k :: j <= k < e ==> ValueChar(s[k])
    ensures e < |s| ==> !ValueChar(s[e])
    decreases |s| - j
  {
    if j < |s| && ValueChar(s[j]) then RunEnd(s, j + 1) else j
  }

  /** The search succeeds at index `i`: the key starts there and, after
      the whitespace that follows it, a value character comes next. */
  predicate KeyMatchAt(s: string, key: string, i: int) {
    StartsAt(s, i, key) &&
    var j := SkipSpace(s, i + |key|);
    j < |s| && s[j] != '{'
  }

  /** The group the search captures at a match. */
  function Capture(s: string, key: string, i: int): (v: string)
    requires KeyMatchAt(s, key, i)
    ensures IsValue(v)
  {
    var j := SkipSpace(s, i + |key|);
    s[j..RunEnd(s, j)]
  }

  /** The leftmost match at or after `from`. */
  function FindKey(s: string, key: string, from: nat): (r: Option<nat>)
    requires from <= |s|
    ensures r.Some? ==> from <= r.value && KeyMatchAt(s, key, r.value)
    decreases |s| - from
  {
    if KeyMatchAt(s, key, from) then Some(from)
    else if from == |s| then None
    else FindKey(s, key, from + 1)
  }

  /** The match found is the leftmost one, and none is found exactly when
      the key matches nowhere at or after `from`. */
  lemma {:induction false} FindKeyLeftmost(s: string, key: string, from: nat)
    requires from <= |s|
    ensures FindKey(s, key, from).Some? ==>
      forall i :: from <= i < FindKey(s, key, from).value ==> !KeyMatchAt(s, key, i)
    ensures FindKey(s, key, from).None? ==> forall i :: from <= i ==> !KeyMatchAt(s, key, i)
    decreases |s| - from
  {
    if KeyMatchAt(s, key, from) {
    } else if from == |s| {
      forall i | from <= i
        ensures !KeyMatchAt(s, key, i)
      {
        NoMatchAtEnd(s, key, i);
      }
    } else {
      FindKeyLeftmost(s, key, from + 1);
    }
  }

  /** Nothing matches at or after the end of the text. */
  lemma NoMatchAtEnd(s: string, key: string, i: int)
    requires |s| <= i
    ensures !KeyMatchAt(s, key, i)
  {
    if StartsAt(s, i, key) {
      assert SkipSpace(s, i + |key|) == |s|;
    }
  }

  /** The captured value of the search for `key`, if the search succeeds. */
  function SearchValue(s: string, key: string): (r: Option<string>)
    ensures r.None? <==> forall i :: !KeyMatchAt(s, key, i)
    ensures r.Some? ==> IsValue(r.value)
    ensures r.Some? ==> exists i :: KeyMatchAt(s, key, i) && r.value == Capture(s, key, i) &&
                                    forall i' :: 0 <= i' < i ==> !KeyMatchAt(s, key, i')
  {
    FindKeyLeftmost(s, key, 0);
    match FindKey(s, key, 0)
    case Some(i) => Some(Capture(s, key, i))
    case None => None
  }

  /** Stripping a value that holds no whitespace leaves it unchanged. */
  lemma StripValue(v: string)
    requires IsValue(v)
    ensures Strip(v) == v
  {
    assert ValueChar(v[0]) && ValueChar(v[|v| - 1]);
    StripUnpadded(v);
  }

  /** The dict built from a templated fragment: both keys or nothing (the
      empty dict is `None`). Each value is the captured group, stripped. */
  function ParseTemplatedYaml(content: string): Option<Fragment> {
    var apiMatch := SearchValue(content, ApiVersionKey);
    var kindMatch := SearchValue(content, KindKey);
    if apiMatch.Some? && kindMatch.Some? then
      Some(Fragment(Strip(apiMatch.value), Strip(kindMatch.value)))
    else
      None
  }

  /** A fragment is parsed exactly when both keys match, and then its two
      values are the two searches' results, each a non-empty run of value
      characters. */
  lemma ParseTemplatedYamlFacts(content: string)
    ensures ParseTemplatedYaml(content).Some? <==>
      (exists i :: KeyMatchAt(content, ApiVersionKey, i)) && (exists i :: KeyMatchAt(content, KindKey, i))
    ensures ParseTemplatedYaml(content).Some? ==>
      IsValue(ParseTemplatedYaml(content).value.apiVersion) && IsValue(ParseTemplatedYaml(content).value.kind)
    ensures ParseTemplatedYaml(content).Some? ==>
      Some(ParseTemplatedYaml(content).value.apiVersion) == SearchValue(content, ApiVersionKey) &&
      Some(ParseTemplatedYaml(content).value.kind) == SearchValue(content, KindKey)
  {
    var apiMatch := SearchValue(content, ApiVersionKey);
    var kindMatch := SearchValue(content, KindKey);
    if apiMatch.Some? && kindMatch.Some? {
      StripValue(apiMatch.value);
      StripValue(kindMatch.value);
    }
  }

  /** Writing `key` and a value after a prefix, then searching, gives the
      value back, provided no occurrence of the key starts inside the
      prefix: the search stops at the whitespace or `{` that ends the value. */
  lemma SearchValueRoundTrip(prefix: string, key: string, v: string, rest: string)
    requires |key| > 0 && !Contains(prefix + key[..|key| - 1], key)
    requires IsValue(v)
    requires rest == [] || !ValueChar(rest[0])
    ensures SearchValue(prefix + key + " " + v + rest, key) == Some(v)
  {
    var s := prefix + key + " " + v + rest;
    NoMatchInPrefix(prefix, key, " " + v + rest);
    assert s == prefix + key + (" " + v + rest);
    MatchAfterPrefix(prefix, key, v, rest);
    var r := SearchValue(s, key);
    var i :| KeyMatchAt(s, key, i) && r.value == Capture(s, key, i) &&
             forall i' :: 0 <= i' < i ==> !KeyMatchAt(s, key, i');
    assert i == |prefix|;
  }

  /** An occurrence of the key that starts inside the prefix ends before
      the key's last character, so it is an occurrence in the prefix
      followed by all but the last character of the key. */
  lemma NoMatchInPrefix(prefix: string, key: string, tail: string)
    requires |key| > 0 && !Contains(prefix + key[..|key| - 1], key)
    ensures forall i :: 0 <= i < |prefix| ==> !KeyMatchAt(prefix + key + tail, key, i)
  {
    var s := prefix + key + tail;
    var w := prefix + key[..|key| - 1];
    forall i | 0 <= i < |prefix|
      ensures !StartsAt(s, i, key)
    {
      if StartsAt(s, i, key) {
        assert i + |key| <= |w|;
        assert w[i..i + |key|] == s[i..i + |key|] by {
          forall j | i <= j < i + |key| ensures w[j] == s[j] {
            if j < |prefix| {
              assert w[j] == prefix[j] == s[j];
            } else {
              assert w[j] == key[j - |prefix|] == s[j];
            }
          }
        }
        ContainsAt(w, key, i);
      }
    }
  }

  /** Right after the prefix the search matches and captures the value. */
  lemma MatchAfterPrefix(prefix: string, key: string, v: string, rest: string)
    requires IsValue(v)
    requires rest == [] || !ValueChar(rest[0])
    ensures KeyMatchAt(prefix + key + " " + v + rest, key, |prefix|)
    ensures Capture(prefix + key + " " + v + rest, key, |prefix|) == v
  {
    var s := prefix + key + " " + v + rest;
    var p := |prefix|;
    var j := p + |key| + 1;
    assert s[p..p + |key|] == key;
    assert s[p + |key|] == ' ';
    assert SkipSpace(s, p + |key|) == SkipSpace(s, j);
    assert s[j] == v[0];
    assert SkipSpace(s, j) == j;
    assert s[j..] == v + rest;
    RunEndOfValue(s, j, v, rest);
    assert s[j..j + |v|] == v;
  }

  /** Parsing undoes writing: an `apiVersion:` line followed by a `kind:`
      line, as they appear once a fragment's lines are joined, parse back
      to the pair written, for any API version in which `kind:` does not
      occur. */
  lemma ParseRoundTrip(apiVersion: string, kind: string, rest: string)
    requires IsValue(apiVersion) && IsValue(kind) && !Contains(apiVersion, KindKey)
    requires rest == [] || !ValueChar(rest[0])
    ensures ParseTemplatedYaml("apiVersion: " + apiVersion + " kind: " + kind + rest) ==
            Some(Fragment(apiVersion, kind))
  {
    var content := "apiVersion: " + apiVersion + " kind: " + kind + rest;
    ApiVersionFound(apiVersion, kind, rest);
    KindFound(apiVersion, kind, rest);
    ParseOfSearches(content, apiVersion, kind);
  }

  /** In `apiVersion: A kind: K…` the `apiVersion:` search returns `A`. */
  lemma ApiVersionFound(apiVersion: string, kind: string, rest: string)
    requires IsValue(apiVersion)
    ensures SearchValue("apiVersion: " + apiVersion + " kind: " + kind + rest, ApiVersionKey) == Some(apiVersion)
  {
    var after := " kind: " + kind + rest;
    assert "apiVersion: " + apiVersion + " kind: " + kind + rest == [] + ApiVersionKey + " " + apiVersion + after;
    assert [] + ApiVersionKey[..|ApiVersionKey| - 1] == ApiVersionKey[..|ApiVersionKey| - 1];
    NotContainsShort(ApiVersionKey[..|ApiVersionKey| - 1], ApiVersionKey);
    SearchValueRoundTrip([], ApiVersionKey, apiVersion, after);
  }

  /** In `apiVersion: A kind: K…` the `kind:` search returns `K`, whenever
      `kind:` does not occur in `A`. */
  lemma KindFound(apiVersion: string, kind: string, rest: string)
    requires IsValue(kind) && !Contains(apiVersion, KindKey)
    requires rest == [] || !ValueChar(rest[0])
    ensures SearchValue("apiVersion: " + apiVersion + " kind: " + kind + rest, KindKey) == Some(kind)
  {
    var before := "apiVersion: " + apiVersion + " ";
    assert "apiVersion: " + apiVersion + " kind: " + kind + rest == before + KindKey + " " + kind + rest;
    KindNotBeforeKey(apiVersion);
    assert before + KindKey[..|KindKey| - 1] == "apiVersion: " + apiVersion + " kind";
    SearchValueRoundTrip(before, KindKey, kind, rest);
  }

  /** `kind:` does not occur in `apiVersion: A kind` unless it occurs in
      `A`: around `A` stand a space and text without `k`. */
  lemma KindNotBeforeKey(apiVersion: string)
    requires !Contains(apiVersion, KindKey)
    ensures !Contains("apiVersion: " + apiVersion + " kind", KindKey)
  {
    var w := "apiVersion: " + apiVersion + " kind";
    var n := |apiVersion|;
    assert |w| == n + 17;
    forall i | 0 <= i <= |w| - |KindKey|
      ensures !StartsAt(w, i, KindKey)
    {
      if i < 12 {
        assert w[i] == "apiVersion: "[i] != 'k';
        assert w[i..i + 5][0] == w[i];
      } else if i + 5 <= 12 + n {
        assert w[i..i + 5] == apiVersion[i - 12..i - 12 + 5];
        ContainsAt(apiVersion, KindKey, i - 12);
      } else {
        assert w[12 + n] == ' ';
        assert w[i..i + 5][12 + n - i] == w[12 + n];
      }
    }
    NotContainsAll(w, KindKey);
  }

  /** The parse is the pair of the two searches when both succeed. */
  lemma ParseOfSearches(content: string, apiVersion: string, kind: string)
    requires SearchValue(content, ApiVersionKey) == Some(apiVersion)
    requires SearchValue(content, KindKey) == Some(kind)
    ensures ParseTemplatedYaml(content) == Some(Fragment(apiVersion, kind))
  {
  }

  /** The run starting at a value stops right after it. */
  lemma RunEndOfValue(s: string, j: nat, v: string, rest: string)
    requires j + |v| + |rest| == |s| && s[j..] == v + rest
    requires IsValue(v)
    requires rest == [] || !ValueChar(rest[0])
    ensures RunEnd(s, j) == j + |v|
    decreases |v|
  {
    assert s[j] == v[0];
    if |v| > 1 {
      assert s[j + 1..] == v[1..] + rest;
      RunEndOfValue(s, j + 1, v[1..], rest);
    } else {
      assert j + 1 < |s| ==> s[j + 1] == rest[0];
    }
  }
}
