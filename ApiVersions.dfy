/** Classification of `apiVersion` strings: the provider filter and the
    API-group category used in every extracted record. */
module ApiVersions {
  import opened Strings
  import opened Wrappers

  const CrossplaneDomain := ".crossplane.io"
  const UpboundDomain := ".upbound.io"

  /** The filter applied to every `apiVersion` value found in a manifest:
      it mentions a Crossplane or an Upbound API group followed by a slash. */
  predicate IsCrossplaneOrUpbound(apiVersion: string) {
    Contains(apiVersion, CrossplaneDomain + "/") || Contains(apiVersion, UpboundDomain + "/")
  }

  /** `s[i..k]` is a non-empty, dot-free segment that starts the string or
      follows a dot, and is immediately followed by `domain`. With a domain
      beginning with a dot, this is exactly a place where the pattern
      `([^.]+)<domain>` can match, with `s[i..k]` as its group. */
  ghost predicate SegmentBefore(s: string, domain: string, i: int, k: int) {
    0 <= i < k <= |s| &&
    (i == 0 || s[i - 1] == '.') &&
    (forall j :: i <= j < k ==> s[j] != '.') &&
    StartsAt(s, k, domain)
  }

  /** A segment ends at a dot: the first character of the domain. */
  lemma SegmentEndsAtDot(s: string, domain: string, i: int, k: int)
    requires |domain| > 0 && domain[0] == '.'
    requires SegmentBefore(s, domain, i, k)
    ensures k < |s| && s[k] == '.'
  {
    assert s[k..k + |domain|][0] == s[k];
  }

  /** Two segments starting at the same index are the same segment. */
  lemma SegmentUnique(s: string, domain: string, i: int, k: int, k': int)
    requires |domain| > 0 && domain[0] == '.'
    requires SegmentBefore(s, domain, i, k) && SegmentBefore(s, domain, i, k')
    ensures k == k'
  {
    SegmentEndsAtDot(s, domain, i, k);
    SegmentEndsAtDot(s, domain, i, k');
  }

  /** The scanning step that closes a segment at a dot that is not followed
      by the domain: no segment starts at or before that dot. */
  lemma ScanPastDot(s: string, domain: string, start: nat, i: nat)
    requires |domain| > 0 && domain[0] == '.'
    requires start <= i < |s| && s[i] == '.'
    requires forall j :: start <= j < i ==> s[j] != '.'
    requires !(i > start && StartsAt(s, i, domain))
    requires forall a, b :: SegmentBefore(s, domain, a, b) ==> start <= a
    ensures forall a, b :: SegmentBefore(s, domain, a, b) ==> i + 1 <= a
  {
    forall a, b | SegmentBefore(s, domain, a, b)
      ensures i + 1 <= a
    {
      SegmentEndsAtDot(s, domain, a, b);
    }
  }

  /** Left-to-right scan for the first segment followed by `domain`;
      `start` is where the current dot-free segment began and `i` the
      next character to look at. The result holds the segment's bounds. */
  function SegmentScan(s: string, domain: string, start: nat, i: nat): (r: Option<(nat, nat)>)
    requires start <= i <= |s|
    ensures r.Some? ==> start <= r.value.0 < r.value.1 <= |s|
    decreases |s| - i
  {
    if i == |s| then None
    else if s[i] == '.' then
      if i > start && StartsAt(s, i, domain) then Some((start, i))
      else SegmentScan(s, domain, i + 1, i + 1)
    else
      SegmentScan(s, domain, start, i + 1)
  }

  /** `r` is the leftmost segment followed by `domain`, or `None` when
      there is no such segment. */
  ghost predicate LeftmostSegment(s: string, domain: string, r: Option<(nat, nat)>) {
    && (r.Some? ==> SegmentBefore(s, domain, r.value.0, r.value.1))
    && (r.Some? ==> forall a, b :: SegmentBefore(s, domain, a, b) ==> r.value.0 <= a)
    && (r.None? ==> forall a, b :: !SegmentBefore(s, domain, a, b))
  }

  /** From a point where the current segment began after a dot (or at the
      start) and no segment lies further left, the scan finds the leftmost
      segment followed by the domain, or reports that there is none. */
  lemma {:induction false} SegmentScanFacts(s: string, domain: string, start: nat, i: nat)
    requires |domain| > 0 && domain[0] == '.'
    requires start <= i <= |s|
    requires start == 0 || s[start - 1] == '.'
    requires forall j :: start <= j < i ==> s[j] != '.'
    requires forall a, b :: SegmentBefore(s, domain, a, b) ==> start <= a
    ensures LeftmostSegment(s, domain, SegmentScan(s, domain, start, i))
    decreases |s| - i, 1
  {
    if i == |s| {
      NoSegmentAtEnd(s, domain, start);
    } else if s[i] == '.' {
      SegmentScanAtDot(s, domain, start, i);
    } else {
      SegmentScanFacts(s, domain, start, i + 1);
    }
  }

  /** The scanning step at a dot: it either closes the leftmost segment or
      starts a new one after the dot. */
  lemma {:induction false} SegmentScanAtDot(s: string, domain: string, start: nat, i: nat)
    requires |domain| > 0 && domain[0] == '.'
    requires start <= i < |s| && s[i] == '.'
    requires start == 0 || s[start - 1] == '.'
    requires forall j :: start <= j < i ==> s[j] != '.'
    requires forall a, b :: SegmentBefore(s, domain, a, b) ==> start <= a
    ensures LeftmostSegment(s, domain, SegmentScan(s, domain, start, i))
    decreases |s| - i, 0
  {
    if i > start && StartsAt(s, i, domain) {
      assert SegmentBefore(s, domain, start, i);
    } else {
      ScanPastDot(s, domain, start, i);
      SegmentScanFacts(s, domain, i + 1, i + 1);
    }
  }

  /** A dot-free tail that no earlier segment precedes holds no segment. */
  lemma NoSegmentAtEnd(s: string, domain: string, start: nat)
    requires |domain| > 0 && domain[0] == '.'
    requires start <= |s|
    requires forall j :: start <= j < |s| ==> s[j] != '.'
    requires forall a, b :: SegmentBefore(s, domain, a, b) ==> start <= a
    ensures forall a, b :: !SegmentBefore(s, domain, a, b)
  {
    forall a, b | SegmentBefore(s, domain, a, b)
      ensures false
    {
      SegmentEndsAtDot(s, domain, a, b);
    }
  }

  /** The leftmost match of `([^.]+)<domain>` in `s`, as segment bounds. */
  function FindSegment(s: string, domain: string): (r: Option<(nat, nat)>)
    ensures r.Some? ==> r.value.0 < r.value.1 <= |s|
  {
    SegmentScan(s, domain, 0, 0)
  }

  /** The search matches exactly when some dot-free label, at the start or
      after a dot, is followed by the domain, and then it finds the leftmost
      such label. */
  lemma FindSegmentFacts(s: string, domain: string)
    requires |domain| > 0 && domain[0] == '.'
    ensures var r := FindSegment(s, domain);
      && (r.Some? ==> SegmentBefore(s, domain, r.value.0, r.value.1))
      && (r.Some? ==> forall a, b :: SegmentBefore(s, domain, a, b) ==> r.value.0 <= a)
      && (r.None? <==> forall a, b :: !SegmentBefore(s, domain, a, b))
  {
    SegmentScanFacts(s, domain, 0, 0);
    assert LeftmostSegment(s, domain, FindSegment(s, domain));
  }

  /** The API-group category of an `apiVersion`: the label before the first
      `.crossplane.io`, else before the first `.upbound.io`, else "other";
      the empty string is "other" outright. */
  function Category(apiVersion: string): (r: string)
    ensures apiVersion == "" ==> r == "other"
  {
    if apiVersion == "" then "other"
    else
      match FindSegment(apiVersion, CrossplaneDomain)
      case Some((i, k)) => apiVersion[i..k]
      case None =>
        match FindSegment(apiVersion, UpboundDomain)
        case Some((i, k)) => apiVersion[i..k]
        case None => "other"
  }

  /** The segment a search finds is the leftmost one, whatever its end. */
  lemma FindSegmentIsLeftmost(s: string, domain: string, i: int, k: int)
    requires |domain| > 0 && domain[0] == '.'
    requires SegmentBefore(s, domain, i, k)
    requires forall a, b :: SegmentBefore(s, domain, a, b) ==> i <= a
    ensures FindSegment(s, domain) == Some((i, k))
  {
    var r := FindSegment(s, domain);
    FindSegmentFacts(s, domain);
    assert r.Some?;
    SegmentUnique(s, domain, i, k, r.value.1);
  }

  /** A Crossplane match decides the category, wherever an Upbound match
      sits in the string. */
  lemma CategoryCrossplaneWins(s: string, i: int, k: int)
    requires SegmentBefore(s, CrossplaneDomain, i, k)
    requires forall a, b :: SegmentBefore(s, CrossplaneDomain, a, b) ==> i <= a
    ensures Category(s) == s[i..k]
  {
    FindSegmentIsLeftmost(s, CrossplaneDomain, i, k);
  }

  /** Without a Crossplane match, the first Upbound match decides. */
  lemma CategoryUpboundFallback(s: string, i: int, k: int)
    requires forall a, b :: !SegmentBefore(s, CrossplaneDomain, a, b)
    requires SegmentBefore(s, UpboundDomain, i, k)
    requires forall a, b :: SegmentBefore(s, UpboundDomain, a, b) ==> i <= a
    ensures Category(s) == s[i..k]
  {
    FindSegmentFacts(s, CrossplaneDomain);
    FindSegmentIsLeftmost(s, UpboundDomain, i, k);
  }

  /** Without either match the category is "other". */
  lemma CategoryOther(s: string)
    requires forall a, b :: !SegmentBefore(s, CrossplaneDomain, a, b)
    requires forall a, b :: !SegmentBefore(s, UpboundDomain, a, b)
    ensures Category(s) == "other"
  {
    FindSegmentFacts(s, CrossplaneDomain);
    FindSegmentFacts(s, UpboundDomain);
  }

  /** Whenever the category is not taken from a match, it is "other": the
      result is always a matched segment or that literal. */
  lemma CategoryIsSegmentOrOther(s: string)
    ensures Category(s) == "other" ||
            exists i, k :: (SegmentBefore(s, CrossplaneDomain, i, k) ||
                            SegmentBefore(s, UpboundDomain, i, k)) && Category(s) == s[i..k]
  {
    FindSegmentFacts(s, CrossplaneDomain);
    FindSegmentFacts(s, UpboundDomain);
  }

  /** A domain that starts at none of the dots of `s` leaves no segment. */
  lemma NoSegmentWithoutDomain(s: string, domain: string)
    requires |domain| > 0 && domain[0] == '.'
    requires forall k :: 0 < k < |s| && s[k] == '.' ==> !StartsAt(s, k, domain)
    ensures forall a, b :: !SegmentBefore(s, domain, a, b)
  {
    forall a, b | SegmentBefore(s, domain, a, b) ensures false {
      SegmentEndsAtDot(s, domain, a, b);
    }
  }

  /** The first example of the category's documentation. */
  lemma CategoryOfUpboundExample()
    ensures Category("aws.upbound.io/v1beta1") == "aws"
  {
    var aws := "aws.upbound.io/v1beta1";
    forall k | 0 < k < |aws| && aws[k] == '.' ensures !StartsAt(aws, k, CrossplaneDomain) {
      assert k == 3 || k == 11;
      if k == 3 {
        assert aws[k..k + 14][1] == aws[k + 1];
      }
    }
    NoSegmentWithoutDomain(aws, CrossplaneDomain);
    assert aws[3..14] == UpboundDomain by {
      assert forall j :: 0 <= j < 11 ==> aws[3..14][j] == aws[3 + j];
    }
    CategoryUpboundFallback(aws, 0, 3);
  }

  /** The second example of the category's documentation. */
  lemma CategoryOfCrossplaneExample()
    ensures Category("fn.crossplane.io/v1beta1") == "fn"
  {
    var fn := "fn.crossplane.io/v1beta1";
    assert fn[2..16] == CrossplaneDomain by {
      assert forall j :: 0 <= j < 14 ==> fn[2..16][j] == fn[2 + j];
    }
    CategoryCrossplaneWins(fn, 0, 2);
  }

  /** The API version every Composition carries falls in "apiextensions". */
  lemma CategoryOfComposition()
    ensures Category("apiextensions.crossplane.io/v1") == "apiextensions"
  {
    var ext := "apiextensions.crossplane.io/v1";
    assert ext[13..27] == CrossplaneDomain by {
      assert forall j :: 0 <= j < 14 ==> ext[13..27][j] == ext[13 + j];
    }
    CategoryCrossplaneWins(ext, 0, 13);
  }

  /** The dots of the nested-group example and what follows them. */
  lemma NestedGroupDots(s: string, k: int)
    requires s == "ec2.aws.upbound.io/v1beta1"
    requires 0 <= k < |s| && s[k] == '.'
    ensures k == 3 || k == 7 || k == 15
    ensures !StartsAt(s, k, CrossplaneDomain)
    ensures StartsAt(s, k, UpboundDomain) ==> k == 7
  {
    if k + 11 <= |s| {
      assert s[k..k + 11][1] == s[k + 1];
    }
    if k + 14 <= |s| {
      assert s[k..k + 14][1] == s[k + 1];
    }
  }

  /** A nested group: the label is the segment right before the domain. */
  lemma CategoryOfNestedGroup()
    ensures Category("ec2.aws.upbound.io/v1beta1") == "aws"
  {
    var ec2 := "ec2.aws.upbound.io/v1beta1";
    NestedGroupNoCrossplane(ec2);
    NestedGroupUpbound(ec2);
    CategoryUpboundFallback(ec2, 4, 7);
    assert ec2[4..7] == "aws" by {
      assert forall j :: 0 <= j < 3 ==> ec2[4..7][j] == ec2[4 + j];
    }
  }

  lemma NestedGroupNoCrossplane(ec2: string)
    requires ec2 == "ec2.aws.upbound.io/v1beta1"
    ensures forall a, b :: !SegmentBefore(ec2, CrossplaneDomain, a, b)
  {
    forall k | 0 < k < |ec2| && ec2[k] == '.' ensures !StartsAt(ec2, k, CrossplaneDomain) {
      NestedGroupDots(ec2, k);
    }
    NoSegmentWithoutDomain(ec2, CrossplaneDomain);
  }

  lemma NestedGroupUpbound(ec2: string)
    requires ec2 == "ec2.aws.upbound.io/v1beta1"
    ensures SegmentBefore(ec2, UpboundDomain, 4, 7)
    ensures forall a, b :: SegmentBefore(ec2, UpboundDomain, a, b) ==> 4 <= a
  {
    forall a, b | SegmentBefore(ec2, UpboundDomain, a, b) ensures 4 <= a {
      SegmentEndsAtDot(ec2, UpboundDomain, a, b);
      NestedGroupDots(ec2, b);
      assert ec2[3] == '.';
    }
    assert ec2[7..18] == UpboundDomain by {
      assert forall j :: 0 <= j < 11 ==> ec2[7..18][j] == ec2[7 + j];
    }
  }

  /** A core API version has no group label. */
  lemma CategoryOfCoreVersion()
    ensures Category("v1") == "other"
  {
    var v1 := "v1";
    NoSegmentWithoutDomain(v1, CrossplaneDomain);
    NoSegmentWithoutDomain(v1, UpboundDomain);
    CategoryOther(v1);
  }

  /** The filter is a plain substring test: the Composition's own API
      version and provider API versions pass, core and third-party ones do
      not. */
  lemma FilterExamples()
    ensures IsCrossplaneOrUpbound("apiextensions.crossplane.io/v1")
    ensures IsCrossplaneOrUpbound("ec2.aws.upbound.io/v1beta1")
    ensures !IsCrossplaneOrUpbound("example.org/v1")
    ensures !IsCrossplaneOrUpbound("v1")
  {
    var ext := "apiextensions.crossplane.io/v1";
    assert StartsAt(ext, 13, CrossplaneDomain + "/");
    ContainsAt(ext, CrossplaneDomain + "/", 13);
    var ec2 := "ec2.aws.upbound.io/v1beta1";
    assert StartsAt(ec2, 7, UpboundDomain + "/");
    ContainsAt(ec2, UpboundDomain + "/", 7);
    NotContainsShort("example.org/v1", CrossplaneDomain + "/");
    NotContainsShort("v1", CrossplaneDomain + "/");
    NotContainsShort("v1", UpboundDomain + "/");
    var ex := "example.org/v1";
    forall i | 0 <= i <= |ex| - 12 ensures !StartsAt(ex, i, UpboundDomain + "/") {
      assert ex[i..i + 12][0] == ex[i];
    }
    NotContainsAll(ex, UpboundDomain + "/");
  }

  /** The filter and the category disagree on an `apiVersion` whose domain
      directly follows a dot: the filter accepts it, yet no non-empty label
      precedes the domain, so the category is "other". */
  lemma FilterAcceptsWithoutCategory()
    ensures IsCrossplaneOrUpbound(".crossplane.io/v1") && Category(".crossplane.io/v1") == "other"
  {
    var s := ".crossplane.io/v1";
    assert StartsAt(s, 0, CrossplaneDomain + "/");
    ContainsAt(s, CrossplaneDomain + "/", 0);
    forall k | 0 < k < |s| && s[k] == '.' ensures !StartsAt(s, k, CrossplaneDomain) {
      assert k == 11;
    }
    NoSegmentWithoutDomain(s, CrossplaneDomain);
    forall k | 0 < k < |s| && s[k] == '.' ensures !StartsAt(s, k, UpboundDomain) {
      assert k == 11;
    }
    NoSegmentWithoutDomain(s, UpboundDomain);
    CategoryOther(s);
  }
}
