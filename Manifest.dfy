/** A schema-less manifest document, as the YAML loader hands it over, and
    the walk that finds every resource reference in it: each mapping, at
    any depth, whose `apiVersion` value is a string naming a Crossplane or
    Upbound API group yields one association with its sibling `kind`. */
module Manifest {
  import opened Wrappers
  import opened ApiVersions

  /** A loaded document node. A mapping keeps its entries in insertion
      order; a `Scalar` is a non-string scalar, held as the text Python's
      `str()` gives for it. */
  datatype Node =
    | Mapping(entries: seq<(string, Node)>)
    | List(items: seq<Node>)
    | Str(s: string)
    | Scalar(text: string)
    | Null

  /** Python's `mapping.get(key)`: the value of the first entry with that key. */
  function Get(entries: seq<(string, Node)>, key: string): Option<Node> {
    if entries == [] then None
    else if entries[0].0 == key then Some(entries[0].1)
    else Get(entries[1..], key)
  }

  /** A lookup that succeeds returns the value of an entry with the key;
      one that fails means no entry has the key. */
  lemma {:induction false} GetFinds(entries: seq<(string, Node)>, key: string)
    ensures Get(entries, key).Some? ==> (key, Get(entries, key).value) in entries
    ensures Get(entries, key).None? <==> forall i :: 0 <= i < |entries| ==> entries[i].0 != key
  {
    if entries != [] && entries[0].0 != key {
      GetFinds(entries[1..], key);
      assert forall i :: 1 <= i < |entries| ==> entries[i] == entries[1..][i - 1];
    }
  }

  /** The text of a node in an f-string. Strings and scalars are exact and
      `None` prints as `None`; containers are rendered by a stand-in. */
  function Render(n: Node): string {
    match n
    case Str(s) => s
    case Scalar(t) => t
    case Null => "None"
    case Mapping(_) => "{...}"
    case List(_) => "[...]"
  }

  /** `mapping.get(key, "N/A")`, as the text an f-string gives it. */
  function GetText(entries: seq<(string, Node)>, key: string): string {
    match Get(entries, key)
    case Some(n) => Render(n)
    case None => "N/A"
  }

  /** The `kind` sibling of an `apiVersion`, or `N/A`. */
  function KindOf(entries: seq<(string, Node)>): string {
    GetText(entries, "kind")
  }

  /** How a table column treats the `kind` value a reference carries: a
      hashable value is grouped on; a missing value (`None`, or a float
      NaN, whose text is `nan`) is dropped by grouping; a mapping or a list
      cannot be hashed, so grouping on it raises `TypeError`. */
  datatype KindValue = Hashable | Missing | Unhashable

  /** What `mapping.get("kind", "N/A")` gives, as far as grouping cares. */
  function KindValueOf(entries: seq<(string, Node)>): KindValue {
    match Get(entries, "kind")
    case Some(Null) => Missing
    case Some(Scalar(t)) => if t == "nan" then Missing else Hashable
    case Some(Mapping(_)) => Unhashable
    case Some(List(_)) => Unhashable
    case _ => Hashable
  }

  /** One resource reference: the `kind_api_version`, `kind`, `api_version`
      and `category` of the source's dict, with the kind rendered as text,
      and how grouping treats that kind. */
  datatype Assoc = Assoc(kindApiVersion: string, kind: string, apiVersion: string, category: string, kindValue: KindValue)

  /** The association for API version `v` inside a mapping with `entries`. */
  function AssocOf(entries: seq<(string, Node)>, v: string): (a: Assoc)
    ensures a.kindApiVersion == a.kind + "_" + a.apiVersion
    ensures a.apiVersion == v && a.category == Category(v)
  {
    var kind := KindOf(entries);
    Assoc(kind + "_" + v, kind, v, Category(v), KindValueOf(entries))
  }

  /** What visiting one entry of a mapping emits: an association when the
      key is `apiVersion` and the value a string the filter accepts. */
  function Emit(entries: seq<(string, Node)>, key: string, value: Node): (r: seq<Assoc>)
    ensures |r| <= 1
    ensures r != [] <==> key == "apiVersion" && value.Str? && IsCrossplaneOrUpbound(value.s)
  {
    if key == "apiVersion" && value.Str? && IsCrossplaneOrUpbound(value.s)
    then [AssocOf(entries, value.s)] else []
  }

  /** The associations the walk appends for `obj`, in the order it appends
      them: for each entry of a mapping, the entry's own emission and then
      the walk into its value; for a list, the walk into each item. */
  function Search(obj: Node): seq<Assoc>
    decreases obj, 1
  {
    match obj
    case Mapping(entries) => SearchEntries(obj, |entries|)
    case List(items) => SearchItems(obj, |items|)
    case _ => []
  }

  /** The walk over the first `n` entries of a mapping. */
  function SearchEntries(obj: Node, n: nat): seq<Assoc>
    requires obj.Mapping? && n <= |obj.entries|
    decreases obj, 0, n
  {
    if n == 0 then []
    else
      var (key, value) := obj.entries[n - 1];
      assert obj.entries[n - 1] in obj.entries;
      SearchEntries(obj, n - 1) + Emit(obj.entries, key, value) + Search(value)
  }

  /** The walk over the first `n` items of a list. */
  function SearchItems(obj: Node, n: nat): seq<Assoc>
    requires obj.List? && n <= |obj.items|
    decreases obj, 0, n
  {
    if n == 0 then []
    else
      assert obj.items[n - 1] in obj.items;
      SearchItems(obj, n - 1) + Search(obj.items[n - 1])
  }

  /** The walk as the source performs it: it appends to the list it is
      given while it recurses through mappings and lists. */
  method SearchInto(obj: Node, found: seq<Assoc>) returns (out: seq<Assoc>)
    ensures out == found + Search(obj)
    decreases obj, 2
  {
    match obj {
      case Mapping(_) => out := SearchMapping(obj, found);
      case List(_) => out := SearchList(obj, found);
      case _ => out := found;
    }
  }

  /** The loop over a mapping's entries: an accepted `apiVersion` string
      appends its association, and every value is walked in turn. */
  method SearchMapping(obj: Node, found: seq<Assoc>) returns (out: seq<Assoc>)
    requires obj.Mapping?
    ensures out == found + SearchEntries(obj, |obj.entries|)
    decreases obj, 1
  {
    var entries := obj.entries;
    out := found;
    var i := 0;
    while i < |entries|
      invariant 0 <= i <= |entries|
      invariant out == found + SearchEntries(obj, i)
    {
      var (key, value) := entries[i];
      var emitted := EmitEntry(entries, key, value);
      assert entries[i] in entries;
      SearchEntriesStep(obj, i);
      out := SearchInto(value, out + emitted);
      ConcatAssoc(found, SearchEntries(obj, i), emitted, Search(value));
      i := i + 1;
    }
  }

  /** The body of the loop over a mapping for one entry: an accepted
      `apiVersion` string gives its association, anything else nothing. */
  method EmitEntry(entries: seq<(string, Node)>, key: string, value: Node) returns (emitted: seq<Assoc>)
    ensures emitted == Emit(entries, key, value)
  {
    emitted := [];
    if key == "apiVersion" && value.Str? && IsCrossplaneOrUpbound(value.s) {
      var kind := KindOf(entries);
      emitted := [Assoc(kind + "_" + value.s, kind, value.s, Category(value.s), KindValueOf(entries))];
    }
  }

  /** Unfolding the walk over a mapping by one entry. */
  lemma SearchEntriesStep(obj: Node, i: nat)
    requires obj.Mapping? && i < |obj.entries|
    ensures SearchEntries(obj, i + 1) ==
            SearchEntries(obj, i) + Emit(obj.entries, obj.entries[i].0, obj.entries[i].1) + Search(obj.entries[i].1)
  {
  }

  /** Regrouping a concatenation, which the walk's loops need at every step. */
  lemma ConcatAssoc<T>(a: seq<T>, b: seq<T>, c: seq<T>, d: seq<T>)
    ensures a + b + c + d == a + (b + c + d)
  {
  }

  lemma ConcatAssoc3<T>(a: seq<T>, b: seq<T>, c: seq<T>)
    ensures a + b + c == a + (b + c)
  {
  }

  /** The loop over a list's items, walking each in turn. */
  method SearchList(obj: Node, found: seq<Assoc>) returns (out: seq<Assoc>)
    requires obj.List?
    ensures out == found + SearchItems(obj, |obj.items|)
    decreases obj, 1
  {
    var items := obj.items;
    out := found;
    var i := 0;
    while i < |items|
      invariant 0 <= i <= |items|
      invariant out == found + SearchItems(obj, i)
    {
      assert items[i] in items;
      out := SearchInto(items[i], out);
      ConcatAssoc3(found, SearchItems(obj, i), Search(items[i]));
      i := i + 1;
    }
  }

  /** An association as the walk builds it: its API version passes the
      filter, its category is that version's category, and its composite
      text is the kind and the version joined by `_`. */
  predicate WellFormed(a: Assoc) {
    && IsCrossplaneOrUpbound(a.apiVersion)
    && a.kindApiVersion == a.kind + "_" + a.apiVersion
    && a.category == Category(a.apiVersion)
  }

  /** Every association the walk emits, at any depth, is well formed. */
  lemma {:induction false} SearchWellFormed(obj: Node)
    ensures forall a :: a in Search(obj) ==> WellFormed(a)
    decreases obj, 1
  {
    match obj
    case Mapping(entries) => SearchEntriesWellFormed(obj, |entries|);
    case List(items) => SearchItemsWellFormed(obj, |items|);
    case _ =>
  }

  lemma {:induction false} SearchEntriesWellFormed(obj: Node, n: nat)
    requires obj.Mapping? && n <= |obj.entries|
    ensures forall a :: a in SearchEntries(obj, n) ==> WellFormed(a)
    decreases obj, 0, n
  {
    if n > 0 {
      assert obj.entries[n - 1] in obj.entries;
      SearchEntriesWellFormed(obj, n - 1);
      SearchWellFormed(obj.entries[n - 1].1);
    }
  }

  lemma {:induction false} SearchItemsWellFormed(obj: Node, n: nat)
    requires obj.List? && n <= |obj.items|
    ensures forall a :: a in SearchItems(obj, n) ==> WellFormed(a)
    decreases obj, 0, n
  {
    if n > 0 {
      assert obj.items[n - 1] in obj.items;
      SearchItemsWellFormed(obj, n - 1);
      SearchWellFormed(obj.items[n - 1]);
    }
  }

  /** The mapping a templated fragment becomes: its two keys, in order. */
  function FragmentNode(apiVersion: string, kind: string): Node {
    Mapping([("apiVersion", Str(apiVersion)), ("kind", Str(kind))])
  }

  /** A fragment recovered from a template yields one association, with
      its kind and a category, exactly when its API version passes the
      filter, and nothing otherwise. */
  lemma FragmentSearch(apiVersion: string, kind: string)
    ensures Search(FragmentNode(apiVersion, kind)) ==
            if IsCrossplaneOrUpbound(apiVersion)
            then [Assoc(kind + "_" + apiVersion, kind, apiVersion, Category(apiVersion), Hashable)]
            else []
  {
    var node := FragmentNode(apiVersion, kind);
    assert SearchEntries(node, 1) == Emit(node.entries, "apiVersion", Str(apiVersion));
    assert Get(node.entries, "kind") == Some(Str(kind));
    assert SearchEntries(node, 2) == SearchEntries(node, 1) + Emit(node.entries, "kind", Str(kind)) + Search(Str(kind));
  }

  /** The emission of any entry of a mapping is part of the walk over it. */
  lemma EntryEmitted(obj: Node, i: nat, n: nat, a: Assoc)
    requires obj.Mapping? && i < n <= |obj.entries|
    requires a in Emit(obj.entries, obj.entries[i].0, obj.entries[i].1)
    ensures a in SearchEntries(obj, n)
  {
    SearchEntriesStep(obj, i);
    var e := Emit(obj.entries, obj.entries[i].0, obj.entries[i].1);
    InMiddle(a, SearchEntries(obj, i), e, Search(obj.entries[i].1));
    SearchEntriesPrefix(obj, i + 1, n);
    InPrefix(a, SearchEntries(obj, i + 1), SearchEntries(obj, n));
  }

  lemma InMiddle<T>(x: T, a: seq<T>, b: seq<T>, c: seq<T>)
    requires x in b
    ensures x in a + b + c
  {
    var k :| 0 <= k < |b| && b[k] == x;
    assert (a + b + c)[|a| + k] == x;
  }

  lemma InPrefix<T>(x: T, p: seq<T>, w: seq<T>)
    requires p <= w && x in p
    ensures x in w
  {
    var k :| 0 <= k < |p| && p[k] == x;
    assert w[k] == x;
  }

  /** The walk over fewer entries is a prefix of the walk over more. */
  lemma SearchEntriesPrefix(obj: Node, m: nat, n: nat)
    requires obj.Mapping? && m <= n <= |obj.entries|
    ensures SearchEntries(obj, m) <= SearchEntries(obj, n)
  {
    var walk := (k: nat) requires k <= |obj.entries| => SearchEntries(obj, k);
    forall k | m <= k < n
      ensures walk(k) <= walk(k + 1)
    {
      SearchEntriesExtends(obj, k);
    }
    PrefixChain(walk, |obj.entries|, m, n);
  }

  /** One more entry only appends to the walk. */
  lemma SearchEntriesExtends(obj: Node, k: nat)
    requires obj.Mapping? && k < |obj.entries|
    ensures SearchEntries(obj, k) <= SearchEntries(obj, k + 1)
  {
    SearchEntriesStep(obj, k);
    var prev := SearchEntries(obj, k);
    var rest := Emit(obj.entries, obj.entries[k].0, obj.entries[k].1) + Search(obj.entries[k].1);
    assert SearchEntries(obj, k + 1) == prev + rest;
    assert (prev + rest)[..|prev|] == prev;
  }

  /** A chain of sequences each extending the one before: the first is a
      prefix of the last. */
  lemma {:induction false} PrefixChain<T>(f: nat --> seq<T>, bound: nat, m: nat, n: nat)
    requires m <= n <= bound
    requires forall k: nat :: k <= bound ==> f.requires(k)
    requires forall k: nat :: m <= k < n ==> f(k) <= f(k + 1)
    ensures f(m) <= f(n)
    decreases n
  {
    if m < n {
      PrefixChain(f, bound, m, n - 1);
      assert forall j :: 0 <= j < |f(m)| ==> f(m)[j] == f(n - 1)[j] == f(n)[j];
    }
  }

  /** A mapping whose `apiVersion` is an accepted string has its own
      association, with its `kind`, among those the walk emits. */
  lemma OwnAssocEmitted(obj: Node, v: string)
    requires obj.Mapping? && Get(obj.entries, "apiVersion") == Some(Str(v)) && IsCrossplaneOrUpbound(v)
    ensures AssocOf(obj.entries, v) in Search(obj)
  {
    GetFinds(obj.entries, "apiVersion");
    var i :| 0 <= i < |obj.entries| && obj.entries[i] == ("apiVersion", Str(v));
    EntryEmitted(obj, i, |obj.entries|, AssocOf(obj.entries, v));
  }

  /** Every mapping within `obj`, itself included, in pre-order. */
  function Mappings(obj: Node): seq<Node>
    decreases obj, 1
  {
    match obj
    case Mapping(entries) => [obj] + MappingsOfEntries(obj, |entries|)
    case List(items) => MappingsOfItems(obj, |items|)
    case _ => []
  }

  function MappingsOfEntries(obj: Node, n: nat): seq<Node>
    requires obj.Mapping? && n <= |obj.entries|
    decreases obj, 0, n
  {
    if n == 0 then []
    else
      assert obj.entries[n - 1] in obj.entries;
      MappingsOfEntries(obj, n - 1) + Mappings(obj.entries[n - 1].1)
  }

  function MappingsOfItems(obj: Node, n: nat): seq<Node>
    requires obj.List? && n <= |obj.items|
    decreases obj, 0, n
  {
    if n == 0 then []
    else
      assert obj.items[n - 1] in obj.items;
      MappingsOfItems(obj, n - 1) + Mappings(obj.items[n - 1])
  }

  /** The association a mapping stands for: one when its `apiVersion` is
      a string the filter accepts, none otherwise. */
  function Own(m: Node): (r: seq<Assoc>)
    ensures |r| <= 1
  {
    if m.Mapping? then
      match Get(m.entries, "apiVersion")
      case Some(Str(v)) => if IsCrossplaneOrUpbound(v) then [AssocOf(m.entries, v)] else []
      case _ => []
    else []
  }

  /** The associations of a sequence of mappings, in order. */
  function OwnAll(ms: seq<Node>): seq<Assoc> {
    if ms == [] then [] else OwnAll(ms[..|ms| - 1]) + Own(ms[|ms| - 1])
  }

  lemma {:induction false} OwnAllAppend(a: seq<Node>, b: seq<Node>)
    ensures OwnAll(a + b) == OwnAll(a) + OwnAll(b)
    decreases |b|
  {
    if b != [] {
      assert (a + b)[..|a + b| - 1] == a + b[..|b| - 1];
      OwnAllAppend(a, b[..|b| - 1]);
    } else {
      assert a + b == a;
    }
  }

  /** Keys are distinct within every mapping of the document, as they are
      in the dictionaries the YAML loader builds. */
  ghost predicate UniqueKeys(obj: Node)
    decreases obj
  {
    match obj
    case Mapping(entries) =>
      && (forall i, j :: 0 <= i < j < |entries| ==> entries[i].0 != entries[j].0)
      && forall e :: e in entries ==> UniqueKeys(e.1)
    case List(items) => forall item :: item in items ==> UniqueKeys(item)
    case _ => true
  }

  /** In a mapping with distinct keys, looking a key up finds its one entry. */
  lemma GetUnique(entries: seq<(string, Node)>, i: nat)
    requires i < |entries|
    requires forall p, q :: 0 <= p < q < |entries| ==> entries[p].0 != entries[q].0
    ensures Get(entries, entries[i].0) == Some(entries[i].1)
  {
    var r := Get(entries, entries[i].0);
    GetFinds(entries, entries[i].0);
    var j :| 0 <= j < |entries| && entries[j] == (entries[i].0, r.value);
    assert j == i;
  }

  /** The emissions of the first `n` entries of a mapping, on their own. */
  function EmitPrefix(entries: seq<(string, Node)>, n: nat): seq<Assoc>
    requires n <= |entries|
  {
    if n == 0 then [] else EmitPrefix(entries, n - 1) + Emit(entries, entries[n - 1].0, entries[n - 1].1)
  }

  /** With distinct keys, the entries of a mapping emit, all together,
      exactly the mapping's own association. */
  lemma {:induction false} EmitPrefixIsOwn(obj: Node)
    requires obj.Mapping?
    requires forall p, q :: 0 <= p < q < |obj.entries| ==> obj.entries[p].0 != obj.entries[q].0
    ensures EmitPrefix(obj.entries, |obj.entries|) == Own(obj)
  {
    var es := obj.entries;
    if i :| 0 <= i < |es| && es[i].0 == "apiVersion" {
      EmitPrefixAt(es, i);
      GetUnique(es, i);
    } else {
      GetFinds(es, "apiVersion");
      EmitPrefixNone(es, |es|);
    }
  }

  /** When entry `i` has the key `apiVersion` and the keys are distinct,
      the entries emit what that entry emits. */
  lemma {:induction false} EmitPrefixAt(es: seq<(string, Node)>, i: nat)
    requires i < |es| && es[i].0 == "apiVersion"
    requires forall p, q :: 0 <= p < q < |es| ==> es[p].0 != es[q].0
    ensures EmitPrefix(es, |es|) == Emit(es, es[i].0, es[i].1)
  {
    EmitPrefixSkip(es, i, 0, i);
    EmitPrefixOne(es, i);
    EmitPrefixSkip(es, i, i + 1, |es|);
  }

  /** After entries that emit nothing, entry `i` adds its own emission. */
  lemma {:induction false} EmitPrefixOne(es: seq<(string, Node)>, i: nat)
    requires i < |es| && EmitPrefix(es, i) == []
    ensures EmitPrefix(es, i + 1) == Emit(es, es[i].0, es[i].1)
  {
    var own := Emit(es, es[i].0, es[i].1);
    assert [] + own == own;
  }

  /** Entries other than the one with the key `apiVersion` emit nothing. */
  lemma {:induction false} EmitPrefixSkip(es: seq<(string, Node)>, i: nat, m: nat, n: nat)
    requires i < |es| && es[i].0 == "apiVersion" && m <= n <= |es|
    requires forall p, q :: 0 <= p < q < |es| ==> es[p].0 != es[q].0
    requires i < m || n <= i
    ensures EmitPrefix(es, n) == EmitPrefix(es, m)
    decreases n
  {
    if m < n {
      EmitPrefixSkip(es, i, m, n - 1);
      OtherKey(es, i, n - 1);
      EmitPrefixQuiet(es, n - 1);
    }
  }

  /** An entry whose key is not `apiVersion` adds nothing. */
  lemma EmitPrefixQuiet(es: seq<(string, Node)>, k: nat)
    requires k < |es| && es[k].0 != "apiVersion"
    ensures EmitPrefix(es, k + 1) == EmitPrefix(es, k)
  {
    assert Emit(es, es[k].0, es[k].1) == [];
  }

  /** With distinct keys, no entry but `i` has entry `i`'s key. */
  lemma OtherKey(es: seq<(string, Node)>, i: nat, k: nat)
    requires i < |es| && k < |es| && k != i
    requires forall p, q :: 0 <= p < q < |es| ==> es[p].0 != es[q].0
    ensures es[k].0 != es[i].0
  {
    if k < i {
      assert es[k].0 != es[i].0;
    } else {
      assert es[i].0 != es[k].0;
    }
  }

  /** Without an `apiVersion` key, the entries emit nothing. */
  lemma {:induction false} EmitPrefixNone(es: seq<(string, Node)>, n: nat)
    requires n <= |es|
    requires forall p :: 0 <= p < |es| ==> es[p].0 != "apiVersion"
    ensures EmitPrefix(es, n) == []
  {
    if n > 0 {
      EmitPrefixNone(es, n - 1);
      var k := n - 1;
      assert Emit(es, es[k].0, es[k].1) == [];
    }
  }

  /** The walk emits one association for each mapping, at any depth,
      whose `apiVersion` is an accepted string, and nothing else: as a
      multiset its output is exactly the mappings' own associations. */
  lemma {:induction false} SearchIsOwnAll(obj: Node)
    requires UniqueKeys(obj)
    ensures multiset(Search(obj)) == multiset(OwnAll(Mappings(obj)))
    decreases obj, 1
  {
    match obj
    case Mapping(entries) =>
      SearchEntriesSplit(obj, |entries|);
      EmitPrefixIsOwn(obj);
      OwnAllAppend([obj], MappingsOfEntries(obj, |entries|));
      assert OwnAll([obj]) == Own(obj) by {
        assert [obj][..0] == [];
      }
    case List(items) =>
      SearchItemsSplit(obj, |items|);
    case _ =>
  }

  lemma {:induction false} SearchEntriesSplit(obj: Node, n: nat)
    requires obj.Mapping? && n <= |obj.entries| && UniqueKeys(obj)
    ensures multiset(SearchEntries(obj, n)) ==
            multiset(EmitPrefix(obj.entries, n)) + multiset(OwnAll(MappingsOfEntries(obj, n)))
    decreases obj, 0, n
  {
    if n > 0 {
      var (key, value) := obj.entries[n - 1];
      assert obj.entries[n - 1] in obj.entries;
      SearchEntriesSplit(obj, n - 1);
      SearchIsOwnAll(value);
      OwnAllAppend(MappingsOfEntries(obj, n - 1), Mappings(value));
    }
  }

  lemma {:induction false} SearchItemsSplit(obj: Node, n: nat)
    requires obj.List? && n <= |obj.items| && UniqueKeys(obj)
    ensures multiset(SearchItems(obj, n)) == multiset(OwnAll(MappingsOfItems(obj, n)))
    decreases obj, 0, n
  {
    if n > 0 {
      var item := obj.items[n - 1];
      assert item in obj.items;
      assert UniqueKeys(item);
      SearchItemsSplit(obj, n - 1);
      SearchIsOwnAll(item);
      OwnAllAppend(MappingsOfItems(obj, n - 1), Mappings(item));
      assert SearchItems(obj, n) == SearchItems(obj, n - 1) + Search(item);
      assert MappingsOfItems(obj, n) == MappingsOfItems(obj, n - 1) + Mappings(item);
    }
  }
}
