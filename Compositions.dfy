/** What one Composition manifest contributes to the analysis: its rows of
    extracted data (one per resource reference found in the document or in
    the templates of its pipeline) and the names of the functions its
    pipeline calls. */
module Compositions {
  import opened Wrappers
  import opened ApiVersions
  import opened TemplatedYaml
  import opened TemplateContent
  import opened Manifest

  const CompositionApiVersion := "apiextensions.crossplane.io/v1"
  const CompositionKind := "Composition"

  /** One row of the extracted data: the file, the composition's composite
      key, and the referenced resource's composite text, kind, API version
      and category. */
  datatype Record = Record(
    filePath: string,
    compositionKey: string,
    mrKey: string,
    kind: string,
    apiVersion: string,
    category: string,
    kindValue: KindValue)

  /** The result for one document: its rows; the `KeyError` raised when
      the placeholder row, which has no category, is turned into a row; or
      the `TypeError` raised when a function name that is a mapping or a
      list is added to the catalog. */
  datatype Outcome = Extracted(records: seq<Record>) | MissingCategory | UnhashableName

  /** The document's `apiVersion` and `kind` are those of a Composition. */
  predicate IsComposition(doc: Node)
    requires doc.Mapping?
  {
    Get(doc.entries, "apiVersion") == Some(Str(CompositionApiVersion)) &&
    Get(doc.entries, "kind") == Some(Str(CompositionKind))
  }

  /** Python's `node.get(key, default)` on a mapping. */
  function Field(node: Node, key: string, default: Node): Node
    requires node.Mapping?
  {
    Get(node.entries, key).GetOr(default)
  }

  const EmptyMapping := Mapping([])

  /** `doc.get("spec", {})`. */
  function Spec(doc: Node): Node
    requires doc.Mapping?
  {
    Field(doc, "spec", EmptyMapping)
  }

  /** `spec.get("compositeTypeRef", {})`. */
  function CompositeRef(doc: Node): Node
    requires doc.Mapping? && Spec(doc).Mapping?
  {
    Field(Spec(doc), "compositeTypeRef", EmptyMapping)
  }

  /** `spec.get("pipeline", [])`. */
  function Pipeline(doc: Node): Node
    requires doc.Mapping? && Spec(doc).Mapping?
  {
    Field(Spec(doc), "pipeline", List([]))
  }

  /** The steps a `for` loop over the pipeline visits: the items of a
      list, and none for an empty mapping or an empty string. */
  function Steps(doc: Node): seq<Node>
    requires doc.Mapping? && Spec(doc).Mapping?
  {
    match Pipeline(doc)
    case List(items) => items
    case _ => []
  }

  /** A pipeline step on which the lookups of the source succeed: the step,
      its `functionRef`, its `input` and the input's `inline` are mappings
      where present. */
  predicate StepOk(step: Node) {
    && step.Mapping?
    && Field(step, "functionRef", EmptyMapping).Mapping?
    && Field(step, "input", EmptyMapping).Mapping?
    && Field(Field(step, "input", EmptyMapping), "inline", EmptyMapping).Mapping?
  }

  /** A Composition on which the source's lookups succeed: `spec` and
      `compositeTypeRef` are mappings where present, and `pipeline` is a
      list of well-shaped steps, an empty mapping or an empty string. */
  predicate ShapeOk(doc: Node) {
    && doc.Mapping?
    && Spec(doc).Mapping?
    && CompositeRef(doc).Mapping?
    && (Pipeline(doc).List? || Pipeline(doc) == EmptyMapping || Pipeline(doc) == Str(""))
    && forall step :: step in Steps(doc) ==> StepOk(step)
  }

  /** `"<kind>_<apiVersion>"` of the composite type, with `N/A` for a
      missing field. */
  function CompositeKey(doc: Node): string
    requires ShapeOk(doc)
  {
    var ref := CompositeRef(doc).entries;
    GetText(ref, "kind") + "_" + GetText(ref, "apiVersion")
  }

  /** `step.get("functionRef", {}).get("name", "N/A")`. */
  function FunctionName(step: Node): string
    requires StepOk(step)
  {
    GetText(Field(step, "functionRef", EmptyMapping).entries, "name")
  }

  /** The function names of the first `n` steps, in order. */
  function FunctionRefs(steps: seq<Node>, n: nat): (names: seq<string>)
    requires n <= |steps| && forall step :: step in steps ==> StepOk(step)
    ensures |names| == n
    ensures forall i :: 0 <= i < n ==> names[i] == FunctionName(steps[i])
  {
    if n == 0 then [] else FunctionRefs(steps, n - 1) + [FunctionName(steps[n - 1])]
  }

  /** A value Python can put in a set: anything but a mapping or a list. */
  predicate IsHashable(n: Node) {
    !n.Mapping? && !n.List?
  }

  /** The step's `functionRef.name`, or its `N/A` default, is hashable. */
  predicate NameHashable(step: Node)
    requires StepOk(step)
  {
    match Get(Field(step, "functionRef", EmptyMapping).entries, "name")
    case Some(n) => IsHashable(n)
    case None => true
  }

  /** How many of the first `n` names `set.update` adds before it meets an
      unhashable one: the index of the first unhashable name, or `n`. */
  function HashablePrefix(steps: seq<Node>, n: nat): (k: nat)
    requires n <= |steps| && forall step :: step in steps ==> StepOk(step)
    ensures k <= n
    ensures forall i :: 0 <= i < k ==> NameHashable(steps[i])
    ensures k < n ==> !NameHashable(steps[k])
  {
    if n == 0 then 0
    else
      var k := HashablePrefix(steps, n - 1);
      if k < n - 1 then k
      else if NameHashable(steps[n - 1]) then n
      else n - 1
  }

  /** Every function name of the pipeline can be added to the catalog. */
  predicate NamesHashable(doc: Node)
    requires ShapeOk(doc)
  {
    HashablePrefix(Steps(doc), |Steps(doc)|) == |Steps(doc)|
  }

  /** The names a Composition adds to the function catalog: `set.update`
      adds them in step order and raises at the first unhashable one, so
      the names before it are added and no other. */
  function FunctionSet(doc: Node): set<string>
    requires ShapeOk(doc)
  {
    var steps := Steps(doc);
    NamesBefore(steps, HashablePrefix(steps, |steps|))
  }

  /** A name is in a Composition's catalog contribution exactly when it is
      the name of a step whose name, and every name before it, is hashable. */
  lemma FunctionSetNames(doc: Node)
    requires ShapeOk(doc)
    ensures forall x :: x in FunctionSet(doc) <==>
      exists i :: 0 <= i < |Steps(doc)| && x == FunctionName(Steps(doc)[i]) &&
        forall j :: 0 <= j <= i ==> NameHashable(Steps(doc)[j])
  {
    var steps := Steps(doc);
    var k := HashablePrefix(steps, |steps|);
    var names := FunctionRefs(steps, k);
    forall x
      ensures x in FunctionSet(doc) <==>
        exists i :: 0 <= i < |steps| && x == FunctionName(steps[i]) &&
          forall j :: 0 <= j <= i ==> NameHashable(steps[j])
    {
      if x in FunctionSet(doc) {
        var i :| 0 <= i < |names| && names[i] == x;
        assert forall j :: 0 <= j <= i ==> NameHashable(steps[j]);
      }
      if exists i :: 0 <= i < |steps| && x == FunctionName(steps[i]) &&
           forall j :: 0 <= j <= i ==> NameHashable(steps[j]) {
        var i :| 0 <= i < |steps| && x == FunctionName(steps[i]) &&
          forall j :: 0 <= j <= i ==> NameHashable(steps[j]);
        assert i < k;
        assert names[i] == x;
      }
    }
  }

  /** `set.update` stops at the first unhashable name, or gets through. */
  lemma HashablePrefixAt(steps: seq<Node>, k: nat)
    requires k <= |steps| && forall step :: step in steps ==> StepOk(step)
    requires forall i :: 0 <= i < k ==> NameHashable(steps[i])
    requires k < |steps| ==> !NameHashable(steps[k])
    ensures HashablePrefix(steps, |steps|) == k
  {
  }

  /** The names of the first `n` steps, as a set. */
  function NamesBefore(steps: seq<Node>, n: nat): set<string>
    requires n <= |steps| && forall step :: step in steps ==> StepOk(step)
  {
    var names := FunctionRefs(steps, n);
    set i | 0 <= i < |names| :: names[i]
  }

  /** One more step adds its name to the set of names before it. */
  lemma NamesBeforeStep(steps: seq<Node>, n: nat)
    requires n < |steps| && forall step :: step in steps ==> StepOk(step)
    ensures NamesBefore(steps, n + 1) == NamesBefore(steps, n) + {FunctionName(steps[n])}
  {
    var names := FunctionRefs(steps, n + 1);
    assert names == FunctionRefs(steps, n) + [FunctionName(steps[n])];
  }

  /** `step.get("input", {}).get("inline", {}).get("template", "")`. */
  function TemplateOf(step: Node): Node
    requires StepOk(step)
  {
    Field(Field(Field(step, "input", EmptyMapping), "inline", EmptyMapping), "template", Str(""))
  }

  /** The fragments recovered from a step's template. An empty template is
      skipped; a template that is not a string makes the extraction fail
      inside its own `try`, which yields no fragments. */
  function StepFragments(step: Node): seq<Fragment>
    requires StepOk(step)
  {
    match TemplateOf(step)
    case Str(s) => if s != "" then Extract(s) else []
    case _ => []
  }

  /** The walk over each fragment of `fs`, each turned into its mapping. */
  function FragmentAssocs(fs: seq<Fragment>, n: nat): seq<Assoc>
    requires n <= |fs|
  {
    if n == 0 then []
    else FragmentAssocs(fs, n - 1) + Search(FragmentNode(fs[n - 1].apiVersion, fs[n - 1].kind))
  }

  /** The fragments of each step, in step order. */
  function StepsFragments(steps: seq<Node>): (fss: seq<seq<Fragment>>)
    requires forall step :: step in steps ==> StepOk(step)
    ensures |fss| == |steps|
  {
    seq(|steps|, i requires 0 <= i < |steps| => StepFragments(steps[i]))
  }

  /** The fragments of each pipeline step of a Composition. */
  function PipelineFragments(doc: Node): (fss: seq<seq<Fragment>>)
    requires ShapeOk(doc)
  {
    StepsFragments(Steps(doc))
  }

  /** The template-derived associations of the first `n` steps, given the
      fragments of each step. */
  function TemplateAssocs(fss: seq<seq<Fragment>>, n: nat): seq<Assoc>
    requires n <= |fss|
  {
    if n == 0 then [] else TemplateAssocs(fss, n - 1) + FragmentAssocs(fss[n - 1], |fss[n - 1]|)
  }

  /** Everything the walks append: the whole document first, then the
      templates' fragments in step order. */
  function Assocs(doc: Node): seq<Assoc>
    requires ShapeOk(doc)
  {
    var fss := PipelineFragments(doc);
    Search(doc) + TemplateAssocs(fss, |fss|)
  }

  /** The row for one association. */
  function ToRecord(filePath: string, key: string, a: Assoc): Record {
    Record(filePath, key, a.kindApiVersion, a.kind, a.apiVersion, a.category, a.kindValue)
  }

  /** The rows for a sequence of associations, in order. */
  function RecordsOf(filePath: string, key: string, assocs: seq<Assoc>): (rs: seq<Record>)
    ensures |rs| == |assocs|
    ensures forall i :: 0 <= i < |assocs| ==> rs[i] == ToRecord(filePath, key, assocs[i])
  {
    if assocs == [] then []
    else RecordsOf(filePath, key, assocs[..|assocs| - 1]) + [ToRecord(filePath, key, assocs[|assocs| - 1])]
  }

  /** The result of analysing one document. A document that is not a
      Composition gives no rows. A Composition with an unhashable function
      name fails when its names are added to the catalog. Otherwise it
      gives one row per association; with none, the placeholder would be
      used and would fail for lack of a category. */
  function CompositionDetails(doc: Node, filePath: string): Outcome
    requires doc.Mapping? && (IsComposition(doc) ==> ShapeOk(doc))
  {
    if !IsComposition(doc) then Extracted([])
    else
      var assocs := Assocs(doc);
      if !NamesHashable(doc) then UnhashableName
      else if assocs == [] then MissingCategory
      else Extracted(RecordsOf(filePath, CompositeKey(doc), assocs))
  }

  /** The association of a Composition with itself. */
  const SelfAssoc := Assoc(CompositionKind + "_" + CompositionApiVersion, CompositionKind, CompositionApiVersion, "apiextensions", Hashable)

  /** A Composition's own `apiVersion` passes the filter, so the walk over
      the document always emits the Composition's association with itself,
      in the `apiextensions` category. */
  lemma SelfAssocEmitted(doc: Node)
    requires doc.Mapping? && IsComposition(doc)
    ensures SelfAssoc in Search(doc)
  {
    FilterExamples();
    CategoryOfComposition();
    OwnAssocEmitted(doc, CompositionApiVersion);
    assert KindOf(doc.entries) == CompositionKind;
  }

  /** The placeholder is never used: no document fails for a missing
      category, every document gives rows unless it is a Composition with
      an unhashable function name, and the rows of a Composition always
      include the row of its self-association. */
  lemma PlaceholderUnreachable(doc: Node, filePath: string)
    requires doc.Mapping? && (IsComposition(doc) ==> ShapeOk(doc))
    ensures !CompositionDetails(doc, filePath).MissingCategory?
    ensures CompositionDetails(doc, filePath).Extracted? <==> !IsComposition(doc) || NamesHashable(doc)
    ensures IsComposition(doc) && NamesHashable(doc) ==>
      ToRecord(filePath, CompositeKey(doc), SelfAssoc) in CompositionDetails(doc, filePath).records
  {
    if IsComposition(doc) {
      SelfAssocEmitted(doc);
      var assocs := Assocs(doc);
      var i :| 0 <= i < |Search(doc)| && Search(doc)[i] == SelfAssoc;
      assert assocs[i] == SelfAssoc;
      var rs := RecordsOf(filePath, CompositeKey(doc), assocs);
      assert rs[i] == ToRecord(filePath, CompositeKey(doc), SelfAssoc);
    }
  }

  /** The association a recovered fragment stands for. */
  function FragmentAssoc(f: Fragment): (a: Assoc)
    ensures WellFormed(a) <==> IsCrossplaneOrUpbound(f.apiVersion)
  {
    Assoc(f.kind + "_" + f.apiVersion, f.kind, f.apiVersion, Category(f.apiVersion), Hashable)
  }

  /** The associations of the fragments whose API version passes the
      filter, in order. */
  function Accepted(fs: seq<Fragment>): seq<Assoc> {
    if fs == [] then []
    else
      var f := fs[|fs| - 1];
      Accepted(fs[..|fs| - 1]) + (if IsCrossplaneOrUpbound(f.apiVersion) then [FragmentAssoc(f)] else [])
  }

  lemma {:induction false} AcceptedAppend(a: seq<Fragment>, b: seq<Fragment>)
    ensures Accepted(a + b) == Accepted(a) + Accepted(b)
    decreases |b|
  {
    if b == [] {
      assert a + b == a;
    } else {
      assert (a + b)[..|a + b| - 1] == a + b[..|b| - 1];
      AcceptedAppend(a, b[..|b| - 1]);
    }
  }

  /** The fragments of the first `n` steps, one step after another. */
  function Flatten(fss: seq<seq<Fragment>>, n: nat): seq<Fragment>
    requires n <= |fss|
  {
    if n == 0 then [] else Flatten(fss, n - 1) + fss[n - 1]
  }

  /** Walking a fragment's mapping gives its association exactly when its
      API version passes the filter: fragments do get a category. */
  lemma {:induction false} FragmentAssocsAccepted(fs: seq<Fragment>, n: nat)
    requires n <= |fs|
    ensures FragmentAssocs(fs, n) == Accepted(fs[..n])
  {
    if n > 0 {
      FragmentAssocsAccepted(fs, n - 1);
      FragmentSearch(fs[n - 1].apiVersion, fs[n - 1].kind);
      assert fs[..n][..n - 1] == fs[..n - 1];
    }
  }

  /** The template pass yields the associations of the accepted fragments
      of all steps, in step order and, within a step, in template order. */
  lemma {:induction false} TemplateAssocsAccepted(fss: seq<seq<Fragment>>, n: nat)
    requires n <= |fss|
    ensures TemplateAssocs(fss, n) == Accepted(Flatten(fss, n))
  {
    if n > 0 {
      var fs := fss[n - 1];
      var prev := Flatten(fss, n - 1);
      TemplateAssocsAccepted(fss, n - 1);
      FragmentAssocsAccepted(fs, |fs|);
      assert fs[..|fs|] == fs;
      AcceptedAppend(prev, fs);
      assert Flatten(fss, n) == prev + fs;
      assert TemplateAssocs(fss, n) == TemplateAssocs(fss, n - 1) + FragmentAssocs(fs, |fs|);
    }
  }

  /** Every accepted fragment's association is well formed. */
  lemma {:induction false} AcceptedWellFormed(fs: seq<Fragment>)
    ensures forall a :: a in Accepted(fs) ==> WellFormed(a)
  {
    if fs != [] {
      AcceptedWellFormed(fs[..|fs| - 1]);
    }
  }

  /** The rows of a Composition come in the order the walks appended
      them: first those of the walk over the whole document, then those of
      the accepted template fragments in pipeline order. */
  lemma CompositionRecordsOrdered(doc: Node, filePath: string)
    requires doc.Mapping? && IsComposition(doc) && ShapeOk(doc)
    ensures CompositionDetails(doc, filePath).Extracted? <==> NamesHashable(doc)
    ensures CompositionDetails(doc, filePath).Extracted? ==> var rs := CompositionDetails(doc, filePath).records;
      var fss := PipelineFragments(doc);
      var n := |Search(doc)|;
      && |rs| == n + |Accepted(Flatten(fss, |fss|))|
      && rs[..n] == RecordsOf(filePath, CompositeKey(doc), Search(doc))
      && rs[n..] == RecordsOf(filePath, CompositeKey(doc), Accepted(Flatten(fss, |fss|)))
  {
    var fss := PipelineFragments(doc);
    PlaceholderUnreachable(doc, filePath);
    TemplateAssocsAccepted(fss, |fss|);
    RecordsOfAppend(filePath, CompositeKey(doc), Search(doc), Accepted(Flatten(fss, |fss|)));
  }

  lemma RecordsOfAppend(filePath: string, key: string, a: seq<Assoc>, b: seq<Assoc>)
    ensures var rs := RecordsOf(filePath, key, a + b);
      rs[..|a|] == RecordsOf(filePath, key, a) && rs[|a|..] == RecordsOf(filePath, key, b)
  {
  }

  /** Every row of a Composition carries the file path and the composite
      key, and names a resource whose API version passes the filter, with
      that version's category and the kind and version joined by `_`. */
  lemma CompositionRecordsConsistent(doc: Node, filePath: string)
    requires doc.Mapping? && IsComposition(doc) && ShapeOk(doc)
    ensures CompositionDetails(doc, filePath).Extracted? <==> NamesHashable(doc)
    ensures CompositionDetails(doc, filePath).Extracted? ==> forall r :: r in CompositionDetails(doc, filePath).records ==>
      && r.filePath == filePath && r.compositionKey == CompositeKey(doc)
      && r.mrKey == r.kind + "_" + r.apiVersion
      && IsCrossplaneOrUpbound(r.apiVersion) && r.category == Category(r.apiVersion)
  {
    var fss := PipelineFragments(doc);
    PlaceholderUnreachable(doc, filePath);
    TemplateAssocsAccepted(fss, |fss|);
    SearchWellFormed(doc);
    AcceptedWellFormed(Flatten(fss, |fss|));
    var assocs := Assocs(doc);
    assert forall a :: a in assocs ==> WellFormed(a);
    RecordsOfWellFormed(filePath, CompositeKey(doc), assocs);
  }

  /** Rows built from well-formed associations share the path and key and
      keep the associations' properties. */
  lemma RecordsOfWellFormed(filePath: string, key: string, assocs: seq<Assoc>)
    requires forall a :: a in assocs ==> WellFormed(a)
    ensures forall r :: r in RecordsOf(filePath, key, assocs) ==>
      && r.filePath == filePath && r.compositionKey == key
      && r.mrKey == r.kind + "_" + r.apiVersion
      && IsCrossplaneOrUpbound(r.apiVersion) && r.category == Category(r.apiVersion)
  {
    var rs := RecordsOf(filePath, key, assocs);
    forall r | r in rs
      ensures r.filePath == filePath && r.compositionKey == key
      ensures r.mrKey == r.kind + "_" + r.apiVersion
      ensures IsCrossplaneOrUpbound(r.apiVersion) && r.category == Category(r.apiVersion)
    {
      var i :| 0 <= i < |rs| && rs[i] == r;
      assert assocs[i] in assocs;
    }
  }

  /** A document on which the analysis does not fail inside its `.get`
      chains: anything but a Composition whose `spec`, `compositeTypeRef`
      or pipeline has the wrong shape. */
  predicate Loadable(doc: Node) {
    doc.Mapping? && IsComposition(doc) ==> ShapeOk(doc)
  }

  /** Python's truth value of a loaded document: `None`, an empty mapping,
      list or string, and a zero or `False` scalar are false. */
  predicate Truthy(doc: Node) {
    match doc
    case Mapping(entries) => entries != []
    case List(items) => items != []
    case Str(s) => s != ""
    case Scalar(t) => t != "0" && t != "False" && t != "0.0" && t != "-0.0"
    case Null => false
  }

  /** The rows the documents of one file add, in document order. False
      documents are skipped. A true document that is not a mapping raises
      `AttributeError` at its first `.get`, an unhashable function name
      raises `TypeError` and a missing category raises `KeyError`; each
      abandons the rest of the file. */
  function FileRecords(docs: seq<Node>, filePath: string): seq<Record>
    requires forall i :: 0 <= i < |docs| ==> Loadable(docs[i])
    decreases |docs|
  {
    if docs == [] then []
    else if !Truthy(docs[0]) then FileRecords(docs[1..], filePath)
    else if !docs[0].Mapping? then []
    else
      assert Loadable(docs[0]);
      match CompositionDetails(docs[0], filePath)
      case Extracted(rs) => rs + FileRecords(docs[1..], filePath)
      case _ => []
  }

  /** The function names the documents of one file add to the catalog. A
      document that raises a `KeyError` has added its names before raising,
      and one that raises a `TypeError` the names before the unhashable one. */
  function FileFunctions(docs: seq<Node>, filePath: string): set<string>
    requires forall i :: 0 <= i < |docs| ==> Loadable(docs[i])
    decreases |docs|
  {
    if docs == [] then {}
    else if !Truthy(docs[0]) then FileFunctions(docs[1..], filePath)
    else if !docs[0].Mapping? then {}
    else
      assert Loadable(docs[0]);
      (if IsComposition(docs[0]) then FunctionSet(docs[0]) else {}) +
      (if CompositionDetails(docs[0], filePath).Extracted? then FileFunctions(docs[1..], filePath)
       else {})
  }

  /** Every row a file adds carries the file's path and names an accepted
      resource with its category and composite text. */
  lemma {:induction false} FileRecordsConsistent(docs: seq<Node>, filePath: string)
    requires forall i :: 0 <= i < |docs| ==> Loadable(docs[i])
    ensures forall r :: r in FileRecords(docs, filePath) ==>
      && r.filePath == filePath
      && r.mrKey == r.kind + "_" + r.apiVersion
      && IsCrossplaneOrUpbound(r.apiVersion) && r.category == Category(r.apiVersion)
    decreases |docs|
  {
    if docs != [] {
      FileRecordsConsistent(docs[1..], filePath);
      var doc := docs[0];
      if Truthy(doc) && doc.Mapping? && IsComposition(doc) {
        CompositionRecordsConsistent(doc, filePath);
      }
    }
  }

  /** No missing category abandons a file: every Composition the loop
      reaches, and whose function names are hashable, contributes the row
      of its self-association. The loop reaches a document when no true
      non-mapping document and no Composition with an unhashable function
      name comes before it. */
  lemma {:induction false} FileRecordsComplete(docs: seq<Node>, filePath: string, k: nat)
    requires forall i :: 0 <= i < |docs| ==> Loadable(docs[i])
    requires k < |docs| && docs[k].Mapping? && Truthy(docs[k]) && IsComposition(docs[k])
    requires forall i :: 0 <= i < k && Truthy(docs[i]) ==>
      docs[i].Mapping? && (IsComposition(docs[i]) ==> ShapeOk(docs[i]) && NamesHashable(docs[i]))
    requires ShapeOk(docs[k]) && NamesHashable(docs[k])
    ensures ToRecord(filePath, CompositeKey(docs[k]), SelfAssoc) in FileRecords(docs, filePath)
    decreases k
  {
    assert Loadable(docs[0]);
    if Truthy(docs[0]) && docs[0].Mapping? {
      PlaceholderUnreachable(docs[0], filePath);
    }
    if k > 0 {
      FileRecordsComplete(docs[1..], filePath, k - 1);
    }
  }

  /** A Composition with an unhashable function name ends its file: the
      file adds no rows, and only the names before the unhashable one. */
  lemma UnhashableNameEndsFile(docs: seq<Node>, filePath: string)
    requires forall i :: 0 <= i < |docs| ==> Loadable(docs[i])
    requires docs != [] && docs[0].Mapping? && Truthy(docs[0]) && IsComposition(docs[0])
    requires ShapeOk(docs[0]) && !NamesHashable(docs[0])
    ensures FileRecords(docs, filePath) == []
    ensures FileFunctions(docs, filePath) == FunctionSet(docs[0])
  {
    assert CompositionDetails(docs[0], filePath) == UnhashableName;
  }

  /** The analyser's state: the rows extracted so far and the catalog of
      function names the pipelines call. */
  class CompositionExtractor {
    var extractedData: seq<Record>
    var uniqueFunctions: set<string>

    constructor ()
      ensures extractedData == [] && uniqueFunctions == {}
    {
      extractedData := [];
      uniqueFunctions := {};
    }

    /** Analyses one document. A document that is not a Composition gives
        no rows and leaves the catalog alone; a Composition adds its
        pipeline's function names to the catalog and gives its rows. */
    method ExtractCompositionDetails(doc: Node, filePath: string) returns (r: Outcome)
      requires doc.Mapping? && (IsComposition(doc) ==> ShapeOk(doc))
      modifies this
      ensures r == CompositionDetails(doc, filePath)
      ensures extractedData == old(extractedData)
      ensures uniqueFunctions == old(uniqueFunctions) + (if IsComposition(doc) then FunctionSet(doc) else {})
    {
      if Get(doc.entries, "apiVersion") != Some(Str(CompositionApiVersion)) ||
         Get(doc.entries, "kind") != Some(Str(CompositionKind)) {
        return Extracted([]);
      }
      var key := CompositeKey(doc);
      var special := CollectAssocs(doc);
      var added := UpdateFunctions(Steps(doc));
      if !added {
        return UnhashableName;
      }
      if special == [] {
        return MissingCategory;
      }
      var rows := BuildRecords(filePath, key, special);
      return Extracted(rows);
    }

    /** Analyses the documents of one file in order, appending each
        document's rows; an exception ends the file early. */
    method ExtractDocuments(docs: seq<Node>, filePath: string)
      requires forall i :: 0 <= i < |docs| ==> Loadable(docs[i])
      modifies this
      ensures extractedData == old(extractedData) + FileRecords(docs, filePath)
      ensures uniqueFunctions == old(uniqueFunctions) + FileFunctions(docs, filePath)
    {
      var i := 0;
      while i < |docs|
        invariant 0 <= i <= |docs|
        invariant extractedData + FileRecords(docs[i..], filePath) == old(extractedData) + FileRecords(docs, filePath)
        invariant uniqueFunctions + FileFunctions(docs[i..], filePath) == old(uniqueFunctions) + FileFunctions(docs, filePath)
      {
        var doc := docs[i];
        assert docs[i..][1..] == docs[i + 1..];
        if Truthy(doc) {
          if !doc.Mapping? {
            return;
          }
          var r := ExtractCompositionDetails(doc, filePath);
          if !r.Extracted? {
            return;
          }
          assert extractedData + r.records + FileRecords(docs[i + 1..], filePath) ==
                 extractedData + (r.records + FileRecords(docs[i + 1..], filePath));
          extractedData := extractedData + r.records;
        }
        i := i + 1;
      }
    }

    /** The two walks of a Composition: the whole document, then the
        templates of its pipeline steps. */
    static method CollectAssocs(doc: Node) returns (special: seq<Assoc>)
      requires ShapeOk(doc)
      ensures special == Assocs(doc)
    {
      var steps := Steps(doc);
      var whole := SearchInto(doc, []);
      assert whole == Search(doc);
      special := SearchTemplates(steps, whole);
      assert PipelineFragments(doc) == StepsFragments(steps);
    }

    /** `unique_functions.update(function_refs)`: the names are added in
        step order until one cannot be hashed, and `added` tells whether
        all of them were. */
    method UpdateFunctions(steps: seq<Node>) returns (added: bool)
      requires forall step :: step in steps ==> StepOk(step)
      modifies this
      ensures added <==> HashablePrefix(steps, |steps|) == |steps|
      ensures uniqueFunctions == old(uniqueFunctions) + NamesBefore(steps, HashablePrefix(steps, |steps|))
      ensures extractedData == old(extractedData)
    {
      var i := 0;
      while i < |steps|
        invariant 0 <= i <= |steps|
        invariant forall j :: 0 <= j < i ==> NameHashable(steps[j])
        invariant uniqueFunctions == old(uniqueFunctions) + NamesBefore(steps, i)
        invariant extractedData == old(extractedData)
      {
        if !NameHashable(steps[i]) {
          HashablePrefixAt(steps, i);
          return false;
        }
        uniqueFunctions := uniqueFunctions + {FunctionName(steps[i])};
        NamesBeforeStep(steps, i);
        i := i + 1;
      }
      HashablePrefixAt(steps, i);
      return true;
    }

    /** The template pass over all pipeline steps, in order. */
    static method SearchTemplates(steps: seq<Node>, found: seq<Assoc>) returns (out: seq<Assoc>)
      requires forall step :: step in steps ==> StepOk(step)
      ensures out == found + TemplateAssocs(StepsFragments(steps), |steps|)
    {
      out := found;
      var i := 0;
      while i < |steps|
        invariant 0 <= i <= |steps|
        invariant out == found + TemplateAssocs(StepsFragments(steps), i)
      {
        out := SearchStep(steps, i, found, out);
        i := i + 1;
      }
    }

    /** The template pass over step `i`, after the steps before it. */
    static method SearchStep(steps: seq<Node>, i: nat, found: seq<Assoc>, sofar: seq<Assoc>) returns (out: seq<Assoc>)
      requires i < |steps| && forall step :: step in steps ==> StepOk(step)
      requires sofar == found + TemplateAssocs(StepsFragments(steps), i)
      ensures out == found + TemplateAssocs(StepsFragments(steps), i + 1)
    {
      ghost var fss := StepsFragments(steps);
      assert steps[i] in steps;
      out := SearchTemplate(steps[i], sofar);
      assert fss[i] == StepFragments(steps[i]);
      ConcatAssoc3(found, TemplateAssocs(fss, i), FragmentAssocs(fss[i], |fss[i]|));
    }

    /** One row per association, in order, each with the file path and the
        composite key. */
    static method BuildRecords(filePath: string, key: string, special: seq<Assoc>) returns (rows: seq<Record>)
      ensures rows == RecordsOf(filePath, key, special)
    {
      rows := [];
      var j := 0;
      while j < |special|
        invariant 0 <= j <= |special|
        invariant rows == RecordsOf(filePath, key, special[..j])
      {
        var a := special[j];
        rows := rows + [Record(filePath, key, a.kindApiVersion, a.kind, a.apiVersion, a.category, a.kindValue)];
        assert special[..j + 1][..j] == special[..j];
        j := j + 1;
      }
      assert special[..|special|] == special;
    }

    /** The template pass over one step: a non-empty template string is cut
        into fragments and each fragment's mapping is walked. */
    static method SearchTemplate(step: Node, found: seq<Assoc>) returns (out: seq<Assoc>)
      requires StepOk(step)
      ensures out == found + FragmentAssocs(StepFragments(step), |StepFragments(step)|)
    {
      out := found;
      var template := TemplateOf(step);
      if template.Str? && template.s != "" {
        var templateDocs := ExtractTemplateContent(template.s);
        assert templateDocs == StepFragments(step);
        var k := 0;
        while k < |templateDocs|
          invariant 0 <= k <= |templateDocs|
          invariant out == found + FragmentAssocs(templateDocs, k)
        {
          var f := templateDocs[k];
          out := SearchInto(FragmentNode(f.apiVersion, f.kind), out);
          ConcatAssoc3(found, FragmentAssocs(templateDocs, k), Search(FragmentNode(f.apiVersion, f.kind)));
          k := k + 1;
        }
      } else {
        assert StepFragments(step) == [];
      }
    }
  }
}
