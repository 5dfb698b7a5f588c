/** Recovery of resource fragments from the inline Go-template body of a
    pipeline step. A two-state line scanner (outside / inside a fragment)
    cuts the body into fragments and hands each one, joined with spaces,
    to the templated-fragment parser. */
module TemplateContent {
  import opened Strings
  import opened Wrappers
  import opened TemplatedYaml

  /** The (start marker, confirm marker) pairs that open a fragment, in
      the order they are tried. */
  const ResourceMarkers: seq<(string, string)> := [("apiVersion:", "kind:"), ("apiVersion:", "metadata:")]

  /** A line whose stripped text starts with `#`. */
  predicate IsComment(line: string) {
    var t := Strip(line);
    |t| > 0 && t[0] == '#'
  }

  /** A line whose stripped text is exactly `---`. */
  predicate IsSeparator(line: string) {
    Strip(line) == "---"
  }

  /** Python's `lines.index(lines[j])`: the first line with the same text. */
  function FirstIndex(lines: seq<string>, j: nat): (i: nat)
    requires j < |lines|
    ensures i <= j && lines[i] == lines[j]
    ensures forall k :: 0 <= k < i ==> lines[k] != lines[j]
  {
    IndexFrom(lines, j, 0)
  }

  /** The first index at or after `from` whose line equals line `j`. */
  function IndexFrom(lines: seq<string>, j: nat, from: nat): (i: nat)
    requires from <= j < |lines|
    requires forall k :: 0 <= k < from ==> lines[k] != lines[j]
    ensures from <= i <= j && lines[i] == lines[j]
    ensures forall k :: 0 <= k < i ==> lines[k] != lines[j]
    decreases j - from
  {
    if lines[from] == lines[j] then from else IndexFrom(lines, j, from + 1)
  }

  /** The lookahead window of line `j`: up to three lines, starting at the
      first line whose text equals line `j`, concatenated without separator. */
  function Window(lines: seq<string>, j: nat): string
    requires j < |lines|
  {
    var i := FirstIndex(lines, j);
    var e := if i + 3 <= |lines| then i + 3 else |lines|;
    Join(lines[i..e], "")
  }

  /** Marker pair `m` fires on line `j`. */
  predicate MarkerFires(lines: seq<string>, j: nat, m: nat)
    requires j < |lines| && m < |ResourceMarkers|
  {
    Contains(lines[j], ResourceMarkers[m].0) && Contains(Window(lines, j), ResourceMarkers[m].1)
  }

  /** Line `j` opens a new fragment: one of the two marker pairs fires on it. */
  predicate Opens(lines: seq<string>, j: nat)
    requires j < |lines|
  {
    MarkerFires(lines, j, 0) || MarkerFires(lines, j, 1)
  }

  /** The scanner's state: the `in_yaml` flag, the `current_doc` buffer and
      the `yaml_docs` output, where `None` is a parse that found nothing. */
  datatype ScanState = ScanState(inYaml: bool, current: seq<string>, docs: seq<Option<Fragment>>)

  const Initial := ScanState(false, [], [])

  /** The fragment parser applied to a buffer joined with spaces. */
  function Flush(current: seq<string>): Option<Fragment> {
    ParseTemplatedYaml(Join(current, " "))
  }

  /** The output after flushing a non-empty buffer. */
  function FlushInto(docs: seq<Option<Fragment>>, current: seq<string>): seq<Option<Fragment>> {
    if current != [] then docs + [Flush(current)] else docs
  }

  /** How the scan treats one line: whether it is a comment, whether it
      opens a fragment, and whether it is a `---` separator. */
  datatype LineClass = LineClass(comment: bool, opens: bool, separator: bool)

  /** The class of line `j`. */
  function ClassOf(lines: seq<string>, j: nat): LineClass
    requires j < |lines|
  {
    LineClass(IsComment(lines[j]), Opens(lines, j), IsSeparator(lines[j]))
  }

  /** The state once a fragment is opened: a pending fragment is flushed
      and the buffer starts empty. */
  function Open(st: ScanState): ScanState {
    ScanState(true, [], if st.inYaml then FlushInto(st.docs, st.current) else st.docs)
  }

  /** One iteration of the scan over a line of class `c`: comment lines are
      skipped, an opening line opens a fragment, the line is buffered inside
      a fragment, and a separator inside a fragment closes it. */
  function Advance(c: LineClass, line: string, st: ScanState): ScanState {
    if c.comment then st
    else
      var marked := if c.opens then Open(st) else st;
      var buffered := if marked.inYaml then marked.(current := marked.current + [line]) else marked;
      if c.separator && buffered.inYaml
      then ScanState(false, [], FlushInto(buffered.docs, buffered.current))
      else buffered
  }

  /** One iteration of the scan over line `j`. */
  function Step(lines: seq<string>, j: nat, st: ScanState): ScanState
    requires j < |lines|
  {
    Advance(ClassOf(lines, j), lines[j], st)
  }

  /** The classes of all lines, in order. */
  function Classes(lines: seq<string>): seq<LineClass> {
    seq(|lines|, j requires 0 <= j < |lines| => ClassOf(lines, j))
  }

  /** The state after the first `n` lines of the given classes. */
  function Scan(classes: seq<LineClass>, lines: seq<string>, n: nat): ScanState
    requires n <= |classes| && n <= |lines|
  {
    if n == 0 then Initial else Advance(classes[n - 1], lines[n - 1], Scan(classes, lines, n - 1))
  }

  /** The state after the first `n` lines of the body. */
  function Run(lines: seq<string>, n: nat): ScanState
    requires n <= |lines|
  {
    Scan(Classes(lines), lines, n)
  }

  /** The parsed fragments that found both keys, in order. */
  function Found(docs: seq<Option<Fragment>>): (r: seq<Fragment>)
    ensures |r| <= |docs|
    ensures forall f :: f in r <==> Some(f) in docs
  {
    if docs == [] then []
    else
      var rest := Found(docs[..|docs| - 1]);
      assert docs == docs[..|docs| - 1] + [docs[|docs| - 1]];
      match docs[|docs| - 1]
      case Some(f) => rest + [f]
      case None => rest
  }

  /** Filtering distributes over concatenation: every successful parse
      is kept, duplicates included, and in order. */
  lemma {:induction false} FoundAppend(a: seq<Option<Fragment>>, b: seq<Option<Fragment>>)
    ensures Found(a + b) == Found(a) + Found(b)
    decreases |b|
  {
    if b == [] {
      assert a + b == a;
    } else {
      var init := b[..|b| - 1];
      FoundAppend(a, init);
      assert (a + b)[..|a + b| - 1] == a + init;
      assert (a + b)[|a + b| - 1] == b[|b| - 1];
    }
  }

  /** A single successful parse is kept; a single empty one is dropped. */
  lemma FoundOne(f: Fragment)
    ensures Found([Some(f)]) == [f]
    ensures Found([None]) == []
  {
    assert [Some(f)][..0] == [];
    var none: seq<Option<Fragment>> := [None];
    assert none[..0] == [];
  }

  /** The result of the extraction: the scan over all lines of the body,
      the last buffer flushed, and the empty parses dropped. */
  function Extract(template: string): seq<Fragment> {
    var lines := Split(template, '\n');
    ExtractFrom(Classes(lines), lines, 0, Initial)
  }

  /** What the extraction returns once it reaches line `j` in state `st`:
      the remaining lines, of the given classes, are scanned, then the last
      buffer is flushed and the empty parses dropped. */
  function ExtractFrom(classes: seq<LineClass>, lines: seq<string>, j: nat, st: ScanState): seq<Fragment>
    requires j <= |lines| <= |classes|
    decreases |lines| - j
  {
    if j == |lines| then Found(FlushInto(st.docs, st.current))
    else ExtractFrom(classes, lines, j + 1, Advance(classes[j], lines[j], st))
  }

  /** The state once the marker pairs have been tried on line `j`. */
  function AfterMarkers(lines: seq<string>, j: nat, st: ScanState): ScanState
    requires j < |lines|
  {
    if Opens(lines, j) then Open(st) else st
  }

  /** The marker loop over one non-comment line: the pairs are tried in
      order, and the first that fires flushes a pending fragment and opens
      a new one. */
  method TryMarkers(lines: seq<string>, j: nat, inYaml: bool, currentDoc: seq<string>, yamlDocs: seq<Option<Fragment>>)
    returns (inYaml': bool, currentDoc': seq<string>, yamlDocs': seq<Option<Fragment>>)
    requires j < |lines|
    ensures ScanState(inYaml', currentDoc', yamlDocs') == AfterMarkers(lines, j, ScanState(inYaml, currentDoc, yamlDocs))
  {
    inYaml', currentDoc', yamlDocs' := inYaml, currentDoc, yamlDocs;
    var line := lines[j];
    var m := 0;
    while m < |ResourceMarkers|
      invariant 0 <= m <= |ResourceMarkers|
      invariant forall p :: 0 <= p < m ==> !MarkerFires(lines, j, p)
    {
      var (start, confirm) := ResourceMarkers[m];
      if Contains(line, start) && Contains(Window(lines, j), confirm) {
        assert MarkerFires(lines, j, m);
        if inYaml && currentDoc != [] {
          yamlDocs' := yamlDocs + [Flush(currentDoc)];
        }
        currentDoc' := [];
        inYaml' := true;
        return;
      }
      m := m + 1;
    }
  }

  /** One iteration of the scan: comment lines are skipped, the markers
      are tried, the line is buffered inside a fragment, and a `---` line
      inside a fragment closes it. */
  method ScanLine(lines: seq<string>, j: nat, inYaml: bool, currentDoc: seq<string>, yamlDocs: seq<Option<Fragment>>)
    returns (inYaml': bool, currentDoc': seq<string>, yamlDocs': seq<Option<Fragment>>)
    requires j < |lines|
    ensures ScanState(inYaml', currentDoc', yamlDocs') == Step(lines, j, ScanState(inYaml, currentDoc, yamlDocs))
  {
    inYaml', currentDoc', yamlDocs' := inYaml, currentDoc, yamlDocs;
    var line := lines[j];
    if IsComment(line) {
      return;
    }
    inYaml', currentDoc', yamlDocs' := TryMarkers(lines, j, inYaml, currentDoc, yamlDocs);
    if inYaml' {
      currentDoc' := currentDoc' + [line];
    }
    if IsSeparator(line) && inYaml' {
      if currentDoc' != [] {
        yamlDocs' := yamlDocs' + [Flush(currentDoc')];
      }
      currentDoc' := [];
      inYaml' := false;
    }
  }

  /** The extraction as the source performs it: one pass over the lines,
      then the last buffer is flushed and the empty parses dropped. */
  method ExtractTemplateContent(template: string) returns (found: seq<Fragment>)
    ensures found == Extract(template)
  {
    var lines := Split(template, '\n');
    var yamlDocs: seq<Option<Fragment>> := [];
    var currentDoc: seq<string> := [];
    var inYaml := false;
    var j := 0;
    while j < |lines|
      invariant 0 <= j <= |lines|
      invariant ExtractFrom(Classes(lines), lines, j, ScanState(inYaml, currentDoc, yamlDocs)) == Extract(template)
    {
      inYaml, currentDoc, yamlDocs := ScanLine(lines, j, inYaml, currentDoc, yamlDocs);
      j := j + 1;
    }
    yamlDocs := FlushInto(yamlDocs, currentDoc);
    found := Found(yamlDocs);
  }

  /** The number of lines among the first `n` that open a fragment: lines
      that are not comments, contain `apiVersion:`, and whose window holds
      `kind:` or `metadata:`. */
  function OpenCount(classes: seq<LineClass>, n: nat): nat
    requires n <= |classes|
  {
    if n == 0 then 0 else OpenCount(classes, n - 1) + OpensAt(classes[n - 1])
  }

  /** 1 for a line that opens a fragment, else 0. */
  function OpensAt(c: LineClass): nat {
    if !c.comment && c.opens then 1 else 0
  }

  /** Every parse in the output found both keys with proper values, or found nothing. */
  predicate ParsedValues(docs: seq<Option<Fragment>>) {
    forall k :: 0 <= k < |docs| && docs[k].Some? ==>
      IsValue(docs[k].value.apiVersion) && IsValue(docs[k].value.kind)
  }

  /** What the scan keeps true after every line: the buffer is empty outside
      a fragment and never holds a comment line, every output entry is a
      parse of a buffer, and each output entry, like the open fragment,
      was started by a distinct one of `opens` opening lines. */
  predicate ScanInvariant(st: ScanState, opens: nat) {
    && (!st.inYaml ==> st.current == [])
    && NoComments(st.current)
    && ParsedValues(st.docs)
    && |st.docs| + (if st.inYaml then 1 else 0) <= opens
  }

  /** No buffered line is a comment line. */
  predicate NoComments(current: seq<string>) {
    forall k :: 0 <= k < |current| ==> !IsComment(current[k])
  }

  /** Flushing a buffer keeps the parsed values proper. */
  lemma FlushKeepsValues(docs: seq<Option<Fragment>>, current: seq<string>)
    requires ParsedValues(docs)
    ensures ParsedValues(FlushInto(docs, current))
  {
  }

  /** One line preserves the invariant; an opening line adds one opening. */
  lemma AdvanceInvariant(c: LineClass, line: string, st: ScanState, opens: nat)
    requires ScanInvariant(st, opens) && c.comment == IsComment(line)
    ensures ScanInvariant(Advance(c, line, st), opens + OpensAt(c))
  {
    if !c.comment {
      var marked := if c.opens then Open(st) else st;
      FlushKeepsValues(st.docs, st.current);
      var n := opens + OpensAt(c);
      assert ScanInvariant(marked, n);
      var buffered := if marked.inYaml then marked.(current := marked.current + [line]) else marked;
      assert ScanInvariant(buffered, n);
      FlushKeepsValues(buffered.docs, buffered.current);
    }
  }

  /** Unfolding the scan by one line. */
  lemma RunStep(lines: seq<string>, n: nat)
    requires 0 < n <= |lines|
    ensures Run(lines, n) == Step(lines, n - 1, Run(lines, n - 1))
  {
    assert Classes(lines)[n - 1] == ClassOf(lines, n - 1);
  }

  /** The invariant holds after every prefix of the lines, for classes that
      flag exactly the comment lines. */
  lemma {:induction false} ScanInvariantHolds(classes: seq<LineClass>, lines: seq<string>, n: nat)
    requires n <= |classes| == |lines|
    requires forall j :: 0 <= j < |lines| ==> classes[j].comment == IsComment(lines[j])
    ensures ScanInvariant(Scan(classes, lines, n), OpenCount(classes, n))
  {
    if n > 0 {
      ScanInvariantHolds(classes, lines, n - 1);
      AdvanceInvariant(classes[n - 1], lines[n - 1], Scan(classes, lines, n - 1), OpenCount(classes, n - 1));
    }
  }

  /** The extraction's two bounds: every fragment returned carries a
      non-empty `apiVersion` and `kind` without whitespace or `{`, and there
      are at most as many fragments as opening lines. */
  lemma ExtractBounds(template: string)
    ensures var lines := Split(template, '\n');
      && |Extract(template)| <= OpenCount(Classes(lines), |lines|)
      && forall f :: f in Extract(template) ==> IsValue(f.apiVersion) && IsValue(f.kind)
  {
    var lines := Split(template, '\n');
    var opens := OpenCount(Classes(lines), |lines|);
    var last := Run(lines, |lines|);
    var docs := FlushInto(last.docs, last.current);
    ExtractOfLines(template, lines);
    ScanInvariantHolds(Classes(lines), lines, |lines|);
    assert ScanInvariant(last, opens);
    FlushKeepsValues(last.docs, last.current);
    assert |docs| <= opens;
    FoundBounds(docs);
  }

  /** The fragments kept from parses with proper values have proper values. */
  lemma FoundBounds(docs: seq<Option<Fragment>>)
    requires ParsedValues(docs)
    ensures forall f :: f in Found(docs) ==> IsValue(f.apiVersion) && IsValue(f.kind)
  {
    forall f | f in Found(docs)
      ensures IsValue(f.apiVersion) && IsValue(f.kind)
    {
      var k :| 0 <= k < |docs| && docs[k] == Some(f);
    }
  }

  /** With no line mentioning `apiVersion:` nothing opens, so nothing is
      returned. */
  lemma {:induction false} NoApiVersionNoFragments(template: string)
    requires forall line :: line in Split(template, '\n') ==> !Contains(line, "apiVersion:")
    ensures Extract(template) == []
  {
    var lines := Split(template, '\n');
    forall j | 0 <= j < |lines|
      ensures !Classes(lines)[j].opens
    {
      assert lines[j] in lines;
      NoApiVersionNoOpen(lines, j);
    }
    NoOpenCount(Classes(lines), |lines|);
    ExtractBounds(template);
  }

  lemma {:induction false} NoOpenCount(classes: seq<LineClass>, n: nat)
    requires n <= |classes|
    requires forall j :: 0 <= j < |classes| ==> !classes[j].opens
    ensures OpenCount(classes, n) == 0
  {
    if n > 0 {
      NoOpenCount(classes, n - 1);
    }
  }

  /** A comment line changes nothing: it neither opens a fragment nor is
      buffered. */
  lemma CommentLineSkipped(lines: seq<string>, j: nat, st: ScanState)
    requires j < |lines| && IsComment(lines[j])
    ensures Step(lines, j, st) == st
  {
  }

  /** A line whose stripped text is `---` holds no `apiVersion:`, and it
      is not a comment. */
  lemma SeparatorHasNoApiVersion(line: string)
    requires IsSeparator(line)
    ensures !Contains(line, "apiVersion:")
    ensures !IsComment(line)
  {
    var key := "apiVersion:";
    StripTrims(line);
    var p, q :| TrimmedAt(line, Strip(line), p, q);
    forall i | 0 <= i < |line|
      ensures line[i] != 'a'
    {
      if i < p || q <= i {
        assert IsSpace(line[i]);
      } else {
        assert line[i] == line[p..q][i - p];
      }
    }
    forall i | 0 <= i <= |line| - |key|
      ensures !StartsAt(line, i, key)
    {
      assert line[i..i + |key|][0] == line[i];
    }
    NotContainsAll(line, key);
  }

  /** A `---` line inside a fragment closes it: the line is buffered, the
      buffer is parsed and appended, and the scanner is back outside. */
  lemma SeparatorClosesFragment(lines: seq<string>, j: nat, st: ScanState)
    requires j < |lines| && IsSeparator(lines[j]) && st.inYaml
    ensures Step(lines, j, st) == ScanState(false, [], st.docs + [Flush(st.current + [lines[j]])])
  {
    SeparatorHasNoApiVersion(lines[j]);
    assert !Opens(lines, j) by {
      assert ResourceMarkers[0].0 == "apiVersion:" && ResourceMarkers[1].0 == "apiVersion:";
    }
  }

  /** The window of a line is taken from the first line with the same
      text, not from the line's own position. */
  lemma WindowOfRepeatedLine(lines: seq<string>, i: nat, j: nat)
    requires i < j < |lines| && lines[i] == lines[j]
    ensures Window(lines, j) == Window(lines, i)
  {
    var a, b := FirstIndex(lines, i), FirstIndex(lines, j);
    assert lines[a] == lines[j] && lines[b] == lines[i];
  }

  /** Facts about a line `apiVersion: <a>`. */
  lemma ApiLineFacts(a: string)
    requires IsValue(a)
    ensures var line := "apiVersion: " + a;
      !IsComment(line) && !IsSeparator(line) && Contains(line, "apiVersion:") && '\n' !in line
  {
    var line := "apiVersion: " + a;
    assert line[|line| - 1] == a[|a| - 1];
    StripUnpadded(line);
    assert StartsAt(line, 0, "apiVersion:");
    ContainsAt(line, "apiVersion:", 0);
    assert '\n' !in a by {
      assert forall k :: 0 <= k < |a| ==> ValueChar(a[k]);
    }
  }

  /** Facts about a line `kind: <k>` whose value does not mention `apiVersion:`. */
  lemma KindLineFacts(k: string)
    requires IsValue(k) && !Contains(k, "apiVersion:")
    ensures var line := "kind: " + k;
      !IsComment(line) && !IsSeparator(line) && !Contains(line, "apiVersion:") && '\n' !in line
  {
    var line := "kind: " + k;
    var key := "apiVersion:";
    assert line[|line| - 1] == k[|k| - 1];
    StripUnpadded(line);
    forall i | 0 <= i <= |line| - |key|
      ensures !StartsAt(line, i, key)
    {
      assert line[i..i + |key|][0] == line[i];
      if i >= 6 {
        assert line[i..i + |key|] == k[i - 6..i - 6 + |key|];
        ContainsAt(k, key, i - 6);
      }
    }
    NotContainsAll(line, key);
    assert '\n' !in k by {
      assert forall j :: 0 <= j < |k| ==> ValueChar(k[j]);
    }
  }

  /** Facts about the line `---`. */
  lemma DashLineFacts()
    ensures IsSeparator("---") && !IsComment("---") && !Contains("---", "apiVersion:")
  {
    StripUnpadded("---");
    SeparatorHasNoApiVersion("---");
  }

  /** A line that does not mention `apiVersion:` never opens a fragment. */
  lemma NoApiVersionNoOpen(lines: seq<string>, j: nat)
    requires j < |lines| && !Contains(lines[j], "apiVersion:")
    ensures !Opens(lines, j)
  {
    assert ResourceMarkers[0].0 == "apiVersion:" && ResourceMarkers[1].0 == "apiVersion:";
  }

  /** A line mentioning `apiVersion:` whose window holds `kind:` opens a fragment. */
  lemma KindWindowOpens(lines: seq<string>, j: nat)
    requires j < |lines| && Contains(lines[j], "apiVersion:") && Contains(Window(lines, j), "kind:")
    ensures Opens(lines, j)
  {
    assert ResourceMarkers[0] == ("apiVersion:", "kind:");
    assert MarkerFires(lines, j, 0);
  }

  /** The first two pieces of a join. */
  lemma JoinHead(parts: seq<string>, sep: string)
    requires |parts| >= 2
    ensures Join(parts, sep) == parts[0] + sep + parts[1] + (if |parts| > 2 then sep + Join(parts[2..], sep) else "")
  {
    assert parts[1..][0] == parts[1];
    assert parts[1..][1..] == parts[2..];
  }

  /** The window holds `kind:` when every line with the same text is
      followed by a line that starts with `kind:`. */
  lemma WindowHasKind(lines: seq<string>, j: nat)
    requires j < |lines|
    requires forall i :: 0 <= i <= j && lines[i] == lines[j] ==>
               i + 1 < |lines| && StartsAt(lines[i + 1], 0, "kind:")
    ensures Contains(Window(lines, j), "kind:")
  {
    var i := FirstIndex(lines, j);
    var e := if i + 3 <= |lines| then i + 3 else |lines|;
    var ps := lines[i..e];
    assert ps[0] == lines[i] && ps[1] == lines[i + 1];
    JoinHead(ps, "");
    var w := Join(ps, "");
    assert w[|ps[0]|..|ps[0]| + 5] == ps[1][0..5];
    assert StartsAt(w, |ps[0]|, "kind:");
    ContainsAt(w, "kind:", |ps[0]|);
  }

  /** A line that opens a fragment, is no comment and no separator. */
  const Opening := LineClass(false, true, false)
  /** A line that is neither a comment, nor opening, nor a separator. */
  const Plain := LineClass(false, false, false)
  /** A `---` line: never a comment, never opening (it holds no `apiVersion:`). */
  const Dash := LineClass(false, false, true)

  /** Over an opening line, a plain line and a `---` line, then an opening
      line and a plain line, the scan parses the first three lines as one
      fragment and ends inside a second fragment holding the last two. */
  lemma ScanTwoResources(lines: seq<string>)
    requires |lines| == 5
    ensures Scan([Opening, Plain, Dash, Opening, Plain], lines, 5) ==
            ScanState(true, [lines[3], lines[4]], [Flush(lines[0..3])])
  {
    var cs := [Opening, Plain, Dash, Opening, Plain];
    assert Scan(cs, lines, 1) == ScanState(true, [lines[0]], []);
    assert Scan(cs, lines, 2) == ScanState(true, [lines[0], lines[1]], []);
    assert [lines[0], lines[1]] + [lines[2]] == lines[0..3];
    assert Scan(cs, lines, 3) == ScanState(false, [], [Flush(lines[0..3])]);
    assert Scan(cs, lines, 4) == ScanState(true, [lines[3]], [Flush(lines[0..3])]);
  }

  /** The scan over five lines of the two-resource shape. */
  lemma RunTwoResources(lines: seq<string>)
    requires |lines| == 5
    requires Classes(lines) == [Opening, Plain, Dash, Opening, Plain]
    ensures FlushInto(Run(lines, 5).docs, Run(lines, 5).current) == [Flush(lines[0..3]), Flush(lines[3..5])]
  {
    var cs := [Opening, Plain, Dash, Opening, Plain];
    var st := Run(lines, 5);
    ScanTwoResources(lines);
    assert st == Scan(cs, lines, 5);
    assert st.current == lines[3..5];
    assert FlushInto(st.docs, st.current) == st.docs + [Flush(lines[3..5])];
  }

  /** Extraction in terms of the scan over the body's lines. */
  lemma ExtractOfLines(template: string, lines: seq<string>)
    requires Split(template, '\n') == lines
    ensures Extract(template) == Found(FlushInto(Run(lines, |lines|).docs, Run(lines, |lines|).current))
  {
    ExtractFromScan(Classes(lines), lines, 0);
  }

  /** Continuing from the state the scan has reached after `j` lines gives
      the result of the scan over all lines. */
  lemma {:induction false} ExtractFromScan(classes: seq<LineClass>, lines: seq<string>, j: nat)
    requires j <= |lines| <= |classes|
    ensures ExtractFrom(classes, lines, j, Scan(classes, lines, j)) ==
            Found(FlushInto(Scan(classes, lines, |lines|).docs, Scan(classes, lines, |lines|).current))
    decreases |lines| - j
  {
    if j < |lines| {
      ExtractFromScan(classes, lines, j + 1);
    }
  }

  /** Extraction over a body of five lines shaped like two resources
      separated by a `---` line: the first three lines form one fragment,
      the last two another. */
  lemma ExtractOfTwoResources(lines: seq<string>)
    requires |lines| == 5
    requires forall k :: 0 <= k < |lines| ==> '\n' !in lines[k]
    requires Classes(lines) == [Opening, Plain, Dash, Opening, Plain]
    ensures Extract(Join(lines, "\n")) == Found([Flush(lines[0..3]), Flush(lines[3..5])])
  {
    SplitJoin(lines, '\n');
    ExtractOfLines(Join(lines, "\n"), lines);
    RunTwoResources(lines);
  }

  /** Two parses that both found their keys give two fragments, in order. */
  lemma FoundBoth(f: Fragment, g: Fragment)
    ensures Found([Some(f), Some(g)]) == [f, g]
  {
    assert [Some(f), Some(g)][..1] == [Some(f)];
    assert [Some(f)][..0] == [];
  }

  /** The lines of a body holding two resources separated by `---`. */
  function TwoResourceLines(a1: string, k1: string, a2: string, k2: string): seq<string> {
    ["apiVersion: " + a1, "kind: " + k1, "---", "apiVersion: " + a2, "kind: " + k2]
  }

  /** The body text of the two-resource example. */
  function TwoResourceBody(a1: string, k1: string, a2: string, k2: string): string {
    "apiVersion: " + a1 + "\nkind: " + k1 + "\n---\napiVersion: " + a2 + "\nkind: " + k2
  }

  /** In the two-resource body, the `apiVersion:` lines open fragments. */
  lemma TwoResourceOpens(a1: string, k1: string, a2: string, k2: string)
    requires IsValue(a1) && IsValue(a2)
    ensures var lines := TwoResourceLines(a1, k1, a2, k2);
      Opens(lines, 0) && Opens(lines, 3)
  {
    var lines := TwoResourceLines(a1, k1, a2, k2);
    ApiLineFacts(a1);
    ApiLineFacts(a2);
    assert StartsAt(lines[1], 0, "kind:") && StartsAt(lines[4], 0, "kind:");
    assert lines[1][0] == 'k' && lines[2][0] == '-' && lines[3][0] == 'a';
    WindowHasKind(lines, 0);
    WindowHasKind(lines, 3);
    KindWindowOpens(lines, 0);
    KindWindowOpens(lines, 3);
  }

  /** An `apiVersion:` line of the body that opens a fragment is of class `Opening`. */
  lemma ApiLineInBody(lines: seq<string>, j: nat, a: string)
    requires j < |lines| && lines[j] == "apiVersion: " + a && IsValue(a) && Opens(lines, j)
    ensures ClassOf(lines, j) == Opening
  {
    ApiLineFacts(a);
  }

  /** A `kind:` line of the body is of class `Plain`. */
  lemma KindLineInBody(lines: seq<string>, j: nat, k: string)
    requires j < |lines| && lines[j] == "kind: " + k && IsValue(k) && !Contains(k, "apiVersion:")
    ensures ClassOf(lines, j) == Plain
  {
    KindLineFacts(k);
    NoApiVersionNoOpen(lines, j);
  }

  /** A `---` line is of class `Dash`. */
  lemma DashLineInBody(lines: seq<string>, j: nat)
    requires j < |lines| && lines[j] == "---"
    ensures ClassOf(lines, j) == Dash
  {
    DashLineFacts();
    NoApiVersionNoOpen(lines, j);
  }

  /** The classes of the two-resource body's lines. */
  lemma TwoResourceClasses(a1: string, k1: string, a2: string, k2: string)
    requires IsValue(a1) && IsValue(k1) && IsValue(a2) && IsValue(k2)
    requires !Contains(k1, "apiVersion:") && !Contains(k2, "apiVersion:")
    ensures Classes(TwoResourceLines(a1, k1, a2, k2)) == [Opening, Plain, Dash, Opening, Plain]
  {
    var lines := TwoResourceLines(a1, k1, a2, k2);
    TwoResourceOpens(a1, k1, a2, k2);
    ApiLineInBody(lines, 0, a1);
    KindLineInBody(lines, 1, k1);
    DashLineInBody(lines, 2);
    ApiLineInBody(lines, 3, a2);
    KindLineInBody(lines, 4, k2);
  }

  /** No line of the two-resource body holds a line break. */
  lemma TwoResourceNoBreaks(a1: string, k1: string, a2: string, k2: string)
    requires IsValue(a1) && IsValue(k1) && IsValue(a2) && IsValue(k2)
    requires !Contains(k1, "apiVersion:") && !Contains(k2, "apiVersion:")
    ensures var lines := TwoResourceLines(a1, k1, a2, k2);
      forall k :: 0 <= k < |lines| ==> '\n' !in lines[k]
  {
    ApiLineFacts(a1);
    ApiLineFacts(a2);
    KindLineFacts(k1);
    KindLineFacts(k2);
  }

  /** The body is its five lines joined with line breaks. */
  lemma TwoResourceJoin(a1: string, k1: string, a2: string, k2: string)
    ensures Join(TwoResourceLines(a1, k1, a2, k2), "\n") == TwoResourceBody(a1, k1, a2, k2)
  {
    var lines := TwoResourceLines(a1, k1, a2, k2);
    var second := "---\napiVersion: " + a2 + "\nkind: " + k2;
    JoinHead(lines, "\n");
    SecondHalfJoin(lines[2..], a2, k2);
    assert Join(lines, "\n") == "apiVersion: " + a1 + "\n" + ("kind: " + k1) + "\n" + second;
    assert "apiVersion: " + a1 + "\n" + ("kind: " + k1) + "\n" + second
        == "apiVersion: " + a1 + "\nkind: " + k1 + "\n" + second;
  }

  /** The second half of the body: the `---` line and the second fragment. */
  lemma SecondHalfJoin(rest: seq<string>, a2: string, k2: string)
    requires rest == ["---", "apiVersion: " + a2, "kind: " + k2]
    ensures Join(rest, "\n") == "---\napiVersion: " + a2 + "\nkind: " + k2
  {
    JoinHead(rest, "\n");
    assert rest[2..] == ["kind: " + k2];
    assert "---" + "\n" + ("apiVersion: " + a2) + "\n" + ("kind: " + k2)
        == "---\napiVersion: " + a2 + "\nkind: " + k2;
  }

  /** The first fragment, closed by its `---` line, parses to its pair. */
  lemma FlushFirstFragment(a: string, k: string)
    requires IsValue(a) && IsValue(k) && !Contains(a, KindKey)
    ensures Flush(["apiVersion: " + a, "kind: " + k, "---"]) == Some(Fragment(a, k))
  {
    JoinHead(["apiVersion: " + a, "kind: " + k, "---"], " ");
    assert ["apiVersion: " + a, "kind: " + k, "---"][2..] == ["---"];
    assert Join(["apiVersion: " + a, "kind: " + k, "---"], " ") == "apiVersion: " + a + " kind: " + k + " ---";
    ParseRoundTrip(a, k, " ---");
  }

  /** The last fragment, flushed at the end of the body, parses to its pair. */
  lemma FlushLastFragment(a: string, k: string)
    requires IsValue(a) && IsValue(k) && !Contains(a, KindKey)
    ensures Flush(["apiVersion: " + a, "kind: " + k]) == Some(Fragment(a, k))
  {
    JoinHead(["apiVersion: " + a, "kind: " + k], " ");
    assert Join(["apiVersion: " + a, "kind: " + k], " ") == "apiVersion: " + a + " kind: " + k + "";
    ParseRoundTrip(a, k, "");
  }

  /** Both fragments of the two-resource body parse to their pairs. */
  lemma TwoResourceFragments(a1: string, k1: string, a2: string, k2: string)
    requires IsValue(a1) && IsValue(k1) && IsValue(a2) && IsValue(k2)
    requires !Contains(a1, KindKey) && !Contains(a2, KindKey)
    ensures var lines := TwoResourceLines(a1, k1, a2, k2);
      [Flush(lines[0..3]), Flush(lines[3..5])] == [Some(Fragment(a1, k1)), Some(Fragment(a2, k2))]
  {
    var lines := TwoResourceLines(a1, k1, a2, k2);
    assert lines[0..3] == ["apiVersion: " + a1, "kind: " + k1, "---"];
    assert lines[3..5] == ["apiVersion: " + a2, "kind: " + k2];
    FlushFirstFragment(a1, k1);
    FlushLastFragment(a2, k2);
  }

  /** Two resources separated by a `---` line yield exactly two fragments,
      in order. */
  lemma TwoFragmentsSeparated(a1: string, k1: string, a2: string, k2: string)
    requires IsValue(a1) && IsValue(k1) && IsValue(a2) && IsValue(k2)
    requires !Contains(a1, KindKey) && !Contains(a2, KindKey)
    requires !Contains(k1, "apiVersion:") && !Contains(k2, "apiVersion:")
    ensures Extract(TwoResourceBody(a1, k1, a2, k2)) == [Fragment(a1, k1), Fragment(a2, k2)]
  {
    var lines := TwoResourceLines(a1, k1, a2, k2);
    TwoResourceNoBreaks(a1, k1, a2, k2);
    TwoResourceClasses(a1, k1, a2, k2);
    ExtractOfTwoResources(lines);
    TwoResourceJoin(a1, k1, a2, k2);
    TwoResourceFragments(a1, k1, a2, k2);
    FoundBoth(Fragment(a1, k1), Fragment(a2, k2));
  }
}
