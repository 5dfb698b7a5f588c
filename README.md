# Composition analyser: a verified model of the manifest analysis

`analyze_compositions.py` walks a directory of Crossplane manifests. It finds
every `Composition` (`apiVersion: apiextensions.crossplane.io/v1`, `kind:
Composition`) and lists the managed resources it refers to. A resource counts
when its `apiVersion` mentions a Crossplane or Upbound API group. References
are found in two places:

- the Composition document itself, by walking every nested mapping and list;
- the Go-templated YAML inside each pipeline step's `input.inline.template`,
  recovered line by line and parsed with two regular expressions.

Each reference becomes one row with:

- the file,
- the Composition's composite-type key,
- the resource's `kind_apiVersion`, kind, API version and category (the API
  group label before `.crossplane.io` or `.upbound.io`).

The function names the pipelines call are collected in a catalog. Two
summary tables are built from the rows:

- statistics per resource: occurrences, distinct files, distinct
  compositions, sorted by occurrences;
- a file mapping: for each resource, its files with their counts, the most
  frequent first.

This project models that analysis in Dafny and proves what it promises.

| file | models |
|---|---|
| `Strings.dfy` | Python's `str.strip`, `split("\n")`, `join`, `in` and `str(n)` |
| `ApiVersions.dfy` | the provider filter and the category (the two regular expressions as leftmost scans) |
| `TemplatedYaml.dfy` | `_parse_templated_yaml`: the two `key:\s*([^\s\n{]+)` searches |
| `TemplateContent.dfy` | `_extract_template_content`: the line scan, as a method with a loop proved against a scan function |
| `Manifest.dfy` | parsed YAML documents and `_recursive_search`, as a recursive method that appends to a list |
| `Compositions.dfy` | `_extract_composition_details` and the per-file accumulation, as methods of the `CompositionExtractor` class that update `extractedData` and `uniqueFunctions` |
| `Groups.dfy` | the pandas operations used: distinct values, `value_counts`, group sizes, sums, descending sort |
| `Aggregation.dfy` | `_get_mr_statistics` (pure) and `_get_file_mapping` (a method that fills a map in a loop) |

Three behaviours of the code are worth stating up front:

- The placeholder row of `analyze_compositions.py:249-253` is never built.
  A Composition's own `apiVersion` always passes the filter. So the walk over
  the whole document always emits the Composition's association with itself,
  and the list of associations is never empty (`PlaceholderUnreachable`).
- Had that branch been taken, it would have failed. The placeholder has no
  `category` key, so `resource["category"]` at `analyze_compositions.py:269`
  would raise `KeyError` and abandon the rest of the file. The model keeps
  that outcome as `MissingCategory`.
- The statistics are sorted with `sort_values` at
  `analyze_compositions.py:354`, which does not fix the order of rows with
  equal totals. The model claims only the order by total.

## Model

| member | source | states |
|---|---|---|
| Strings.StripTrims | analyze_compositions.py:80 | `strip()` leaves a middle slice whose cut-off ends are all whitespace and which neither starts nor ends with whitespace |
| Strings.Strip | analyze_compositions.py:80 | Python's `strip()`; `StripTrims` and `StripUnpadded` state what it leaves |
| Strings.Split | analyze_compositions.py:70 | `split("\n")` gives at least one piece, no piece holds the separator, and joining the pieces with it gives the input back |
| Strings.SplitJoin | analyze_compositions.py:70 | splitting the join of separator-free pieces gives the pieces back |
| Strings.Join | analyze_compositions.py:70 | Python's `sep.join(parts)`; `Split` and `SplitJoin` state that it undoes splitting and is undone by it |
| Strings.NatToString | analyze_compositions.py:375 | the count printed in a location line is a non-empty run of decimal digits |
| Strings.NatToStringValue | analyze_compositions.py:375 | the printed digits denote the count itself, with no leading zero unless the count is zero |
| Strings.DecimalValue | analyze_compositions.py:375 | the number a run of decimal digits denotes, the reference `NatToStringValue` checks the printing against |
| Strings.Contains | analyze_compositions.py:54 | Python's `p in s`; `ContainsAt` and `NotContainsAll` state both directions |
| Strings.ContainsAt | analyze_compositions.py:54 | an occurrence at some index makes `p in s` true |
| Strings.NotContainsAll | analyze_compositions.py:54 | with no occurrence at any index, `p in s` is false |
| ApiVersions.IsCrossplaneOrUpbound | analyze_compositions.py:44-54 | the provider filter: `.crossplane.io/` or `.upbound.io/` occurs in the API version; `FilterExamples` and `FilterAcceptsWithoutCategory` pin it on concrete versions |
| ApiVersions.FilterExamples | analyze_compositions.py:44-54 | the filter accepts `apiextensions.crossplane.io/v1` and `ec2.aws.upbound.io/v1beta1` and rejects `example.org/v1` and `v1` |
| ApiVersions.SegmentScan | analyze_compositions.py:159-160 | the bounds a scan returns delimit a non-empty slice of the string at or after the scan's start |
| ApiVersions.SegmentScanFacts | analyze_compositions.py:159-160 | from a segment start with no segment further left, the scan finds the leftmost label followed by the domain, or reports that there is none |
| ApiVersions.SegmentScanAtDot | analyze_compositions.py:159-160 | at a dot the scan either closes the leftmost segment or moves on past the dot, keeping that guarantee |
| ApiVersions.FindSegment | analyze_compositions.py:159-160 | the bounds the search returns delimit a non-empty slice of the string |
| ApiVersions.FindSegmentFacts | analyze_compositions.py:159-160 | `re.search(r"([^.]+)<domain>")` matches exactly when a dot-free label follows the start or a dot and precedes the domain, and it returns the leftmost such label |
| ApiVersions.Category | analyze_compositions.py:155-156 | the empty API version has category "other" |
| ApiVersions.CategoryCrossplaneWins | analyze_compositions.py:159-163 | a Crossplane match decides the category: its leftmost label |
| ApiVersions.CategoryUpboundFallback | analyze_compositions.py:160-165 | without a Crossplane match, the leftmost Upbound label is the category |
| ApiVersions.CategoryOther | analyze_compositions.py:166 | with neither match, the category is "other" |
| ApiVersions.CategoryIsSegmentOrOther | analyze_compositions.py:143-166 | the category is always "other" or a label found before one of the two domains |
| ApiVersions.NoSegmentWithoutDomain | analyze_compositions.py:159-160 | when the domain starts at none of the dots, neither search matches |
| ApiVersions.CategoryOfUpboundExample | analyze_compositions.py:148 | `aws.upbound.io/v1beta1` is in category "aws" |
| ApiVersions.CategoryOfCrossplaneExample | analyze_compositions.py:148 | `fn.crossplane.io/v1beta1` is in category "fn" |
| ApiVersions.CategoryOfComposition | analyze_compositions.py:159-163 | a Composition's API version is in category "apiextensions" |
| ApiVersions.CategoryOfNestedGroup | analyze_compositions.py:159-165 | `ec2.aws.upbound.io/v1beta1` is in category "aws": the label right before the domain |
| ApiVersions.CategoryOfCoreVersion | analyze_compositions.py:166 | `v1` is in category "other" |
| ApiVersions.FilterAcceptsWithoutCategory | analyze_compositions.py:54 | `.crossplane.io/v1` passes the filter yet has category "other", since no label precedes the domain |
| TemplatedYaml.SkipSpace | analyze_compositions.py:126 | `\s*` stops at the first non-whitespace character at or after the start |
| TemplatedYaml.RunEnd | analyze_compositions.py:126 | `[^\s\n{]+` extends exactly over the value characters that follow |
| TemplatedYaml.Capture | analyze_compositions.py:126-127 | the captured group is a non-empty value without whitespace or `{` |
| TemplatedYaml.FindKey | analyze_compositions.py:126-127 | an index the search returns is one where the key matches, at or after the start |
| TemplatedYaml.FindKeyLeftmost | analyze_compositions.py:126-127 | the key matches at no index before the one returned, and nowhere when none is returned |
| TemplatedYaml.SearchValue | analyze_compositions.py:126-127 | the search fails exactly when the pattern matches nowhere; otherwise it returns the group captured at the leftmost match |
| TemplatedYaml.StripValue | analyze_compositions.py:130-131 | `.strip()` leaves a captured value unchanged |
| TemplatedYaml.ParseTemplatedYaml | analyze_compositions.py:119-141 | the fragment parser; `ParseTemplatedYamlFacts` states when it succeeds and what it returns, `ParseRoundTrip` that it undoes writing a fragment |
| TemplatedYaml.ParseTemplatedYamlFacts | analyze_compositions.py:119-136 | a fragment is parsed exactly when both keys match; its two values are the two searches' results |
| TemplatedYaml.SearchValueRoundTrip | analyze_compositions.py:126 | a value written after its key is what the search returns, whenever no occurrence of the key starts before the written one |
| TemplatedYaml.NoMatchInPrefix | analyze_compositions.py:126 | when the key does not occur in the prefix followed by the key's first characters, no match starts inside the prefix |
| TemplatedYaml.MatchAfterPrefix | analyze_compositions.py:126 | the key written after a prefix matches there and captures the written value |
| TemplatedYaml.ParseRoundTrip | analyze_compositions.py:119-136 | `apiVersion: A kind: K` parses to the fragment (A, K) for any values A and K and any API version A in which `kind:` does not occur |
| TemplatedYaml.ApiVersionFound | analyze_compositions.py:126 | in `apiVersion: A kind: K…` the first search returns A |
| TemplatedYaml.KindFound | analyze_compositions.py:127 | in `apiVersion: A kind: K…` the second search returns K whenever `kind:` does not occur in A |
| TemplatedYaml.KindNotBeforeKey | analyze_compositions.py:127 | `kind:` occurs in `apiVersion: A kind` only if it occurs in A |
| TemplatedYaml.ParseOfSearches | analyze_compositions.py:129-134 | two successful searches give the fragment made of their values |
| TemplatedYaml.RunEndOfValue | analyze_compositions.py:126 | the capture ends exactly at the end of a value followed by a non-value character |
| TemplateContent.Window | analyze_compositions.py:86-88 | the three-line lookahead from the first line with the same text; `WindowOfRepeatedLine` and `WindowHasKind` state what it holds |
| TemplateContent.FirstIndex | analyze_compositions.py:87 | `lines.index(line)` is the first line with the same text, at or before the current one |
| TemplateContent.WindowOfRepeatedLine | analyze_compositions.py:86-88 | a repeated line gets the three-line window of its first occurrence, not its own |
| TemplateContent.CommentLineSkipped | analyze_compositions.py:80-81 | a comment line leaves the scan state unchanged |
| TemplateContent.NoApiVersionNoOpen | analyze_compositions.py:85 | a line without `apiVersion:` never opens a fragment |
| TemplateContent.KindWindowOpens | analyze_compositions.py:84-96 | a line with `apiVersion:` whose window holds `kind:` opens a fragment |
| TemplateContent.WindowHasKind | analyze_compositions.py:86-89 | when every occurrence of the line is followed by a `kind:` line, the window holds `kind:` |
| TemplateContent.SeparatorClosesFragment | analyze_compositions.py:98-107 | a `---` line inside a fragment is buffered, then the buffer is parsed and the scan leaves the fragment |
| TemplateContent.SeparatorHasNoApiVersion | analyze_compositions.py:80-85 | a `---` line is neither a comment nor an opening line |
| TemplateContent.Advance | analyze_compositions.py:79-107 | one iteration of the line scan; `AdvanceInvariant` states the invariant it keeps, `ScanLine` that the loop body computes it |
| TemplateContent.TryMarkers | analyze_compositions.py:84-96 | the marker loop leaves the state the marker step of the scan function gives |
| TemplateContent.ScanLine | analyze_compositions.py:80-107 | one loop iteration leaves the state the scan function gives for that line |
| TemplateContent.Extract | analyze_compositions.py:56-114 | the extraction function; `ExtractBounds` bounds its fragments, `TwoFragmentsSeparated` shows it recovering written fragments |
| TemplateContent.ExtractTemplateContent | analyze_compositions.py:56-114 | the method returns exactly the extraction function's fragments |
| TemplateContent.RunStep | analyze_compositions.py:79-107 | the state after n lines is one step of the loop applied to the state after n-1 lines |
| TemplateContent.Found | analyze_compositions.py:114 | dropping empty parses keeps exactly the successful ones, in order and with duplicates; `FoundAppend` and `FoundOne` pin it down |
| TemplateContent.FoundAppend | analyze_compositions.py:114 | filtering a concatenation is the concatenation of the filtered parts |
| TemplateContent.FoundOne | analyze_compositions.py:114 | a successful parse is kept as itself and an empty one is dropped |
| TemplateContent.FlushKeepsValues | analyze_compositions.py:90-93 | flushing the buffer keeps every parsed value well formed |
| TemplateContent.AdvanceInvariant | analyze_compositions.py:79-107 | each line keeps the scan invariant: the buffer is empty outside a fragment and holds no comment, parsed values are proper, and output entries plus the open fragment never exceed the opening lines seen |
| TemplateContent.ScanInvariantHolds | analyze_compositions.py:79-107 | the scan invariant holds after every prefix of the lines |
| TemplateContent.ExtractBounds | analyze_compositions.py:56-114 | there are at most as many fragments as opening lines, and every fragment has a non-empty API version and kind without whitespace or `{` |
| TemplateContent.FoundBounds | analyze_compositions.py:114 | the fragments kept from proper parses have proper values |
| TemplateContent.NoApiVersionNoFragments | analyze_compositions.py:84-114 | a template with no `apiVersion:` line yields no fragment |
| TemplateContent.ExtractOfLines | analyze_compositions.py:79-114 | the extraction is the scan over all lines, then a flush of the last buffer, then the filter of empty parses |
| TemplateContent.TwoFragmentsSeparated | analyze_compositions.py:79-114 | two resources separated by `---` are recovered as two fragments, in order, whenever `kind:` does not occur in either API version and `apiVersion:` in neither kind |
| TemplateContent.TwoResourceClasses | analyze_compositions.py:80-101 | in that template the lines open, continue, separate, open and continue |
| TemplateContent.ScanTwoResources | analyze_compositions.py:90-107 | over those lines the first fragment is parsed at the separator and the second is still open at the end |
| Manifest.Get | analyze_compositions.py:214 | Python's `dict.get`; `GetFinds` states both outcomes |
| Manifest.GetFinds | analyze_compositions.py:214 | `dict.get` returns a value stored under the key, and fails exactly when no entry has the key |
| Manifest.Render | analyze_compositions.py:217-218 | the text an f-string gives a `kind`: strings and scalars as their own text, `None` as `None` |
| Manifest.KindOf | analyze_compositions.py:214 | the `kind` sibling as text, `N/A` when absent; `AssocOf` joins it to the version |
| Manifest.KindValueOf | analyze_compositions.py:214 | how grouping will treat the `kind` value: `None` and NaN are missing, mappings and lists unhashable, anything else (including an absent `N/A`) hashable |
| Manifest.AssocOf | analyze_compositions.py:214-224 | an association carries the API version, its category, and the kind and version joined by `_` |
| Manifest.Emit | analyze_compositions.py:211-224 | an entry emits one association exactly when its key is `apiVersion` and its value is a string that passes the filter, and nothing otherwise |
| Manifest.Search | analyze_compositions.py:207-233 | the associations the recursive walk appends; `SearchWellFormed` and `SearchIsOwnAll` state which ones |
| Manifest.SearchInto | analyze_compositions.py:207-233 | the recursive walk appends to the list exactly the associations of the walk function, in order |
| Manifest.EmitEntry | analyze_compositions.py:211-224 | the loop body over one entry appends exactly what the walk function emits for that entry |
| Manifest.SearchMapping | analyze_compositions.py:208-228 | over a mapping's entries, each entry's own association comes before those of its value |
| Manifest.SearchList | analyze_compositions.py:230-233 | over a list, the items are walked in order |
| Manifest.SearchEntriesStep | analyze_compositions.py:209-228 | one more entry adds its own association and then its value's |
| Manifest.SearchWellFormed | analyze_compositions.py:211-224 | every association emitted at any depth passes the filter, has its version's category and joins kind and version with `_` |
| Manifest.FragmentSearch | analyze_compositions.py:246-247 | a recovered fragment yields one association when its version passes the filter and none otherwise |
| Manifest.OwnAssocEmitted | analyze_compositions.py:207-224 | a mapping whose own `apiVersion` passes the filter has its association in the walk |
| Manifest.Own | analyze_compositions.py:211-224 | a mapping emits at most one association of its own |
| Manifest.SearchIsOwnAll | analyze_compositions.py:207-233 | with unique keys, the walk emits exactly one association per mapping at any depth, including mappings in lists, whose `apiVersion` passes the filter, and nothing else |
| Manifest.EmitPrefixIsOwn | analyze_compositions.py:209-224 | with unique keys, the entries of one mapping emit exactly that mapping's own association |
| Manifest.EmitPrefixAt | analyze_compositions.py:209-224 | with unique keys, the entries of a mapping emit what its `apiVersion` entry emits |
| Manifest.EmitPrefixSkip | analyze_compositions.py:209-224 | entries other than the `apiVersion` entry add nothing |
| Manifest.EmitPrefixNone | analyze_compositions.py:209-224 | a mapping without an `apiVersion` key emits nothing of its own |
| Compositions.Steps | analyze_compositions.py:201 | the steps iterated: the pipeline's items, or none for an absent pipeline, an empty mapping or an empty string |
| Compositions.FunctionRefs | analyze_compositions.py:199-202 | one function name per pipeline step, in step order |
| Compositions.HashablePrefix | analyze_compositions.py:256 | how far `set.update` gets: every name before that point is hashable, and the name at it (if any) is a mapping or a list |
| Compositions.NamesHashable | analyze_compositions.py:256 | `set.update` adds every name without raising |
| Compositions.FunctionSet | analyze_compositions.py:256 | the names added to the catalog before the first unhashable one |
| Compositions.FunctionSetNames | analyze_compositions.py:199-202 | a name is in the catalog exactly when some step has it and that step and all steps before it have hashable names |
| Compositions.Assocs | analyze_compositions.py:235-247 | the whole-document associations followed by the template ones; `CompositionRecordsOrdered` states the order |
| Compositions.CompositionDetails | analyze_compositions.py:168-275 | the outcome of one document: no rows for a non-Composition, the `TypeError` of `set.update` on an unhashable name, or the rows of its associations; `PlaceholderUnreachable` and `CompositionRecordsConsistent` state which |
| Compositions.RecordsOf | analyze_compositions.py:259-271 | one row per association, in order, each with the file path and the composite key |
| Compositions.FragmentAssoc | analyze_compositions.py:211-224 | a fragment's association is well formed exactly when its version passes the filter |
| Compositions.SelfAssocEmitted | analyze_compositions.py:184-187 | a Composition's walk always emits its association with itself, in category "apiextensions" |
| Compositions.PlaceholderUnreachable | analyze_compositions.py:249-253 | the placeholder's missing category never ends a document; a document yields rows exactly when it is not a Composition or all its function names are hashable, and then a Composition's rows include its self-association row |
| Compositions.TemplateAssocsAccepted | analyze_compositions.py:239-247 | the template pass emits the accepted fragments of all steps, in step order |
| Compositions.FragmentAssocsAccepted | analyze_compositions.py:245-247 | the pass over one step's fragments emits the associations of the accepted ones, in order |
| Compositions.AcceptedWellFormed | analyze_compositions.py:246-247 | every template-derived association is well formed |
| Compositions.CompositionRecordsOrdered | analyze_compositions.py:236-247 | rows are built exactly when the names are hashable, and then the whole-document rows come first and the template rows follow, in step and fragment order |
| Compositions.CompositionRecordsConsistent | analyze_compositions.py:259-271 | rows are built exactly when the names are hashable, and then all rows of a Composition share its file path and composite key, and each names an accepted resource with its category |
| Compositions.RecordsOfWellFormed | analyze_compositions.py:259-271 | rows built from well-formed associations keep their path, key and properties |
| Compositions.FileRecords | analyze_compositions.py:302-309 | the rows a file adds; false documents are skipped, and a true non-mapping document, an unhashable function name or a missing category abandons the rest of the file |
| Compositions.FileFunctions | analyze_compositions.py:302-309 | the function names a file adds to the catalog, under the same skipping and abandoning; a Composition with an unhashable name still adds the names before it |
| Compositions.FileRecordsConsistent | analyze_compositions.py:302-306 | every row a file adds carries that file's path and names an accepted resource with its category |
| Compositions.FileRecordsComplete | analyze_compositions.py:302-309 | every true Composition with hashable names, before which no true non-mapping document and no Composition with an unhashable name stands, contributes its self-association row: no missing category abandons the file |
| Compositions.UnhashableNameEndsFile | analyze_compositions.py:256 | a Composition whose function names include a mapping or a list ends its file: no rows from it or after it, and the catalog gains only the names before the unhashable one |
| Compositions.CompositionExtractor.ExtractCompositionDetails | analyze_compositions.py:168-275 | a non-Composition gives no rows and leaves the catalog alone; a Composition adds its function names to the catalog up to the first unhashable one, raising there, and otherwise gives the rows of its associations; the extracted data is untouched |
| Compositions.CompositionExtractor.CollectAssocs | analyze_compositions.py:235-247 | the two walks give the whole-document associations followed by the template ones |
| Compositions.CompositionExtractor.UpdateFunctions | analyze_compositions.py:256 | the catalog gains the names of the steps in order up to the first unhashable one, and the result says whether all were added |
| Compositions.CompositionExtractor.SearchTemplates | analyze_compositions.py:239-247 | the template pass over all steps appends their associations in step order |
| Compositions.CompositionExtractor.SearchStep | analyze_compositions.py:239-247 | the pass over one more step appends that step's associations after those of the steps before it |
| Compositions.CompositionExtractor.SearchTemplate | analyze_compositions.py:241-247 | a non-empty template is cut into fragments and each one is walked; anything else adds nothing |
| Compositions.CompositionExtractor.BuildRecords | analyze_compositions.py:259-271 | the loop builds one row per association, in order |
| Compositions.CompositionExtractor.ExtractDocuments | analyze_compositions.py:302-309 | the extracted data grows by the file's rows and the catalog by its function names; false documents are skipped, and a true non-mapping document or an unhashable function name ends the file |
| Groups.DistinctFacts | analyze_compositions.py:335-336 | `unique()` keeps each value once and loses none, so the count is between 1 and the group size for a non-empty group |
| Groups.CountFacts | analyze_compositions.py:335 | a value is counted a positive number of times exactly when it occurs |
| Groups.CountConservation | analyze_compositions.py:322-336 | the group sizes add up to the number of rows |
| Groups.MembersFacts | analyze_compositions.py:322-336 | a group holds every row with its key and no other row, as many as the key occurs |
| Groups.MapIn | analyze_compositions.py:322-336 | a key occurs in the column exactly when some row has it |
| Groups.SortDescFacts | analyze_compositions.py:354 | the descending sort orders by non-increasing rank and is a permutation |
| Groups.SortDescSum | analyze_compositions.py:354 | sorting keeps every column sum |
| Groups.TallyFacts | analyze_compositions.py:371 | the tally pairs each value with its count, and the counts add up |
| Groups.ValueCountsFacts | analyze_compositions.py:371 | `value_counts()` lists every value once with its count, most frequent first, and the counts add up to the number of values |
| Aggregation.RowOf | analyze_compositions.py:333-337 | the row of one group; `RowBounds` bounds its counts |
| Aggregation.Rows | analyze_compositions.py:324-340 | one row per group of the kept rows; `MrStatisticsRows` states which |
| Aggregation.Grouped | analyze_compositions.py:325-332 | the rows grouping keeps; `GroupedFacts` states which |
| Aggregation.GroupedFacts | analyze_compositions.py:325-332 | grouping keeps exactly the rows whose kind is hashable |
| Aggregation.MrStatistics | analyze_compositions.py:313-354 | the statistics table, `None` for the `TypeError`; the lemmas below state its properties |
| Aggregation.MrStatisticsRaises | analyze_compositions.py:324-332 | the statistics fail exactly when some row's kind is a mapping or a list |
| Aggregation.KindCounts | analyze_compositions.py:324-332 | every row's kind is hashable, missing or unhashable, so the three counts add up to the rows |
| Aggregation.RowBounds | analyze_compositions.py:322-336 | a group's total is its size, and its file and composition counts lie between 1 and that total |
| Aggregation.MrStatisticsEmpty | analyze_compositions.py:316-332 | the table is empty exactly when every row's kind is missing, in particular with no data |
| Aggregation.MrStatisticsSorted | analyze_compositions.py:354 | when grouping succeeds, the rows are ordered by non-increasing total occurrences |
| Aggregation.MrStatisticsRows | analyze_compositions.py:322-336 | when grouping succeeds, the table holds exactly one row per distinct group key among the rows whose kind is not missing, and no other row |
| Aggregation.MrStatisticsBounds | analyze_compositions.py:322-336 | when grouping succeeds, every row is found in between 1 and its total of files and used by between 1 and its total of compositions |
| Aggregation.MrStatisticsTotal | analyze_compositions.py:322-336 | when grouping succeeds, the totals add up to the number of extracted rows whose kind is not missing |
| Aggregation.RowsFor | analyze_compositions.py:324-336 | one statistics row per listed key, in the keys' order, each the row of that key's group |
| Aggregation.RowsForSum | analyze_compositions.py:322-336 | the totals of the listed groups add up to their counts |
| Aggregation.FileCounts | analyze_compositions.py:371 | a resource's files with their counts; `FileRowFacts` states what they are |
| Aggregation.LocationLine | analyze_compositions.py:375 | `path (n occurrences)`; `LocationsSplit` recovers these lines from the locations text |
| Aggregation.FileRowOf | analyze_compositions.py:369-383 | the file-mapping row of one resource; `FileRowFacts` states its fields |
| Aggregation.FileRowFacts | analyze_compositions.py:369-383 | a resource's total is its number of rows, its file count lies between 1 and that total, and its files are listed once each with their counts, most frequent first |
| Aggregation.LocationsSplit | analyze_compositions.py:374-375 | with no line break in any path, the locations text splits back into one `path (n occurrences)` line per file |
| Aggregation.FileMappingTotal | analyze_compositions.py:369-383 | over all resources, the totals add up to the number of extracted rows |
| Aggregation.FileMapping | analyze_compositions.py:356-386 | the mapping has a row for each resource that occurs and no other, each row being that resource's file row |

## Left out

- Directory walking, file reading and `yaml.safe_load_all` are I/O and an external parser. Documents enter the model already parsed (`ExtractDocuments` takes them as a sequence). The path of each file is a plain string.
- Logging, progress display, the Excel report (`save_to_excel`), `run`, `main` and `__init__` are left out.
- Exceptions inside `.get` chains are not modelled. These come from a `spec`, `compositeTypeRef`, `functionRef`, `input` or `inline` that is not a mapping, or a pipeline that cannot be iterated as steps. An absent pipeline, an empty mapping and an empty string iterate as no step (`Steps`) and are admitted; any other pipeline that is not a list is excluded. The shape predicates `ShapeOk` and `StepOk` are preconditions instead (`Loadable`). Any document is admitted otherwise: false ones (`None`, an empty mapping, list or string, a zero or `False`) are skipped, and a true document that is not a mapping fails at its first `.get` and abandons the rest of the file.
- The `TypeError` of `set.update` on a function name that is a mapping or a list is modelled (`UnhashableName`): the names before it stay in the catalog and the rest of the file is abandoned.
- The `KeyError` on the placeholder's missing category is kept too. It ends the file early (`MissingCategory`), and it is proved unreachable.
- The `try/except` fallbacks of the two template helpers are modelled only where they can trigger. A template that is not a string fails to split and yields no fragments.
- Manifest.Render: a `kind` that is a mapping or a list is rendered as a fixed text, not as Python's `str()` of it. Strings, scalars and `None` carry their own Python text. That text does reach the file mapping's resource key, where it differs from Python's; the statistics raise on such a row (`MrStatisticsRaises`). The same stand-in forms `CompositeKey` when a `compositeTypeRef` kind or apiVersion is a mapping or a list, so two such Compositions whose stand-ins coincide share a key, and `usedByCompositions` counts them once where Python's texts could differ. `FunctionName` renders such a name the same way, but that text never reaches the catalog, because `set.update` raises on it first.
- Compositions.FunctionSet: function names are held as their text. A number and a string with the same text, such as `1` and `"1"`, are one catalog entry here but two in Python; `1`, `1.0` and `True` are three entries here but one in Python, whose set treats equal numbers as one; a `None` name is held as the text `None`.
- Manifest.Get: mappings are sequences of entries, and a lookup takes the first entry with the key. Python dicts, and hence PyYAML, keep one entry per key, so `SearchIsOwnAll` assumes unique keys.
- The `path` argument of the recursive search only builds a string that is never used, so it is not modelled.
- Groups.SortDesc: pandas' `sort_values` and `value_counts` do not fix the order of equal counts. The model uses one particular order (an insertion sort), and only non-increasing order plus permutation are claimed.
- Aggregation.Rows: `groupby` sorts its groups by key before the final sort. The model lists groups in first-seen order; only the final order by total is claimed.
- Aggregation.Rows: a kind is held as its text plus how grouping treats it (`KindValue`). Rows whose kind is `None` or NaN are dropped by `groupby`; a mapping or list kind makes `groupby` raise `TypeError`, modelled as `MrStatistics` giving `None`. A number and a string with the same text, such as `1` and `"1"`, form one group here but two in pandas.
- The file mapping is returned as a map keyed by resource rather than a DataFrame. Column names and DataFrame shapes are not modelled.
- The per-file `except` also swallows errors from reading and parsing a file. Those are outside the model.
