# oem record engine in Dafny

A model of the core of `oem`, a command-line tool that keeps the XML data
files of an Odoo module in step with a live database. The model covers:

- **The loader** (`tracked_xml_ids`). It reads every data file listed in the
  module manifest and stores each record under its XML id, with the ids it
  depends on. It reports, without stopping:
  - missing files and CSV files;
  - records without id;
  - `eval` expressions that do not parse;
  - foreign modules missing from `depends` (which it appends);
  - references to ids not declared yet;
  - records that close a dependency cycle.

  It stops with an error in two cases:
  - an `eval` expression fails for another reason than a syntax error. The
    warning handler reads the exception's `msg`, which only a `SyntaxError`
    has, so it raises an `AttributeError`;
  - the manifest has no `depends` entry and a record depends on another
    module. Looking the module up is a `KeyError`.
- **The merge step of record import** (`_record_import`). Each imported
  record is matched, by the XML id the registry gives its remote object,
  against the tracked ids:
  - an identical record is a no-op;
  - a different one replaces the tracked record in place;
  - an untracked one is appended to the data file its label names.

  Only the touched files are written and registered in the manifest, and the
  `write` callbacks fire for every record.
- **The XML-id registry** (`XmlIdManager`): session lookup before the store,
  idempotent creation, and least-free generated names.
- **The reference helpers**:
  - XML-id string/tuple conversion;
  - name normalisation;
  - natural sort keys;
  - `ref('…')` extraction over an expression tree;
  - `add_import`;
  - manifest registration;
  - object-to-dict conversion;
  - search filters.
- **The two policy evaluators**: field selection (`field_spec`) and file
  dispatch (`dispatcher`).
- **Three small parsers and formatters**:
  - configuration printing (`show_config`);
  - the database label grammar with its connection defaults (`db`);
  - the author string of `oem init`, with its fallbacks and the routing of
    template values.

The model is written in terms of these datatypes:

- **Element trees** are immutable values. A data file is a `Doc`: a list of
  top-level elements, each a list of child records.
- **The Odoo store, the `eval` parser, the clock and the file system** are
  given as parameters. They are oracles, not code.
- **Manifest entries** `data` and `depends` are optional, as in the
  manifest defaults. An entry that is read with `[...]` is a `KeyError`
  when it is absent.
- **Cached properties** keep their state between calls: the registry's
  session, the tracked ids and the manifest with its appended `depends`.
  The model passes this state from one call to the next.
- **Python's unordered iteration** (dict and set iteration) is modelled as
  the order of the input sequence. Every property that depends on it is
  stated for every order.

Modules follow the source files:

- `Common`, `RefExtract`, `OoopUtils`, `XmlIdMgr`, `FieldSpec`, `Dispatcher`,
  `OemConfig`, `Db` and `OemInit` each follow one source file.
- `Loader` and `RecordImport` split `oem_rec.py`.
- `SpecSyntax` holds the `;`/`:` syntax that `field_spec` and `dispatcher`
  share.
- `Corpus` models element trees, and `Graph` models reachability.
- `PercentFormat` models `%(key)s` formatting.
- `Base`, `Text` and `Values` hold the Python built-ins the rest relies on.

Where the code and its documentation disagree, the model follows the code:

- **Later segments replace earlier ones.** The docstrings of
  `parse_field_specs` and `parse_dispatch_specs` say that repeated segments
  for one model "concat". The code replaces the earlier entry whole, and so
  does the model (`FieldSpec.ParseLastSegment`,
  `Dispatcher.ParseDispatchLast`).
- **`$` accepts one final newline.** In the label and author regular
  expressions, `$` also matches before one final newline. Both parsers
  accept it.
- **File-declared ids never block a generated name.** The registry's list
  of file-declared ids holds `(module, name)` tuples. Candidate names are
  strings, so these ids never block a generated name
  (`XmlIdMgr.FileIdsNeverBlock`).
- **Imported new records are not tracked.** A second untracked copy in the
  same batch is appended again (`RecordImport.UntrackedTwiceAppendedTwice`).
- **Nothing reorders files.** `reorder` is imported but never called. Only
  the per-record cycle warning is modelled.
- **A record with no id in the registry fails.** The registry's `lookup` can
  answer `None` for an untracked record. Printing it with `tuple2xmlid`
  then raises, so such an import step fails with a `TypeError`.

## Model

| member | source | states |
|---|---|---|
| Common.NormalizeXmlName | src/oem/common.py:26-33 | the result uses only `[a-z0-9_]`, is no longer than the input, and is at most `max_size` long when a non-negative limit is given |
| Common.NormalizeIsCharwise | src/oem/common.py:27-30 | without a limit, normalising maps each character on its own: `.` and space become `_` rather than being dropped, other characters outside `[a-zA-Z0-9_]` vanish, letters are lower-cased |
| Common.NormalizeIdempotent | src/oem/common.py:26-33 | normalising a normalised name changes nothing, for any fixed non-negative limit |
| Common.NormalizeNameChars | src/oem/common.py:26-33 | a string already made of `[a-z0-9_]` is its own normal form, also under any limit at least its length |
| Common.SliceTo | src/oem/common.py:32 | `s[0:n]` with Python's slice rules: a bound past the end is the end, a negative bound counts from the end |
| Common.FileNormalizeModelName | src/oem/common.py:57-58 | same length, no dot left, every dot turned into `_`, every other character unchanged |
| Common.NormalizeXmlFilename | src/oem/common.py:21-23 | the model with its dots replaced and nothing else changed, then `_`, the type and `.xml` |
| Common.DigitSplit | src/oem/common.py:37-38 | `re.split('([0-9]+)')` gives an odd number of pieces: digit-free text at even positions, non-empty digit runs at odd positions, an empty first piece exactly when the key starts with a digit |
| Common.DigitSplitConcat | src/oem/common.py:37-38 | the pieces put back together are the key |
| Common.DigitSplitMaximal | src/oem/common.py:37-38 | text between two digit runs is never empty, so each run is maximal |
| Common.NaturalSortKey | src/oem/common.py:36-38 | the key has odd length, with digit-free texts at even positions and numbers at odd positions |
| Common.NaturalSortKeyMeaning | src/oem/common.py:36-38 | the numbers are the values of the maximal digit runs, in order, and the texts are what lies between them |
| Common.NaturalSortKeyExample | src/oem/common.py:36-38 | `r10` gives `['r', 10, '']` |
| Common.AddImport | src/oem/common.py:159-181 | the single pass with its two flags puts `import X` right after the first run of `import` lines when a line follows it, and drops everything from a later line importing X; with no such run followed by a line, it appends `import X` and an empty line |
| Common.AddImportDropsLines | src/oem/common.py:163-170 | as written, a later line importing X ends the pass and the lines from there on are lost: the output is shorter than the input |
| Common.AddImportFixed | src/oem/common.py:159-179 | corrected `add_import`: the result always imports X |
| Common.AddImportFixedKeepsLines | src/oem/common.py:159-179 | corrected `add_import` loses no line: the result is the file, or the file with `import X` inserted once, or the file followed by `import X` and an empty line |
| Common.AddImportFixedIdempotent | src/oem/common.py:168-170 | adding an import twice is adding it once |
| Common.AddImportFixedAgrees | src/oem/common.py:159-179 | on a file that does not import X yet, the corrected and the original pass produce the same lines |
| Common.AddXml | src/oem/common.py:293-298 | a manifest without `data` is a `KeyError`; otherwise the file name ends up in the list, appended only when absent: earlier entries keep their places and a duplicate-free list stays duplicate-free |
| RefExtract.RefArg | src/oem/common.py:143-146 | a `ref` call yields a value exactly when its first argument is a string literal |
| RefExtract.GetRefsInEval | src/oem/common.py:87 | the result is a `SyntaxError`, escaping to the caller, exactly when the source does not parse |
| RefExtract.Walk | src/oem/common.py:128-147 | the walk fails only with an `IndexError` (a `ref` without argument) or an evaluation error (an argument that is not a string literal) |
| RefExtract.WalkFindsTopRefs | src/oem/common.py:128-147 | the queue walk succeeds exactly when no reachable `ref` call outside a matched one has a bad argument, and then returns every outermost `ref` argument as often as it occurs |
| RefExtract.GetRefsInEvalSound | src/oem/common.py:61-149 | on a parsed expression, extraction succeeds exactly on extractable trees and returns the multiset of outermost `ref` arguments |
| RefExtract.RefCallNotEntered | src/oem/common.py:138-146 | a matched `ref(...)` call is not descended into: other `ref` calls among its arguments are not collected |
| RefExtract.WalkRefsFirst | src/oem/common.py:128-147 | `ref` calls at the head of the queue give their arguments first, in queue order, ahead of what the rest of the queue gives; a failure in the rest is the walk's failure |
| RefExtract.WalkExampleTuple | src/oem/common.py:71-73 | `(ref('bar'), '=', ref('foo'))` yields `['bar', 'foo']`, breadth first and left to right |
| RefExtract.WalkNonLiteralFails | src/oem/common.py:143-146 | a `ref` whose argument is not a string literal is an error, not a silent skip |
| OoopUtils.Xmlid2Tuple | src/oem/ooop_utils.py:21-24 | an id with no dot gets the default module; otherwise the module is the dot-free text before the first dot and the name is the rest |
| OoopUtils.TupleRoundTrip | src/oem/ooop_utils.py:21-31 | a tuple with a module and dot-free parts survives conversion to a string and back |
| OoopUtils.StringRoundTrip | src/oem/ooop_utils.py:21-31 | a string survives conversion to a tuple and back, except that the default module's prefix is dropped and an empty default module adds a leading dot to unqualified names |
| OoopUtils.NormalizeModelNameCaseFold | src/oem/ooop_utils.py:16-18 | up to letter case, the class name is the model name without its dots |
| OoopUtils.NormalizeModelNameExample | src/oem/ooop_utils.py:16-18 | `ir.model.data` becomes `IrModelData` |
| OoopUtils.Obj2Dct | src/oem/ooop_utils.py:34-39 | the keys are exactly the fields whose type name has no `2`, plus `id`, which holds the object's `_ref` |
| OoopUtils.DateBoundFilters | src/oem/ooop_utils.py:58-66 | a `__gt` key exactly when a start is given and a `__lt` key exactly when an end is given, each holding its bound |
| OoopUtils.FilterEntryRules | src/oem/ooop_utils.py:91-114 | a false value gives no filter; `name` becomes `name__like`, `tag` becomes `name__like` with `{tag}%`, `nid` becomes `id`, and any other key passes through |
| OoopUtils.FalsyOptionsIgnored | src/oem/ooop_utils.py:91-93 | dropping the options with a false value leaves the filters unchanged |
| XmlIdMgr.Lookup | src/oem/xml_id_mgr.py:24-32 | the session answers when it knows `(res_id, model)`; the store is asked only on a miss |
| XmlIdMgr.Forbidden | src/oem/xml_id_mgr.py:40-48 | the names to avoid are the session's names in the module, for any model, plus the store's names for the module and model, and nothing else of string type |
| XmlIdMgr.FirstFree | src/oem/xml_id_mgr.py:50-58 | the chosen index is the least one whose candidate is not forbidden, and it never exceeds the number of forbidden names |
| XmlIdMgr.Create | src/oem/xml_id_mgr.py:34-63 | a known id is returned and nothing is recorded; otherwise the least free candidate in the module is generated and recorded under `(res_id, model)` |
| XmlIdMgr.CreateThenLookup | src/oem/xml_id_mgr.py:24-63 | after `create`, `lookup` finds the created id, and a second `create` for the same record returns it and records nothing |
| XmlIdMgr.CreatePreservesUniqueness | src/oem/xml_id_mgr.py:41-62 | session names stay pairwise distinct within a module |
| XmlIdMgr.TwoCreatesDistinct | src/oem/xml_id_mgr.py:41-63 | two generating creates for different records in one module never give the same name |
| XmlIdMgr.FileIdsNeverBlock | src/oem/xml_id_mgr.py:41-58 | the generated id is the same whatever the file-declared ids are |
| XmlIdMgr.GeneratedNameLength | src/oem/xml_id_mgr.py:50-58 | the generated name is at most 128 characters when the normalised model leaves room for the seed and fewer than 10^7 names are taken |
| XmlIdMgr.SortKey | src/oem/xml_id_mgr.py:17-22 | `None` exactly when the record has no id, otherwise the natural sort key of its name |
| Graph.ReachFromIsReachable | src/oem/oem_rec.py:152-153 | the computed closure is exactly the set of nodes reachable in one step or more |
| Graph.CycleThroughIsCycle | src/oem/oem_rec.py:152-155 | the cycle check holds exactly when the node can reach itself |
| Graph.NoSuccessorsNoCycle | src/oem/oem_rec.py:152-153 | a node without dependencies is on no cycle |
| Graph.SelfLoopIsCycle | src/oem/oem_rec.py:152-153 | a record depending on itself is on a cycle |
| Corpus.ReplaceAt | src/oem/oem_rec.py:329-331 | `parent.replace(old, new)`: the new record takes the old one's position and everything else stays |
| Corpus.AppendFirst | src/oem/oem_rec.py:343-345 | an `IndexError` exactly for a root without children; otherwise the record becomes the last child of the first element and every record keeps its position |
| Corpus.DataRecords | src/oem/oem_rec.py:89-94 | every listed child sits at its position in a top-level `data` element |
| Corpus.DataRecordsComplete | src/oem/oem_rec.py:89-94 | every child of a top-level `data` element is listed |
| Loader.EvalRefs | src/oem/oem_rec.py:113-126 | the loop stops, with an `AttributeError`, exactly when some `eval` string fails otherwise than by not parsing; when it completes, the collected ids are the `ref` arguments of the strings that parse and the skipped strings are exactly those that do not parse |
| Loader.DepList | src/oem/oem_rec.py:101-126 | the dependency list has no duplicate and every entry has a module |
| Loader.DepsCharacterised | src/oem/oem_rec.py:101-126 | when the `eval` loop completes, a record depends on exactly the `action` and `parent` of a menu item, every `ref` attribute, and every `ref` literal of every `eval` that parses, each read with the module as default |
| Loader.RecordError | src/oem/oem_rec.py:113-136 | loading a record raises exactly when an `eval` string fails otherwise than by not parsing, or when the manifest has no `depends` entry and the record has a foreign dependency; the error is the handler's `AttributeError` or `KeyError('depends')` |
| Loader.CheckDep | src/oem/oem_rec.py:130-141 | a foreign module missing from `depends` is appended and reported; a same-module id not stored yet and not `model_…` is reported as undefined |
| Loader.CheckDeps | src/oem/oem_rec.py:130-136 | `depends` becomes the module fold `Modules` of the dependencies: it only grows, and what it gains is exactly the modules the warnings report |
| Loader.ModulesAdded | src/oem/oem_rec.py:130-136 | `depends` gains exactly the foreign modules of the dependencies and never holds one twice |
| Loader.ModulesLocal | src/oem/oem_rec.py:130-131 | dependencies all within the module leave `depends` as it is |
| Loader.UnlistedChecks | src/oem/oem_rec.py:130-136 | without a `depends` entry, a record that loads has only same-module dependencies, and checking it appends no module |
| Loader.CheckDepsWarnings | src/oem/oem_rec.py:128-141 | the warnings concern the record at hand, and a dependency gets an undefined-id warning exactly when it is flagged |
| Loader.LoadRecord | src/oem/oem_rec.py:92-155 | loading fails exactly on a record with an id that raises, and then with its error; otherwise a comment is skipped, a record without id is reported and skipped, and a record with an id is stored under it with its dependencies, replacing only that entry and adding its dependencies to the file's union |
| Loader.LoadRecordDepends | src/oem/oem_rec.py:130-147 | when loading goes on, the `depends` entry stays present or absent, only has entries appended, gains no duplicate, and keeps the foreign module of every stored dependency |
| Loader.LoadRecordWarnings | src/oem/oem_rec.py:89-155 | loading a record only appends warnings, all about that record |
| Loader.RecordWarnings | src/oem/oem_rec.py:117-155 | when loading goes on, a stored record adds one warning per `eval` that does not parse, one per appended module, one per flagged dependency, and a cycle warning exactly when it can reach itself once stored |
| Loader.StoredWarningsCycle | src/oem/oem_rec.py:143-155 | the cycle warning is issued exactly when the stored record reaches itself through the stored dependencies |
| Loader.LoadItemsFails | src/oem/oem_rec.py:92-155 | loading a file's children fails exactly when one of them raises, and then with the error of the first such child |
| Loader.LoadItemsKeys | src/oem/oem_rec.py:88-149 | loading a file's children stores exactly the ids they declare and collects the union of their dependencies |
| Loader.LoadItemsDepends | src/oem/oem_rec.py:92-147 | over a file, the `depends` entry stays present or absent, only grows, gains no duplicate, and keeps holding the foreign module of every stored dependency |
| Loader.LoadItemsWarnings | src/oem/oem_rec.py:89-155 | over a file, warnings are only appended and all are about its records |
| Loader.LoadItemsPlaced | src/oem/oem_rec.py:89-147 | every stored entry describes a record at its position in the file |
| Loader.LoadFile | src/oem/oem_rec.py:74-157 | loading fails exactly when a record of a loadable file raises; a missing or CSV entry is reported and skipped; otherwise the file is kept with the union of its records' dependencies and its ids are stored |
| Loader.LoadFileConsistent | src/oem/oem_rec.py:74-157 | loading a file keeps the tracked ids consistent with the files: every id points at its record in a kept file |
| Loader.LoadFileWarnings | src/oem/oem_rec.py:74-82 | a missing-file or CSV warning is issued exactly for a missing or CSV entry |
| Loader.LoadFileDepends | src/oem/oem_rec.py:130-136 | loading a file keeps the `depends` entry present or absent, only appends to it and adds no duplicate |
| Loader.LoadFiles | src/oem/oem_rec.py:72-157 | loading fails exactly when a listed file has a record that raises; otherwise the manifest's loadable files are kept and their ids stored |
| Loader.LoadFilesConsistent | src/oem/oem_rec.py:72-157 | loading the manifest keeps the result consistent with the files |
| Loader.LoadFilesWarnings | src/oem/oem_rec.py:72-82 | over the manifest, file warnings are issued exactly for its missing and CSV entries |
| Loader.LoadFilesDepends | src/oem/oem_rec.py:130-136 | over the manifest, the `depends` entry stays present or absent, only grows and gains no duplicate |
| Loader.TrackedXmlIds | src/oem/oem_rec.py:55-164 | a missing `data` entry lists no file; loading fails exactly when a listed file has a record that raises; otherwise the tracked ids are exactly those declared by the loadable listed files, and the kept files are exactly those files |
| Loader.TrackedXmlIdsConsistent | src/oem/oem_rec.py:55-164 | every tracked id designates its record at its position in its tracked file, and every foreign dependency's module is in `depends` |
| Loader.TrackedXmlIdsWarnings | src/oem/oem_rec.py:72-136 | when loading completes, missing and CSV files are reported exactly; the `depends` entry stays absent when it was, and otherwise keeps its entries, only grows, and stays duplicate-free when it starts so |
| RecordImport.RemoveTag | src/oem/oem_rec.py:35-39 | a name without the `{tag}` prefix is returned unchanged; with it, the result is shorter by at least the prefix and has no surrounding whitespace |
| RecordImport.RemoveTagPrefixed | src/oem/oem_rec.py:35-39 | what follows `{tag}` comes back stripped |
| RecordImport.ModelLabel | src/oem/oem_rec.py:289 | a leading `x_` is removed from the model, and only that |
| RecordImport.LabelFields | src/oem/oem_rec.py:288-289 | the label sees the object's simple fields and `id`, plus `_model` without `x_` |
| RecordImport.FileNameFor | src/oem/oem_rec.py:285-291 | the file name fails exactly when the label cannot be rendered, and otherwise is the rendered label with dots replaced, followed by `.xml` |
| RecordImport.ModelLabelFileName | src/oem/oem_rec.py:285-291 | a label `%(_model)s` followed by plain text names the model without `x_` and with dots replaced, then that text and `.xml` |
| RecordImport.DefaultLabelFileName | src/oem/oem_rec.py:285-291 | with the default label, a record of `x_foo.bar` lands in `foo_bar_record.xml` |
| RecordImport.ConsistentIsCoherent | src/oem/oem_rec.py:143-147 | the loader's result is a valid merge start: each tracked id sits at its position in its file, and no two ids share a position |
| RecordImport.Modify | src/oem/oem_rec.py:324-334 | replacing a tracked record keeps the merge state coherent, keeps ids, files and positions, and adds one outcome |
| RecordImport.AddTo | src/oem/oem_rec.py:336-345 | giving a file its new content keeps the merge state coherent and adds one outcome |
| RecordImport.Step | src/oem/oem_rec.py:313-345 | a successful step keeps the merge state coherent, keeps ids and positions, and adds one outcome |
| RecordImport.StepNoop | src/oem/oem_rec.py:316-323 | an item identical to its tracked record changes nothing and touches no file |
| RecordImport.StepModified | src/oem/oem_rec.py:324-334 | a differing tracked item replaces the record in place, counts one more replacement, marks its file, and leaves everything else alone |
| RecordImport.StepAdded | src/oem/oem_rec.py:335-345 | an untracked item is appended as the last child of the first element of its target file (the tracked file, the file this import started, or an empty data file) and is not tracked |
| RecordImport.StepFails | src/oem/oem_rec.py:315-345 | a step fails exactly on a missing registry id (`TypeError`), on an unrenderable label, or on a target file without element (`IndexError`) |
| RecordImport.ImportAll | src/oem/oem_rec.py:313-345 | a successful batch keeps the state coherent and records one outcome per item |
| RecordImport.ImportWritten | src/oem/oem_rec.py:311-353 | the files to write are exactly those touched by modified or added records |
| RecordImport.ReimportUnchanged | src/oem/oem_rec.py:316-323 | a batch whose records all equal their tracked ones is all no-ops and writes nothing |
| RecordImport.ImportTrackedRecords | src/oem/oem_rec.py:316-334 | after importing tracked items under distinct ids, each id holds its item's record |
| RecordImport.TrackedStep | src/oem/oem_rec.py:316-334 | importing a tracked item leaves its record in place of the tracked one and every other id as it was |
| RecordImport.ReimportIsNoop | src/oem/oem_rec.py:313-334 | importing the same tracked batch a second time changes nothing |
| RecordImport.UntrackedTwiceAppendedTwice | src/oem/oem_rec.py:335-345 | new records are not tracked, so an untracked record imported twice in a batch is appended twice |
| RecordImport.Outputs | src/oem/oem_rec.py:347-353 | exactly the written files get a content: their tracked content as updated, or the content started in this import |
| RecordImport.RegisterAll | src/oem/oem_rec.py:352-353 | a manifest without `data` is a `KeyError` as soon as one file is written; otherwise, whatever order the written files come in, the manifest keeps its entries, gains exactly the written files it lacked, and gains no duplicate |
| RecordImport.AddCallback | src/oem/oem_rec.py:534-548 | registering creates the key and event entries and loses no key |
| RecordImport.Triggered | src/oem/oem_rec.py:551-555 | an object with no registered callback fires nothing |
| RecordImport.AddThenTrigger | src/oem/oem_rec.py:534-555 | a registered callback fires after those registered before it for the same key and event, and changes nothing for other keys or events |
| RecordImport.WriteCalls | src/oem/oem_rec.py:355-356 | with no callback registered for any item, the batch fires nothing |
| RecordImport.Import | src/oem/oem_rec.py:293-356 | the import fails exactly when a step fails or when files are to be written and the manifest has no `data` entry, which is a `KeyError`; a successful import keeps the tracked ids, gives each item an outcome, writes exactly the touched files, and fires `write` for every item, no-ops included, in batch order |
| PercentFormat.FormatVerbatim | src/oem/dispatcher.py:86-90 | a template without `%` renders as itself whatever the mapping |
| PercentFormat.FormatPlaceholder | src/oem/dispatcher.py:89 | `%(key)s` renders the mapping's value for the key, and a missing key is a `KeyError` |
| PercentFormat.FormatEscape | src/oem/oem_rec.py:290 | `%%` renders a single `%` |
| SpecSyntax.Segment | src/oem/field_spec.py:87-91 | a segment with no colon has no model; with one colon, the model is before it and the value after it; a second colon fails to unpack |
| SpecSyntax.SpecsFail | src/oem/field_spec.py:84-92 | parsing fails exactly when a non-empty segment fails, with the first such segment's error |
| SpecSyntax.SpecsLast | src/oem/field_spec.py:84-92 | a model has an entry exactly when a non-empty segment names it, and the last such segment's value replaces any earlier one whole |
| SpecSyntax.SegmentNamed | src/oem/field_spec.py:90-91 | `model:value` with a single colon names `model` |
| FieldSpec.Label | src/oem/field_spec.py:93-94 | an entry selects unless it starts with `-`, and a leading `+` or `-` is removed from the field name |
| FieldSpec.LabelMapLast | src/oem/field_spec.py:59-66 | a field has a rule exactly when a non-empty entry names it, and the last such entry decides it |
| FieldSpec.FieldSegmentModel | src/oem/field_spec.py:87-91 | a segment belongs to the model before its colon, or to the current model when it has none; a second colon is an error |
| FieldSpec.ParseEmpty | src/oem/field_spec.py:77-80 | the empty option parses to no rule at all |
| FieldSpec.ParseFails | src/oem/field_spec.py:91 | parsing fails exactly when a segment has two colons, with the unpacking error |
| FieldSpec.ParseLastSegment | src/oem/field_spec.py:84-92 | a later segment for a model replaces the earlier one's rules whole |
| FieldSpec.FieldsPlain | src/oem/field_spec.py:47-52 | a plain field name selects that field |
| FieldSpec.FieldsMinus | src/oem/field_spec.py:54-57 | a `-` before a field name casts that field out |
| FieldSpec.FieldSegmentNamed | src/oem/field_spec.py:18-21 | `model:fields` gives the rules to `model` |
| FieldSpec.IsFieldSelected | src/oem/field_spec.py:163-167 | the field's rule in the model layer over the `*` layer, else the `*` field rule of that overlay, else selected |
| FieldSpec.OtherModelsIrrelevant | src/oem/field_spec.py:124-127 | rules for models other than the one asked and `*` never change the answer |
| FieldSpec.SelectionExamples | src/oem/field_spec.py:114-153 | no rule selects; `-*` for the model casts out; a rule for the model beats a `-f` or `-*` rule for `*` |
| FieldSpec.ParseNamed | src/oem/field_spec.py:18-21 | a single `model:fields` segment gives exactly that model's rules |
| FieldSpec.ParseNamedPair | src/oem/field_spec.py:31-35 | two `model:fields` segments give both models their rules, the second last |
| FieldSpec.ParsedMinusAll | src/oem/field_spec.py:142-145 | `bar:-*` parses to a `*` rule casting out every field of `bar` and selects none |
| FieldSpec.ParsedOwnRuleWins | src/oem/field_spec.py:147-153 | `*:-f1;bar:f1` and `*:-*;bar:f1` both parse and select `f1` of `bar` |
| Dispatcher.DispatchSegmentModel | src/oem/dispatcher.py:60-64 | a segment without colon is for `*`; with one colon it is for the model before it; a second colon is an error |
| Dispatcher.ParseDispatchEmpty | src/oem/dispatcher.py:50-53 | the empty option parses to no path at all |
| Dispatcher.ParseDispatchFails | src/oem/dispatcher.py:64 | parsing fails exactly when a segment has two colons, with the unpacking error |
| Dispatcher.ParseDispatchKeys | src/oem/dispatcher.py:56-66 | a model has a path exactly when a non-empty segment names it |
| Dispatcher.ParseDispatchLast | src/oem/dispatcher.py:45-48 | the last segment naming a model decides its path |
| Dispatcher.ParseDispatchSingle | src/oem/dispatcher.py:18-24 | `model:/foo/bar` sends that model to `/foo/bar`, and a bare `/foo/bar` sends every model there |
| Dispatcher.ParseDispatchPair | src/oem/dispatcher.py:32-33 | `model:/foo/bar;/foo/wiz` sends the model to `/foo/bar` and `*` to `/foo/wiz` |
| Dispatcher.Template | src/oem/dispatcher.py:83-85 | the model's own path when it has one, else the `*` path, else `%(_model_underscore)s_records.xml` |
| Dispatcher.Dispatch | src/oem/dispatcher.py:80-90 | a path without `%` is returned as is; with `%`, a record whose model is missing or not a string fails on `replace` |
| Dispatcher.DispatchUnderscore | src/oem/dispatcher.py:86-89 | `%(_model_underscore)s` renders the model with dots replaced, overriding any field of that name in the record |
| Dispatcher.DispatchDefault | src/oem/dispatcher.py:84-89 | with no path for the model or for `*`, a record of `res.partner` goes to `res_partner_records.xml` |
| Dispatcher.ParsedDispatch | src/oem/dispatcher.py:56-90 | after parsing `m:p;q`, a record of `m` goes to `p` and a record of any other model to `q` |
| OemConfig.ShowConfig | src/oem/oem_config.py:11-16 | `None` prints nothing, and any other scalar prints itself alone |
| OemConfig.ShowEntriesCount | src/oem/oem_config.py:17-23 | a dictionary's entries print one line per scalar leaf |
| OemConfig.EntryLinesCount | src/oem/oem_config.py:18-23 | a nested dictionary prints no line of its own, only its scalars |
| OemConfig.ShowDictCount | src/oem/oem_config.py:11-23 | a dictionary prints exactly as many lines as it has scalar leaves, so empty dictionaries at any depth print nothing |
| OemConfig.LeafShown | src/oem/oem_config.py:17-23 | every scalar reached by a chain of non-empty keys is printed as the prefix, the dotted chain, `=` and its value |
| OemConfig.LineFromLeaf | src/oem/oem_config.py:17-23 | every printed line comes from a scalar reached by a chain of keys |
| OemConfig.ShowConfigLines | src/oem/oem_config.py:11-23 | with no empty key, the printed lines are exactly the scalars, each as prefix, dotted path, `=` and value |
| Db.ParseLabel | src/oem/db.py:15-24 | a matched label has a name in `[a-zA-Z0-9_]+`, a host in `[a-zA-Z0-9-_.]+` if any, and a port in `[0-9]+` only after a host |
| Db.ParseLabelText | src/oem/db.py:15-24 | a matching label is exactly the text of its groups, possibly followed by one newline |
| Db.ParseRenderLabel | src/oem/db.py:15-24 | the text of valid groups, with or without a final newline, parses back to those groups |
| Db.PortNeedsHost | src/oem/db.py:17-22 | a colon without `@` before it never matches: `db:8069` is not a label |
| Db.GroupDict | src/oem/db.py:45-46 | the parsed settings hold `dbname`, and `host` and `port` exactly when they matched |
| Db.GetDbConfigCases | src/oem/db.py:38-53 | a configured label gives its stored settings unless forced; else a grammatical label gives its groups with the credentials; a `ValueError` exactly when neither applies |
| Db.Effective | src/oem/db.py:57-71 | the label's settings override the defaults key by key, and the defaults fill the rest |
| Db.EffectiveOfLabel | src/oem/db.py:57-72 | a parsed label connects with the given login, its name, and its host and port, or `localhost` and 8069 |
| OemInit.ParseAuthor | src/oem/oem_init.py:22 | a matched author has a non-empty name without `<` and a non-empty email without `>` or space |
| OemInit.ParseAuthorText | src/oem/oem_init.py:22 | a matching author string is its name, `<`, its email and `>`, possibly followed by one newline |
| OemInit.AuthorTextParses | src/oem/oem_init.py:22 | a valid name and email, with or without a final newline, match as themselves |
| OemInit.GitAuthor | src/oem/oem_init.py:25-36 | an author comes from git exactly when it answered both values non-empty; a shell error gives none |
| OemInit.GitAuthorRoundTrip | src/oem/oem_init.py:22-36 | git's author string parses back to the git name, which strips to the stripped name, and the git email |
| OemInit.Init | src/oem/oem_init.py:74-120 | every failure of `oem init` is an abort |
| OemInit.InitSucceeds | src/oem/oem_init.py:74-120 | `oem init` succeeds exactly outside a module, with an existing output directory and an author found and well formed, and then stores the stripped name and the email |
| OemInit.InitAborts | src/oem/oem_init.py:75-109 | inside an existing module it aborts first; with no author on the command line, in the configuration or from git, it aborts |
| OemInit.RouteSeparates | src/oem/oem_init.py:90-135 | the author and email, the license years and the version are command-line values exactly when given there and defaults otherwise; the name and website are command-line values only |
| OemInit.RouteValues | src/oem/oem_init.py:119-135 | the routed author and email, the given years and version or the current year and `0.1`, and the given website |
| OemInit.InitFromGit | src/oem/oem_init.py:93-120 | with git as the only source, the git name stripped and the git email are offered |

## Left out

- XML parsing and serialisation, and xpath. Records are values, and two
  serialisations are equal when the records are equal.
- Rendering a record to XML (`to_xml`, `menu_to_xml`) and the Mako
  templates. An imported item carries its rendered record.
- The Odoo store behind XML-RPC (`OOOPExtended`). It appears only as the
  lookup and filter oracle of the registry.
- The connection and retry loop of `db.py` (lines 63-102) and the credential
  prompts. The login and password are parameters.
- Python's `ast.parse` and `eval` inside `get_refs_in_eval`. Expressions are
  a small tree datatype given by a parser parameter, and a `ref` argument
  evaluates only when it is a string literal.
- `kids.data.graph.cycle_exists`. It is foreign code, so reachability is
  defined here. `reorder` is never called.
- Date arithmetic and formatting (`_date_from_find_spec`,
  `_read_string_date`, `strftime`). A clock parameter turns date options
  into bounds, and bounds arrive formatted.
- `%` formatting beyond `%(key)s` and `%%`.
- The file system:
  - `find_root`'s directory walk;
  - `put_contents`;
  - the file-creation branch of `add_import`;
  - `metadata.py`'s evaluation of the manifest.
- The cookiecutter rendering of `oem init`. The model stops at the template,
  the command-line values and the defaults.
- Console output and message wording. Warnings are tagged values, and abort
  messages are abbreviated (for instance without the offending path).
- The configuration `get`/`set`/`rm` wrappers and `config.py`.
- Regular-expression metacharacters in a module name given to `add_import`.
  The name is matched literally.
- `@cache` memoisation itself. The cached properties `xml_id_mgr`
  (`src/oem/oem_rec.py:49-53`) and `tracked_xml_ids` and `meta` (lines 55-57)
  keep their state between calls. The model passes that state from call to
  call instead: the registry session, the merge state and the `depends`
  list.
- Floats, lists and tuples as field values. The values of `Obj2Dct` fields
  and of `%(field)s` placeholders are strings, integers, booleans and `None`.
- Nested parentheses in a `%(key)s` name. Python matches them, so
  `%(a(b)c)s` reads the key `a(b)c`. Here the key ends at the first `)`.
- Loader.EvalRefs: an argument that evaluates to something other than a
  string stops the source with a `TypeError` in `xmlid2tuple`, outside the
  handler. Every argument that is not a string literal stops the model with
  the handler's `AttributeError`.
- Loader.RecordWarnings: the warnings issued before the loader stops are
  printed in the source. The failed result of the model does not carry
  them.
- RecordImport.Import: without a `data` entry, the first written file is
  already on disk when `add_xml` raises. The failed result does not say
  which file that was.
- OemInit.Init: the current year, the module name and what git answers are
  parameters, not read from the clock, the path and a shell.
- OemConfig.LineFromLeaf: proved for trees whose keys are all non-empty. An
  empty key would print a line with an empty path segment, which the dotted
  path of a chain of keys cannot tell apart from a missing one.
- OemConfig.ShowConfigLines: stated for trees without empty keys, for the
  same reason.
- RefExtract.RefArg: a `ref` argument that Python could evaluate but that is
  not a string literal (`ref('a' + 'b')`) is an error here.
- Db.GetDbConfig: the login and password that the source asks for
  interactively are given as arguments.

## Findings

| source | as written | input that shows it | evidently intended | confidence | as-written member | corrected member |
|---|---|---|---|---|---|---|
| src/oem/common.py:168-170 | once `import X` has been inserted, a later line importing X sets `inserted` and `break`s, and only the lines collected so far are written back | lines `import a`, ``, `import b`, `c = 1` with module `b` give `import a`, `import b`, `` | a file already importing X is left as it is, and no line is ever lost | high, not executed | Common.AddImportDropsLines | Common.AddImportFixed |
