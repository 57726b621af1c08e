# Verified model of the kubescrape core

A Dafny model of the algorithms at the heart of kubescrape, with proofs of what they promise.
`dafny verify dfyconfig.toml` checks the whole project.

| file | what it models |
|---|---|
| `SchemaGen.dfy` | the generator of the configuration schema: a compiler from a recursive type graph to JSON Schema, compared with a strict decoder |
| `SchemaDocument.dfy` | the JSON document the generator emits, and what it accepts as draft-07 reads it |
| `SchemaParity.dfy` | encoding/json with its own reading of tags and bytes, and when the schema is in parity with it |
| `SchemaClash.dfy` | two types of one name, for which the generated schema is wrong |
| `MatchMemo.dfy` | the per-line selector memo: an open-addressed table with generation stamps, as a finite map emptied at each line |
| `LineFilter.dfy` | the selector language, lazy line fields, and the first-match-wins line filter evaluated through the memo |
| `Sampling.dfy` | the arithmetic of the deterministic sampler |
| `CanonicalInteger.dfy` | the normal form of integer tokens |
| `Export.dfy` | the export of log metrics: chunking, retention of what failed, merging back, eviction under two caps |
| `Retention.dfy` | what the export keeps and counts: samples, generations, and the order of eviction |
| `Labels.dfy` | the printed form of label sets and its parser |
| `LabelReading.dfy` | what any label string says, piece by piece, whoever wrote it |
| `LabelSets.dfy` | label sets as they are built: bounded values, distinct keys, the order-independent hash |
| `MaskPattern.dfy` | UTF-8, the mask transform's two overlays, and the pattern/replacement form |
| `Dedupe.dfy` | the racing throttle, the outage reporter, and the bounded suppression table |
| `Flight.dfy` | the single-flight claim and the client's token file, over all interleavings |
| `Rotating.dfy` | the receiver's accept set with its rotation grace, over all interleavings |
| `Authorization.dfy` | the credentials of a request header, and who is let in |
| `Wrappers.dfy` | optional values and results |
| `Ordering.dfy` | byte strings in lexicographic order, sizes of subsets, and what fixes the result of sorting |

Code that updates objects is modelled by classes and methods whose contracts give the whole new state;
code that several goroutines run is cut at its lock and compare-and-swap boundaries into steps, and
what holds is proved for every sequence of steps. Every lemma switches automatic induction off, so
that each proof is the one written down.

Parameters of the model: the hash functions (of selectors, and of label pairs), the regular expression
engine, the JSON and logfmt decoders, the payload size, the outcome of each send, the clock readings,
and what each read of the token file finds. Two hashes of selectors are assumed to be equal only for
equal tests (`CollisionFree`); payload sizes are positive; clock readings taken under one lock do not
decrease.

Where code and comment differ, the model follows the code:

- the comment on the value cut says that the byte bound is used when the whole prefix is continuation
  bytes (internal/metrics/labels.go:66-73); the loop never looks at byte 0, so one leading byte in
  front of them is cut the same way (`CutAtBoundIff`);
- the fallback name of the schema generator (internal/docscheck/jsonschema.go:162-169) is not checked
  itself: when it is taken as well, two types get one definition (`ChosenIsFreeIff`, and `ClashRun` for a
  schema that is wrong by it); the references are right exactly when structs given one name decode alike
  (`ReferencesRightIffSharedAlike`);
- the schema refuses a document that is just null, which the binary loads without effect
  (`RootNullIsTheOneGap`);
- the schema is said never to reject what the binary accepts, and to enforce what it enforces
  (internal/docscheck/jsonschema.go:6-15); but a field tagged `-,` or a tagged embedded struct that is not
  exported has a key in encoding/json and none in the schema, a list of bytes is also loaded from an array
  of numbers, and an array of bytes from nothing else (`PartedBothWays`; exactly when, `ParityIff`);
- a throttle asked with no interval lets several racers through; with a positive one it never does
  (`LoserRuleIff`);
- the error that a woken first use reports (internal/bearer/bearer.go:547-551) may be that of a later
  read than the one it waited for (`WokenMayHearALaterRead`; exactly when, `HearsItsOwnReadIff`).

## Model

| member | source | states |
|---|---|---|
| SchemaGen.ConfigSchema | internal/docscheck/jsonschema.go:55-71 | for every well-formed type graph and every spelling: in the document emitted every `$ref` of the root and of every definition, followed from the root of the document, leads to a filled definition, which describes a struct of its name; the references are right iff structs that were given one name decode alike, and then the emitted document, read as draft-07 by its keywords, accepts a value iff the strict type-directed decoder takes it, for every document; recursive structs spelled apart are never given one name; and how far that is what encoding/json loads is decided by the types, as ParityIff says |
| SchemaDocument.DocumentDefines | internal/docscheck/jsonschema.go:60-69 | in the emitted document every reference that names a filled definition is a JSON pointer to it (RFC 6901): evaluated token by token from the root of the document |
| SchemaDocument.DocumentAccepts | internal/docscheck/jsonschema.go:56-70 | the emitted JSON, read by its keywords alone, accepts just what the root schema with its definitions does |
| SchemaDocument.DocumentDescribed | internal/docscheck/jsonschema.go:62-69 | the schema dialect, title and description, and definitions iff there are any |
| SchemaMeaning.ReferencesRightIffSharedAlike | internal/docscheck/jsonschema.go:158-179 | the exact condition: every reference accepts just what its struct decodes iff structs that share a name decode alike |
| SchemaGen.SchemaCtx.SchemaFor | internal/docscheck/jsonschema.go:87-138 | the schema returned describes the type (pointers stripped; unmarshalers first; cycles by reference); names and definitions only grow; a type met again on its own path, and a struct with a field of its own type, is named; terminates on (types not yet named, types not on the path, remaining structure) |
| SchemaGen.SchemaCtx.StructSchema | internal/docscheck/jsonschema.go:142-150 | an object schema with just the entries the decoder knows, each described with its null arm, and no others admitted |
| SchemaGen.SchemaCtx.Define | internal/docscheck/jsonschema.go:158-179 | a recursive struct is named once, its name reserved before its body is rendered, and the result is a reference to it; the ancestor path is restored |
| SchemaGen.SchemaCtx.CollectStructProps | internal/docscheck/jsonschema.go:206-230 | the properties collected are those of exactly the fields the decoder knows, promoted ones included; those already there stay |
| SchemaGen.SchemaCtx.CollectField | internal/docscheck/jsonschema.go:207-229 | one field contributes nothing, its own entry or its promoted ones, as tag, embedding and visibility say |
| SchemaGen.NullableRenders | internal/docscheck/jsonschema.go:237-245 | adding the null arm turns a description of a type at the root into one below it |
| SchemaGen.ChosenIsFree | internal/docscheck/jsonschema.go:158-171 | with recursive structs spelled apart, the name chosen for a new one is held by no other |
| SchemaGen.ChosenIsFreeIff | internal/docscheck/jsonschema.go:158-171 | the name chosen for a new recursive type is free, and keeps the names apart, iff not both its spellings are taken: the fallback is not checked; it is the short one unless that is taken |
| SchemaClash.ClashBreaksAReference | internal/docscheck/jsonschema.go:158-178 | two local types Node of one package, both recursive: they are given one name, and one of them refers to a schema that takes a document its decoder refuses |
| SchemaClash.ClashRun | internal/docscheck/jsonschema.go:55-71 | the generator run on those two types has that outcome |
| SchemaGen.ReserveKeepsRegistry | internal/docscheck/jsonschema.go:171-172 | reserving the chosen name, free or not, keeps the registry of recursive types sound, with the body still missing; and free, keeps the names apart |
| SchemaGen.FillKeepsRegistry | internal/docscheck/jsonschema.go:173-176 | filling a reserved name with its struct schema keeps the registry sound |
| SchemaGen.CollectedConcat | internal/docscheck/jsonschema.go:206-230 | collecting two groups of entries with distinct keys one after the other is collecting both |
| SchemaMeaning.AcceptsIffDecodes | internal/docscheck/jsonschema.go:87-246 | any schema that describes a type accepts exactly the documents that decode, for a decoder that reads tags and bytes as the generator does, null being a no-op below the root only; where encoding/json reads them otherwise is the matter of ParityIff |
| SchemaMeaning.StructAccepts | internal/docscheck/jsonschema.go:142-150 | an object schema accepts an object iff every key is known and its value decodes: recursive subtrees stay closed to unknown keys |
| SchemaMeaning.RefAccepts | internal/docscheck/jsonschema.go:158-179 | a reference accepts what the recursive type decodes, when structs of one name decode alike |
| SchemaMeaning.NullableRefAccepts | internal/docscheck/jsonschema.go:237-240 | the alternative around a reference accepts null and what the reference accepts, and nothing else |
| SchemaMeaning.RootNullIsTheOneGap | internal/docscheck/jsonschema.go:19-24 | with null taken as a no-op at the root too, schema and decoder agree on a document unless it is null and the root schema refuses null; which it does unless the type has its own JSON unmarshaler or is an interface |
| SchemaParity.ParityIff | internal/docscheck/jsonschema.go:6-31 | the parity claimed with the binary, decided by the types: the schema rejects nothing that encoding/json loads iff the root admits null and holds, at any depth, no struct with a skipped key and no list of bytes; it accepts nothing else iff the root holds no array of bytes |
| SchemaParity.HonestIff | internal/docscheck/jsonschema.go:12-25 | below the root every document that loads is described iff the type holds nothing rendered too tightly |
| SchemaParity.StrictIff | internal/docscheck/jsonschema.go:8-10 | nothing but what loads is described iff the type holds no array of bytes |
| SchemaParity.StructCompared | internal/docscheck/jsonschema.go:197-230 | the keys the generator collects are known to encoding/json too; the two lists are the same unless some field, own or promoted, is tagged with - and a comma or is a tagged embedded struct not exported, and then encoding/json knows a key more |
| SchemaParity.EachFits | internal/docscheck/jsonschema.go:87-138 | document by document: what is described loads unless an array of bytes is held, and what loads is described unless something rendered too tightly is |
| SchemaParity.TightlyRefused | internal/docscheck/jsonschema.go:121-125 | for every type rendered too tightly, a document that loads and is refused |
| SchemaParity.PartedBothWays | internal/docscheck/jsonschema.go:206-230 | a struct for which parity fails both ways, with the two documents |
| SchemaMeaning.DescribedRefsResolve | internal/docscheck/jsonschema.go:158-178 | every reference inside a schema that describes a type leads to a filled definition |
| SchemaMeaning.RendersMonotone | internal/docscheck/jsonschema.go:158-177 | naming more types later never invalidates a schema rendered before |
| JsonSchema.UnescapeEscape | internal/docscheck/jsonschema.go:192-195 | decoding an escaped name as a JSON pointer token (section 4 of RFC 6901) gives the name back, whatever it holds |
| JsonSchema.RefResolves | internal/docscheck/jsonschema.go:178-195 | the reference written for a name, taken apart at its slashes, is a pointer to the member of that name in the definitions of the document |
| MatchMemo.MatchContext.Reset | internal/logline/selector.go:81-90 | the table then stands for the empty map, also when the 32-bit stamp wraps |
| MatchMemo.MatchContext.Cached | internal/logline/selector.go:95-111 | known iff the map holds the hash, with its outcome; the probe terminates |
| MatchMemo.MatchContext.Store | internal/logline/selector.go:114-120 | the map is updated at that hash and nowhere else |
| MatchMemo.MatchContext.Slot | internal/logline/selector.go:126-145 | the map is unchanged; the slot returned is the one of the hash, or the dead slot its probe ends at, with room for one more under half load |
| MatchMemo.MatchContext.Claim | internal/logline/selector.go:148-151 | the dead slot becomes the entry of the hash, with the outcome it last held until the caller sets it |
| MatchMemo.MatchContext.Grow | internal/logline/selector.go:155-169 | the doubled table stands for the same map |
| MatchMemo.Probe | internal/logline/selector.go:102-110 | the probe ends at the slot of the hash iff the map holds it, and otherwise at a dead slot of its run |
| MatchMemo.CarryOver | internal/logline/selector.go:159-168 | exactly the entries of this line are carried over, those of other stamps stay behind |
| MatchMemo.DeadSlotExists | internal/logline/selector.go:99-101 | a table at most half full has a dead slot: why every probe ends |
| MatchMemo.ProbeEndsAtDeadSlot | internal/logline/selector.go:102-106 | a dead slot at the end of a run proves that the hash is absent |
| MatchMemo.EntryAdded | internal/logline/selector.go:148-151 | an entry put where its probe ends keeps all other entries reachable |
| MatchMemo.OutcomeReplaced | internal/logline/selector.go:119 | overwriting an outcome changes that entry alone |
| MatchMemo.NextGenerationIsEmpty | internal/logline/selector.go:81-90 | when no slot carries the new stamp, no entry is live |
| MatchMemo.MaskedStepIsNext | internal/logline/selector.go:101-102 | in a table of power-of-two length the masked step goes to the next slot, wrapping at the end |
| Sampling.KeptAmongFirst | internal/logline/linefilter.go:45-71 | of the first n >= 1 matching lines exactly 1 + floor((n-1)*keep/D) are kept |
| Sampling.ExactlyKeepPerPeriod | internal/logline/linefilter.go:59-71 | any D consecutive matching lines hold exactly keep kept ones, wherever the run starts |
| Sampling.WithinOneOfShare | internal/logline/linefilter.go:45-53 | the number kept is always within one of n*keep/D |
| Sampling.ReciprocalKeepsEveryNth | internal/logline/linefilter.go:63-67 | when keep*N = D, line k is kept iff N divides k |
| Sampling.KeptWhenWholeAdvances | internal/logline/linefilter.go:68-71 | a line is kept exactly when the accumulated fraction passes a whole number there |
| Sampling.ProductFits | internal/logline/linefilter.go:55-57 | the product the code forms stays inside 64 bits |
| LineFilter.LineFilterRule.Sampled | internal/logline/linefilter.go:68-71 | the next matching line is numbered, and inside iff its number is in the sample |
| SelectorSyntax.ParseIffSpelled | internal/logline/selector.go:257-279 | a selector splits into label, operator and expression iff it spells just those with a non-empty label free of operators |
| SelectorSyntax.UnescapeUndoesEscape | internal/logline/selector.go:284-305 | every exact value can be spelled and is read back |
| SelectorSyntax.UnescapedReads | internal/logline/selector.go:284-305 | every text falls into characters that stand for themselves and escaped quotes and backslashes, and is read as these; any other backslash stays |
| SelectorSyntax.ReadOneWay | internal/logline/selector.go:284-289 | there is one way to take it so |
| SelectorSyntax.CompiledIff | internal/logline/selector.go:215-246 | a selector compiles exactly from its label, operator and expression: an exact expression unescaped, a regular one untouched and valid |
| SelectorSyntax.HashTellsTest | internal/logline/selector.go:236-246 | equal hashes mean equal kind, key and expression, as far as the hash functions tell the parts apart |
| SelectorSyntax.UnescapeSelector | internal/logline/selector.go:290-305 | the loop computes the one left-to-right reading of the escapes |
| SelectorSyntax.ParseSelectors | internal/logline/selector.go:221-246 | succeeds iff every selector compiles, and yields what each one compiles to |
| LineFilter.Match | internal/logline/selector.go:185-209 | with any truthful memo and collision-free hashes, the verdict is the unmemoized conjunction, and the memo stays truthful |
| LineFilter.MatchOne | internal/logline/selector.go:186-196 | one selector through the memo answers as evaluated afresh, though `=` and `!=` share its slot |
| LineFilter.OutcomeRecorded | internal/logline/selector.go:188-192 | recording a true outcome keeps the memo truthful for every selector |
| LineFilter.Keep | internal/logline/linefilter.go:143-168 | the verdict is that of the first rule that matches when evaluated afresh, keep when none does; only that rule counts the line, and only when it samples; nothing of earlier lines shows |
| LineFilter.FirstMatching | internal/logline/linefilter.go:152-163 | the rule loop stops at the first rule that matches when evaluated afresh |
| LineFilter.Evaluate | internal/logline/linefilter.go:147-163 | the same for a pooled context that served other lines before |
| LineFilter.Judge | internal/logline/linefilter.go:158-161 | a drop rule drops, a keep rule keeps or samples, no rule keeps; counters move only as said |
| LineFilter.FirstMatchIs | internal/logline/linefilter.go:152-163 | the index at which a rule matches and none before does is the first match |
| LineFilter.FirstMatchAsConfigured | internal/logline/linefilter.go:97-163 | the rule that decides is the first whose selectors hold as they are spelled in the configuration: the key resolves to the value read, or to a text the pattern matches, or not so when negated |
| LineFilter.NewLineFilter | internal/logline/linefilter.go:91-138 | refused iff some rule is unacceptable; no rules give no filter; otherwise the rules as compiled, in order, every selector key registered |
| LineFilter.CompileRule | internal/logline/linefilter.go:97-131 | one rule compiles iff action, sample bounds, non-empty match and all selectors are in order |
| LineFilter.RefusedIff | internal/logline/linefilter.go:97-131 | exactly what is refused: an unknown action, a sample on a drop rule or out of range, no selectors, and a selector without label and operator or without a valid pattern |
| LineFilter.RegisterKeys | internal/logline/linefilter.go:128-130 | every selector key that is no synthetic key becomes resolvable |
| LineFilter.SamplePartsIsClose | internal/logline/linefilter.go:107-118 | the rounded sample is below one part in D and within half a part of the configured one; it vanishes only within half a part of everything |
| LineFields.KeyIndex.Add | internal/logline/fields.go:129-139 | a key gets one slot, once; the empty and both synthetic keys get none; earlier slots stay |
| LineFields.Fields.Reset | internal/logline/fields.go:77-81 | the new line, nothing parsed, every value blank, the buffer kept |
| LineFields.Fields.Release | internal/logline/fields.go:88-93 | no reference to the line, its values or the raw views of the decoder is left, and the buffers stay |
| LineFields.Fields.Get | internal/logline/fields.go:145-161 | the value the line gives a registered key, parsed once; nothing for others |
| LineFields.Fields.Parse | internal/logline/fields.go:171-229 | each slot holds the JSON value, or the last logfmt value, of its key, and stays blank when the line does not decode; the raw views are the tokens of a JSON line, kept even when its decoding failed, and untouched by another |
| LineFields.ResolveKey | internal/logline/fields.go:46-56 | the raw line for its own key; for any other a non-empty attribute, whatever the line holds; without one the field of the line, if the key is registered, else nothing |
| LineFilter.AttributesHideTheLine | internal/logline/fields.go:46-56 | when every key the rules ask for has an attribute, the same rule matches first on any two lines |
| LineFilter.AttributeDecides | internal/logline/fields.go:46-56 | a selector whose key has an attribute tests that attribute on any two lines |
| LineFilter.FieldDecides | internal/logline/fields.go:46-56 | without an attribute, the registered field of the line decides |
| LineFields.LastValueIs | internal/logline/fields.go:193-228 | of the logfmt values of a key the last one stays, and bare keys give none |
| LineFields.SeverityIgnoresTheLine | internal/logline/fields.go:111-123 | no line, whatever it spells, changes the severity a rule sees |
| CanonicalInteger.Render | internal/logline/fields.go:241-260 | the loop computes the canonical rendering |
| CanonicalInteger.CanonicalIsNormal | internal/logline/fields.go:231-240 | the rendering is the same integer without leading zeros or negative zero, and no longer than the token |
| CanonicalInteger.NormalUnique | internal/logline/fields.go:231-240 | a normal form is determined by its value |
| CanonicalInteger.EveryNumberIsSpelled | internal/logline/fields.go:231-240 | every integer has a normal form |
| CanonicalInteger.CanonicalIsNormalForm | internal/logline/fields.go:231-260 | two tokens of any length render alike iff they are one number; rendering is idempotent; no token of the number is shorter |
| MetricExport.MetricSet.Export | internal/metrics/export.go:153-260 | the set invariant (retention in order and under both caps; every final sample accounted for as often as offered; the drop counter exact) is kept for any outcomes; flushed chunks concatenate to the resource order, each meets its own outcome, fits the limit or is one resource, and is as full as it can be; the error is that of the first permanent rejection, else of the first failure |
| MetricExport.MetricSet.OneFate | internal/metrics/export.go:298-324 | a final sample that was in one snapshot is delivered once, rejected, evicted or still held: exactly one of these, and under the time of that snapshot |
| MetricExport.MetricSet.Send | internal/metrics/export.go:190-231 | what one chunk does to each account: delivered, rejected and counted whole, or retained |
| MetricExport.MetricSet.Flush | internal/metrics/export.go:190-231 | sends the open chunk and notes the first failure and the first permanent rejection |
| MetricExport.MetricSet.Prepare | internal/metrics/export.go:159-170 | the snapshot is on offer and what was retained is merged in, nothing sent yet |
| MetricExport.MetricSet.Retain | internal/metrics/export.go:326-384 | the final samples of a failed chunk are kept, then the stalest resources and the oldest generations go until both caps hold; the counter grows by exactly the samples evicted |
| MetricExport.MetricSet.KeepFinals | internal/metrics/export.go:327-345 | each generation keeps its final samples under its own snapshot time |
| MetricExport.FinalSamples | internal/metrics/export.go:389-409 | the final samples, in order |
| MetricExport.CollectFinals | internal/metrics/export.go:328-343 | the kept generations of a resource and how many samples they hold |
| MetricExport.MetricSet.Stalest | internal/metrics/export.go:491-501 | the resource gone quietest, ties by name |
| MetricExport.MetricSet.EvictStalest | internal/metrics/export.go:346-358 | whole resources go, each staler than every one that stays, until the cap holds; the rest keep their order |
| MetricExport.MetricSet.EvictOldestGenerations | internal/metrics/export.go:421-471 | exactly the shortest prefix of the (time, newest, resource, index) order that meets the cap goes; survivors keep their order |
| MetricExport.OldestWentFirst | internal/metrics/export.go:417-470 | what went from a resource is the front of its generations, and each generation that went is older than each that stays; of one time, of the resource whose last generation is the older, then of the name before |
| MetricExport.StalestWentFirst | internal/metrics/export.go:346-358 | each resource that went has a last generation older than that of each that stays, or as old and the name before |
| MetricExport.MetricSet.MarkOldest | internal/metrics/export.go:437-451 | generations are marked in eviction order and no further than needed |
| MetricExport.CollectRefs | internal/metrics/export.go:427-433 | every retained generation is listed once |
| MetricExport.KeepUnmarked | internal/metrics/export.go:453-458 | filtering keeps just the unmarked generations, in order |
| MetricExport.Compact | internal/metrics/export.go:452-465 | marked generations go, emptied resources with them |
| MetricExport.FilterHeld | internal/metrics/export.go:466-469 | the order keeps just the resources still held |
| MetricExport.MetricSet.MergeRetry | internal/metrics/export.go:517-534 | retained generations come before the fresh ones of their resource, retained-only resources after the fresh; the retention is emptied; nothing is lost or doubled |
| MetricExport.MergedIsOk | internal/metrics/export.go:521-530 | merging keeps every resource in ascending snapshot time |
| MetricExport.MergedHolds | internal/metrics/export.go:517-545 | each resource has what was retained of it and then what the snapshot has |
| MetricExport.AfterKeepingHolds | internal/metrics/export.go:327-345 | each resource of a failed chunk has its own final generations, the others what they had |
| MetricExport.KeepOneIsOk | internal/metrics/export.go:326-345 | keeping the finals of one more resource keeps the retention in order |
| MetricExport.RemovalIsOk | internal/metrics/export.go:347-357 | removing a resource keeps the retention in order and the sample count exact |
| MetricExport.SurvivorsAreOk | internal/metrics/export.go:452-469 | removing any marked generations keeps order, ascent and the sample count |
| MetricExport.CloseAndStart | internal/metrics/export.go:247-254 | a chunk closed because the next resource does not fit is within the limit and full |
| MetricExport.ChunkSamples | internal/metrics/export.go:264-272 | all samples of the chunk, final or not |
| MetricExport.CountGenerations | internal/metrics/export.go:351-354 | the samples of a resource about to be evicted |
| Eviction.EvictionOrder | internal/metrics/export.go:427-436 | sorting lists every retained generation once, in the eviction order |
| Bytes.AtMostIff | internal/metrics/export.go:434-436 | names compare as byte strings: a prefix first, else by the first byte in which they differ |
| Eviction.RefOrder | internal/metrics/export.go:434-436 | the eviction order is total and transitive, so the choice is deterministic |
| Eviction.MarkedIffAmongFirst | internal/metrics/export.go:438-451 | a generation is marked iff it is among the first k of the order |
| Eviction.MarkWeighs | internal/metrics/export.go:447-450 | marking one more generation takes just its samples out |
| Generations.FinalsAreFinal | internal/metrics/export.go:389-409 | the kept samples are all final |
| Generations.FinalsConcat | internal/metrics/export.go:389-409 | the final samples stay in order |
| Generations.FinalGenerationsAscend | internal/metrics/export.go:342 | keeping the final samples keeps the generations in ascending time |
| LabelText.RoundTrip | internal/metrics/labels.go:215-396 | for every label set, whatever bytes it holds, parsing the printed text gives exactly the key-sorted pairs that have a value; it fails iff some value has an empty key |
| LabelText.PrintedIdentity | internal/metrics/labels.go:211-240 | two sets with distinct keys print alike iff they hold the same pairs that have a value, in whatever order |
| LabelText.String | internal/metrics/labels.go:215-240 | the loop prints the non-empty pairs in key order |
| LabelText.ParseLabels | internal/metrics/labels.go:332-360 | the loop computes the parse, errors included |
| LabelReading.ItemIsRead | internal/metrics/labels.go:337-364 | any item, whatever its spelling: an optional space, a key up to its bare equals sign, a value up to a comma outside quotes or the end; refused without a key, dropped without a value |
| LabelReading.NoItemIsRefused | internal/metrics/labels.go:343-346 | a text without a bare equals sign is refused |
| LabelReading.TextIsItem | internal/metrics/labels.go:337-364 | every text begins with an item or has no bare equals sign, so that the two say all |
| LabelReading.KeyIsRead | internal/metrics/labels.go:296-330 | a key is found in front of its bare equals sign and unescaped piece by piece |
| LabelReading.ValueIsRead | internal/metrics/labels.go:370-404 | a value is read piece by piece: bare quotes dropped, escapes resolved, a comma inside quotes kept |
| LabelReading.ParsedIff | internal/metrics/labels.go:332-336 | a label string is a text between braces whose body parses, sorted by key |
| LabelReading.PrintedPair | internal/metrics/labels.go:208-213 | a printed label set, byte for byte |
| LabelText.ParsePair | internal/metrics/labels.go:338-357 | the parser takes one printed pair off the front, whatever follows, and refuses an empty key |
| LabelText.ParseBodyOfPairs | internal/metrics/labels.go:332-360 | the printed pairs parse back to themselves, in order |
| LabelText.ScanLabelValue | internal/metrics/labels.go:366-396 | fast path and slow loop give one reading |
| LabelText.ScanPlain | internal/metrics/labels.go:367-372 | without a quote or escape before the comma the reading is the text up to it |
| LabelText.ScanEscaped | internal/metrics/labels.go:374-395 | inside quotes an escaped value is read back up to its closing quote |
| LabelText.EscapeValueIsBytewise | internal/metrics/labels.go:242-249 | three replacement passes are one escape per byte |
| LabelText.EscapeKey | internal/metrics/labels.go:261-286 | the loop escapes each byte as its kind and place ask for |
| LabelText.EscapedKeyHidesLeadingSpace | internal/metrics/labels.go:274-280 | an escaped key never starts with the byte the separator skip removes |
| LabelText.IndexUnescapedEq | internal/metrics/labels.go:317-327 | the loop finds the first `=` that no backslash escapes |
| LabelText.EqIndexAfterKey | internal/metrics/labels.go:251-286 | an escaped key hides every `=` of its own, so the first bare one ends it |
| LabelText.UnescapeKey | internal/metrics/labels.go:294-313 | the loop computes the unescaped key |
| LabelText.UnescapeUndoesEscape | internal/metrics/labels.go:293-313 | unescaping an escaped key gives the key |
| LabelText.DropEmpty | internal/metrics/labels.go:216-223 | the pairs with a value, in order |
| LabelSets.Labels.Set | internal/metrics/labels.go:93-105 | the set stays well-formed (distinct non-empty keys, bounded non-empty values) and its map changes at that key alone, to the bounded value; an empty key or value changes nothing |
| LabelSets.SetKeepsWellFormed | internal/metrics/labels.go:93-105 | setting keeps the keys distinct |
| LabelSets.SetUpdatesMap | internal/metrics/labels.go:93-105 | setting is updating the map that get reads |
| LabelSets.TruncLabelCut | internal/metrics/labels.go:56-75 | the loop computes the cut |
| LabelSets.Cut | internal/metrics/labels.go:56-75 | at most 256 bytes, all of a short value, never nothing of a non-empty one |
| LabelSets.CutAtBoundIff | internal/metrics/labels.go:60-73 | a long value is cut at the byte bound iff a rune starts there, or none starts at any byte after the first up to there |
| LabelSets.BoundedIsIdempotent | internal/metrics/labels.go:84-89 | cutting twice is cutting once, and only the empty value is cut to nothing |
| LabelSets.BoundedStaysValid | internal/metrics/labels.go:60-65 | a valid UTF-8 value (section 3 of RFC 3629) stays valid when cut |
| LabelSets.Labels.HashAccum | internal/metrics/labels.go:200-206 | the loop folds the contribution of every pair |
| LabelSets.FoldOfPermutation | internal/metrics/labels.go:157-206 | the fold does not see the order of the pairs |
| LabelSets.SetFolds | internal/metrics/labels.go:407-419 | overriding a key folds its old pair out and the bounded new one in; a new key only folds in |
| LabelSets.XorLaws | internal/metrics/labels.go:417-419 | the fold step is commutative, associative and its own inverse |
| LabelSets.TwiceIsNotAtAll | internal/metrics/labels.go:174-182 | a pair folded twice is not seen at all: why the keys must be distinct |
| LabelSets.TextIdentifiesMap | internal/metrics/labels.go:211-240 | for sets built through set, texts are equal iff the maps are, and a printed set parses back to all its pairs |
| LabelSets.EqualTextEqualHash | internal/metrics/labels.go:184-206 | equal texts, equal hashes |
| LabelSets.RunsAgree | internal/metrics/labels.go:93-240 | over any two runs of set: texts agree iff the final maps do, and then the hashes agree |
| MaskPattern.MaskPattern | internal/metrics/compile.go:378-415 | both overlays compute one function of value and pattern |
| MaskPattern.MaskedOverlaysRunes | internal/metrics/compile.go:360-415 | for a non-empty value the result is valid UTF-8 with the runes of the pattern, except at the holes the value reaches, for all bytes |
| MaskPattern.FastOverlayIsMasked | internal/metrics/compile.go:417-432 | the byte overlay is the rune overlay when the pattern, and the value as far as the pattern reaches, are single-byte |
| MaskPattern.OverlayRunes | internal/metrics/compile.go:399-414 | the rune loop computes the overlay |
| MaskPattern.OverlayBytes | internal/metrics/compile.go:388-398 | the byte loop computes the overlay |
| MaskPattern.AsciiOverlay | internal/metrics/compile.go:430-432 | probes the pattern and no more of the value than the pattern is long |
| MaskPattern.IsAscii | internal/metrics/compile.go:436-443 | true iff every byte is a rune of its own |
| Utf8.DecodedWasEncoded | internal/metrics/compile.go:395-405 | what is decoded is one byte of no rune, or a rune whose encoding stands there |
| Utf8.DecodeEncode | internal/metrics/compile.go:402-411 | decoding an encoded rune gives it back, whatever follows |
| Utf8.EncodedIsValid | internal/metrics/compile.go:399-414 | what is built by encoding runes is valid and holds just those runes |
| Utf8.ValidIffEncoded | internal/metrics/compile.go:395-405 | valid text is exactly what encoding its runes gives |
| RegexpReplace.Parse | internal/metrics/compile.go:447-486 | accepted iff it starts with a slash, has no backslash left at the end, and falls into two parts at its unescaped slashes, a closing slash aside; each error told apart |
| RegexpReplace.PiecesAreRead | internal/metrics/compile.go:448-476 | any text, whatever its escapes: bare slashes split it, an escaped slash or backslash loses its backslash, any other escaped rune keeps it, and a backslash left at the end is noticed |
| RegexpReplace.TextIsPieces | internal/metrics/compile.go:448-476 | every text is made of such pieces |
| RegexpReplace.SpelledPartsAreFound | internal/metrics/compile.go:447-486 | every pattern and replacement can be spelled, with or without the closing slash, and is split off as meant |
| Suppression.Table.Allow | internal/logdedupe/logdedupe.go:265-307 | answers and table are exactly those of a table that sweeps at every refused new key, though the sweep is skipped until its bound |
| Suppression.Table.Reclaim | internal/logdedupe/logdedupe.go:311-327 | the expired go, the rest stays, and the bound is the earliest expiry left |
| Suppression.SweepFreesNothing | internal/logdedupe/logdedupe.go:211-227 | the bound is never late: before it a sweep frees nothing |
| Suppression.RunsAreBounded | internal/logdedupe/logdedupe.go:252-307 | over any run on an ordered clock: the size stays within the limit, fullness is announced at most once, and two lines about one key are a window apart (once ever with no window) |
| Suppression.RefusedIff | internal/logdedupe/logdedupe.go:273-304 | exactly when a key may not log; entries inside their window always survive |
| Suppression.AnnouncedIffRefused | internal/logdedupe/logdedupe.go:265-309 | fullness is announced in a run exactly when some new key was refused in it |
| Throttling.Throttle.Claim | internal/logdedupe/logdedupe.go:105-110 | the verdict and the stamp after it |
| Throttling.Throttle.AllowAt | internal/logdedupe/logdedupe.go:87-89 | for a caller nobody races: fires iff nothing has or the interval has passed, and stamps just then |
| Throttling.WinnersAreSpaced | internal/logdedupe/logdedupe.go:41-110 | in every interleaving of clock readings, loads and swaps, each win loaded the stamp of the win before it and lies its own interval or more behind it |
| Throttling.OneWinnerPerStamp | internal/logdedupe/logdedupe.go:45-50 | of the callers that loaded one stamp at most one is told to log, unless one that won in between asked with no interval |
| Throttling.LoserRuleIff | internal/logdedupe/logdedupe.go:45-50 | callers that ask with interval d never log twice over one stamp, in any interleaving, iff d is positive |
| Throttling.BothWin | internal/logdedupe/logdedupe.go:105-110 | with no interval, a run from the start in which two racers that loaded one stamp are both told to log |
| Throttling.Outage.Fail | internal/logdedupe/logdedupe.go:156-170 | state and verdict after a failure; the opening one is loud and stamps unconditionally |
| Throttling.Outage.Recover | internal/logdedupe/logdedupe.go:179-186 | what the run cost, once; outside a run nothing changes |
| Throttling.Outage.Lasted | internal/logdedupe/logdedupe.go:198-203 | 0 outside a run; in one, whole seconds at most half a second from how long it has lasted, halves away from zero |
| Throttling.NearestIsRounded | internal/logdedupe/logdedupe.go:196-203 | there is just one nearest second, so that is all there is to say of the rounding |
| Throttling.RoundedIsNearest | internal/logdedupe/logdedupe.go:196-203 | the rounding gives a whole second at most half a second away, halves away from zero |
| Throttling.HistoriesAreHonest | internal/logdedupe/logdedupe.go:112-186 | over any history: reported failures and those of the open run are all the failures; a loud line that opens no run comes its interval or more after the one before |
| Throttling.EveryRunOpensLoud | internal/logdedupe/logdedupe.go:112-126 | over any history there are as many opening loud lines as runs: each run opens with one, whatever was logged moments before |
| Throttling.LoudIff | internal/logdedupe/logdedupe.go:145-170 | over any history, exactly which failures are loud: those that open a run, and those the interval or more behind the last loud line |
| Throttling.RecoveryTellsTheRun | internal/logdedupe/logdedupe.go:179-203 | over any history, a recovery outside a run tells nothing; in one, its failures and the nearest whole seconds since it was opened |
| Flights.Flight.Claim | internal/bearer/bearer.go:213-220 | the next claim number, iff no read is in flight |
| Flights.Flight.Returned | internal/bearer/bearer.go:224-229 | one channel per claim, made by the first that waits |
| Flights.Flight.Release | internal/bearer/bearer.go:234-242 | the claim ends, its stall is told, its channel is closed if there is one |
| Flights.Flight.Stall | internal/bearer/bearer.go:247-253 | reported iff the claim is the one in flight and not reported yet; loud at most once per interval |
| Flights.SingleFlight | internal/bearer/bearer.go:180-253 | in every interleaving: at most one claimed read in flight, claim numbers strictly increase, a stall at most once per claim, resumptions a prefix of the stalls, at most one channel closed per claim |
| Flights.EveryFlightIsOrderly | internal/bearer/bearer.go:191-253 | the whole protocol invariant, over every run |
| Flights.InFlightIsTheClaim | internal/bearer/bearer.go:191-220 | the reads that were claimed and have not returned are the one the claim says, or none |
| Flights.StallOnlyInFlight | internal/bearer/bearer.go:244-253 | a stall is reported only while the read it is about is in flight |
| Flights.StallIsReported | internal/bearer/bearer.go:247-253 | the stall of a read in flight is reported the first time a claimer gives it up |
| Flights.ClaimedIffFree | internal/bearer/bearer.go:213-220 | a claim is made exactly when no claimed read is in flight |
| TokenFile.File.Enter | internal/bearer/bearer.go:495-512 | answered from a fresh or last good token, or told to wait for the first read, or given the claim |
| TokenFile.File.Store | internal/bearer/bearer.go:450-456 | the token, its time, and no error left |
| TokenFile.File.Publish | internal/bearer/bearer.go:572-615 | a good read is published; a failed one keeps the last good token and answers with it, or leaves its error |
| TokenFile.File.GiveUp | internal/bearer/bearer.go:523-534 | a claimer that stopped waiting reports the stall and answers from the last good token |
| TokenFile.File.AnswerWoken | internal/bearer/bearer.go:560-566 | a woken caller gets the token or the error of the read |
| TokenFile.EveryRunIsSound | internal/bearer/bearer.go:476-615 | in every interleaving: every token presented was the last good one at some time during its call, a call that began with a token to fall back on is answered with one, and a caller woken by the end of a read is never told it is pending |
| TokenFile.ReadsIffStale | internal/bearer/bearer.go:495-512 | over every run, a call claims a read exactly when none is in flight and either no token was published or the last publication or returned read lies the interval or more back |
| TokenFile.OthersAreAnswered | internal/bearer/bearer.go:495-512 | over every run, any other call has the token published last at once, or before there is one waits for the read in flight |
| TokenFile.ClaimerHearsItsRead | internal/bearer/bearer.go:513-522 | over every run, a claimer whose read returned is told what it found |
| TokenFile.WaitersCanWake | internal/bearer/bearer.go:234-242 | over every run, once no read is in flight everyone who waits for one can go on |
| TokenFile.WokenHearsTheLastRead | internal/bearer/bearer.go:547-567 | a woken caller is told the loaded token, or the error of the last claimed read that returned, which is the one it waited for or a later one |
| TokenFile.HearsItsOwnReadIff | internal/bearer/bearer.go:547-567 | when no token is loaded, it is told the error of its own read iff the last read that returned found the same one; so always when its own is the last |
| TokenFile.WokenMayHearALaterRead | internal/bearer/bearer.go:547-567 | a run in which a woken caller is told the error of a read that began after the one it waited for |
| TokenFile.StepStaysSound | internal/bearer/bearer.go:494-615 | every single step keeps that invariant |
| Rotating.Receiver.Begin | internal/bearer/bearer.go:750-789 | claims a due read iff none is in flight; otherwise answers at once, the expired predecessor dropped |
| Rotating.Receiver.Cached | internal/bearer/bearer.go:888-899 | the accept set, the expired predecessor dropped |
| Rotating.Receiver.Publish | internal/bearer/bearer.go:804-834 | a failed read only moves the next read; a new token makes the old one the predecessor for the grace |
| Rotating.AcceptSetsAreSafe | internal/bearer/bearer.go:728-899 | however late claims, reads and timeouts run, every accept set holds the last token published, its immediate predecessor exactly while the grace after the change lasts, nothing else and no empty token |
| Rotating.ReadsAreBounded | internal/bearer/bearer.go:732-738 | any two claims start a refresh or more apart, and none starts within the longer interval after a second failure in a row |
| Rotating.ClaimsIffDue | internal/bearer/bearer.go:750-789 | over every run, a caller claims a read exactly when none is in flight and it is due: a refresh after the last claim, or after the first failed read, an interval after a second failure in a row |
| Rotating.FailuresKeepTheSet | internal/bearer/bearer.go:728-738 | however many reads fail, and however long: until one succeeds every accept set handed out is the one the tokens published before promise |
| Rotating.EveryRunIsSound | internal/bearer/bearer.go:749-899 | the whole invariant, over every interleaving |
| Rotating.Resolve | internal/bearer/bearer.go:319-332 | the last positive option of each kind, and a refresh never slower than the interval |
| Rotating.LastIntervalIs | internal/bearer/bearer.go:319-332 | the interval is that of the last option that asks for a positive one |
| Rotating.LastGraceIs | internal/bearer/bearer.go:319-332 | and so is the grace |
| Authorization.Authorized | internal/bearer/bearer.go:912-925 | authorized iff the credentials of the header are among the tokens |
| Authorization.CredentialsIff | internal/bearer/bearer.go:931-941 | the credentials are a token iff the header is the scheme in any case, a space, and the token, without white space at its ends, between white space |
| Authorization.BearerIff | internal/bearer/bearer.go:931-935 | the scheme is bearer, letter by letter in either case |
| Authorization.ParseHeader | internal/bearer/bearer.go:931-941 | the credentials of the header, or none |
| Authorization.TrimmedIff | internal/bearer/bearer.go:936-939 | trimming finds just the text without white space at its ends that stands between white space |
| Authorization.WhiteIff | internal/bearer/bearer.go:936 | the white space that is trimmed, rune by rune |
| Authorization.TrimSpace | internal/bearer/bearer.go:936 | the loops trim both ends |

## Left out

- SchemaGen.ConfigSchema: requires that no struct spells one JSON key twice and that no cycle consists of pointers, containers or embedding alone; of the JSON decoder it leaves out case-insensitive keys, the shadowing order of promoted fields, integer ranges, map keys that are not strings, base64 text, array lengths, string-tagged fields, and tags that are no valid key name.
- How a number is spelled: a document holds values, so that a whole number is an integer however it is written.
- SchemaMeaning.AcceptsIffDecodes: speaks of the decoder the generator is written to, with null a no-op below the root only; the shapes that encoding/json reads otherwise (a tagged embedded struct that is not exported, the tag `-,`, bytes given as an array of numbers, text for an array of bytes) and the null at the root are in ParityIff.
- SchemaParity.ParityIff: requires that no struct answers to one key twice; a type with its own JSON unmarshaler counts as loading anything.
- SchemaDocument.DocumentDefines: a reference's fragment is taken as it stands; percent-decoding is not modelled, since Go spells no type with a percent sign.
- The indented text of the JSON document.
- MatchMemo.MatchContext.Store: slots are addressed by index, where the code hands out a pointer to the slot.
- That the low bits of a hash spread well over the table is not claimed.
- LineFilter.Keep: the nil receiver, the pool, and calls that run concurrently on one filter are not modelled; one context serves one line at a time.
- LineFilter.LineFilterRule.Sampled: the counter is unbounded, so the break in the pattern when 64 bits wrap is not modelled.
- LineFilter.NewLineFilter: the sample is a real number, so the rounding of the configured float is not modelled, nor is the text of errors.
- LineFields.Fields.Parse: the JSON and logfmt decoders, and how a JSON token becomes a value, are parameters; what they make of a line is not modelled.
- MetricExport.MetricSet.Export: the store behind the snapshots, the hand-back of consumed flags to it, the rendering of payloads and the log lines are not part of the model; two exports do not overlap, as the export lock has it.
- MetricExport.MetricSet.Retain: slices are values, so the in-place reuse of their backing arrays is not modelled.
- LabelText.String: pairs with equal keys are sorted stably, where the code's sort leaves their order open; sets built through set have none.
- LabelSets.Labels.Set: strings are values, so that the cut value is a copy, and that sets sharing a backing array see each other's writes, is not modelled.
- LabelSets.Labels.HashAccum: what one pair contributes is a parameter; the mixing of the 128-bit halves and the final avalanche are not modelled.
- RegexpReplace.Parse: works on the runes the text decodes to, each invalid byte read as U+FFFD.
- Throttling.Throttle.Claim: times are unbounded integers; the 64-bit offset does not wrap.
- Suppression.Table.Allow: clock readings are positive and do not decrease, so that 0 is free to mean an unknown bound.
- Flights.Flight.Claim: claim numbers are unbounded.
- TokenFile.File.Publish: whether a failed or recovered read is logged loudly is left to the outage reporter, which is modelled on its own.
- Authorization.Authorized: the constant time of the comparison is not modelled.
- Rotating.Resolve: the clock option is a parameter of the model.
- The file reads, timers, tickers and log records of the token file and the receiver are steps that may come at any time.
- The other modules of kubescrape (the command's wiring, leader election, informers, span aggregation, the sample store) are not modelled.
