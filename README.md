# FFFold Mol* plugin: sequence colouring and secondary-structure provider rules

This project is a Dafny model of the decision rules in the FFFold plugin for
the Mol* molecular viewer. The rest of the plugin is glue that fetches files,
drives the Mol* plugin context and renders React controls. The model covers
four parts:

- **FFFold sequence panel** (`fffold_sequence.dfy`). It colours the residue
  spans of the sequence strip from the per-residue annotations in
  `window.JsonData`. With marker 0, the last annotation of a residue decides
  between the optimized and non-optimized colours. A non-zero marker gives
  the selected colour when even and the highlighted colour when odd.
  `updateMarker` recolours the spans in place and writes only where the
  colour differs. `render` emits a legend, then each residue with an
  optional sequence number before it.
- **Older secondary-structure sequence panel** (`custom_sequence.dfy`). It
  has the same colouring scan, plus an override by index parity. Reading
  annotations that are not loaded throws. Its `updateMarker` also rewrites
  an empty secondary-structure strip to a single space.
  `secondaryStructureKind` looks up a residue's element kind and falls back
  to `' '`. `render` builds an overlay with one character per residue.
- **Partial-charge metadata property** (`fffold_provider.dfy`). It folds the
  `sb_ncbr_partial_atomic_charges_meta` category into a map from type id to
  method. It caches the result on the model under a fixed key, and it has a
  category-presence test.
- **Secondary-structure provider** (`provider.dfy`). It chooses the default
  source, "model" or "dssp". It builds the map from the invariant id of each
  symmetry group's first unit to that unit's secondary structure. `obtain`
  dispatches between the two sources. It also has a category-presence test.

Shared pieces:

- `annotations.dfy`: the annotation records and the last-match scan.
- `sequence_panel.dfy`: the element layout that both `render` loops emit.
- `keyed_map.dfy`: the `Map.set`-in-a-loop fold with its last-write-wins
  lemmas, used by `computeModel`, `computeDssp` and `getTypeIdToMethod`.
- `cif.dfy`: CIF categories and columns.
- `common.dfy`: `Option` and `Result`.

How the model treats inputs and failures:

- Mol* objects become plain records. A unit is its invariant id, whether it
  is atomic, whether its model is coarse-grained, and its model's secondary
  structure. A model is whether it comes from the PDB archive and whether it
  has secondary structure. A symmetry group is its first unit plus the
  others.
- DOM spans become an `array<string>` of background colours. A span that
  `querySelectorAll` does not find is an index past the array's end. The
  secondary-structure strip is a `Div` object holding its text, or null.
- The DSSP computation (`computeUnitDSSP`) is a function parameter.
- The global annotation slot is an `Option`, None while nothing is loaded.
- Where the source throws, the model returns a `Result` error or a `threw`
  flag. This covers reading a field of `undefined` or iterating `undefined`.

## Model

| member | source | states |
|---|---|---|
| `Annotations.LastMatchIsLast` | src/extension/FFFoldSequence.tsx:41-45 | the entry that matches the residue with no later match decides the scan's flag: later matches overwrite earlier ones |
| `Annotations.LastMatchHasWitness` | src/extension/FFFoldSequence.tsx:41-45 | conversely, every flag the scan yields comes from the last matching entry |
| `Annotations.LastMatchNone` | src/extension/FFFoldSequence.tsx:34-45 | the scan finds nothing exactly when no entry has `residue index - 1 == seqIdx` |
| `Annotations.LastMatchOverwrites` | src/extension/custom-sequence.tsx:48-52 | a match among later entries hides every match among earlier ones |
| `FFFoldSequence.Color` | src/extension/FFFoldSequence.tsx:33-40 | with no data loaded the colour is `''` for every marker, including non-zero markers; the result is always `''` or one of the four table colours |
| `FFFoldSequence.GetColor` | src/extension/FFFoldSequence.tsx:33-54 | the loop that overwrites `color` on each match, followed by the marker test, computes `Color` |
| `FFFoldSequence.ColorFromLastMatch` | src/extension/FFFoldSequence.tsx:41-48 | with marker 0, the last matching entry decides: the optimized colour when its flag is true, the non-optimized colour otherwise |
| `FFFoldSequence.ColorWithoutMatch` | src/extension/FFFoldSequence.tsx:34-48 | with marker 0 and no matching entry the colour is `''` |
| `FFFoldSequence.ColorOfMarked` | src/extension/FFFoldSequence.tsx:47-53 | with data loaded, a non-zero marker ignores data and index: even gives selected, odd gives highlighted |
| `FFFoldSequence.UpdateMarker` | src/extension/FFFoldSequence.tsx:19-31 | unmounted: nothing changes; otherwise span i < markers gets `Color(marker[i], i)`, other spans keep their colour, and exactly the spans whose colour differed are written |
| `FFFoldSequence.RecolouredIdempotent` | src/extension/FFFoldSequence.tsx:24-30 | recolouring twice gives the same spans as recolouring once |
| `FFFoldSequence.SecondUpdateWritesNothing` | src/extension/FFFoldSequence.tsx:29 | a second `updateMarker` writes no span, because each write is guarded by inequality |
| `FFFoldSequence.Render` | src/extension/FFFoldSequence.tsx:56-87 | the emitted elements are the legend with the optimized/non-optimized colours followed by the layout of every residue |
| `SequencePanel.LayoutResidues` | src/extension/FFFoldSequence.tsx:80-87 | the layout holds exactly one residue element per wrapper residue, in order, each carrying that residue's marker |
| `SequencePanel.LayoutNumbersPlaced` | src/extension/FFFoldSequence.tsx:61-87 | the legend comes first; a sequence number sits immediately before the residue it numbers; a residue is preceded by its number exactly when numbers are shown and `i % period == 0` |
| `CustomSequence.BackgroundColor` | src/extension/custom-sequence.tsx:45-48 | iterating the annotation slot fails exactly when no data is loaded, whatever the marker |
| `CustomSequence.GetBackgroundColor` | src/extension/custom-sequence.tsx:41-61 | the scan loop, the parity override and the marker test compute `BackgroundColor` |
| `CustomSequence.MarkedBackground` | src/extension/custom-sequence.tsx:56-60 | with data loaded, a non-zero marker gives green when even and pink when odd, whatever the index and data |
| `CustomSequence.IndexParityOverrides` | src/extension/custom-sequence.tsx:54 | with marker 0 and a defined non-zero index, index parity alone decides (even blue, odd red) and overrides any annotation |
| `CustomSequence.IndexZeroFromLastMatch` | src/extension/custom-sequence.tsx:47-57 | with marker 0 and index 0, the last matching annotation's colour is used |
| `CustomSequence.UnindexedWithoutMatch` | src/extension/custom-sequence.tsx:47-57 | with marker 0, index 0 or undefined, and no matching annotation, the colour is `''` |
| `CustomSequence.AnnotationsReachOnlyFirstSpan` | src/extension/custom-sequence.tsx:29-54 | because `updateMarker` passes each span's own index, the colour of every span after the first is independent of the loaded annotations |
| `CustomSequence.StripAfter` | src/extension/custom-sequence.tsx:26-38 | a strip whose text is non-empty and only `\s` or U+200B becomes `' '`; any other text is left as it was |
| `CustomSequence.StripAfterIdempotent` | src/extension/custom-sequence.tsx:26-38 | rewriting the strip a second time changes nothing |
| `CustomSequence.LegendStripKept` | src/extension/custom-sequence.tsx:24-38 | the element the query finds first is the "Optimized residue" legend entry, which is not an empty strip, so `updateMarker` never rewrites it |
| `CustomSequence.UpdateMarker` | src/extension/custom-sequence.tsx:21-39 | unmounted: nothing changes; without data it throws exactly when some span exists and leaves spans and strip untouched; otherwise span i < markers gets `BackgroundColor(marker[i], i)`, other spans are untouched, and the strip is rewritten when empty |
| `CustomSequence.SecondaryStructureKind` | src/extension/custom-sequence.tsx:68-77 | `' '` when there is no location, the unit is not atomic, there is no secondary structure, or there is no element; otherwise the element's kind unless it is `'none'`; never `'none'` |
| `CustomSequence.FirstChar` | src/extension/custom-sequence.tsx:116 | the overlay entry is the first character of the kind, and `""` (for `undefined`) when the kind is empty |
| `CustomSequence.Overlays` | src/extension/custom-sequence.tsx:105-117 | the overlay is `[' ']` when secondary structure is hidden or the model has none; otherwise it holds one entry per residue after the leading space |
| `CustomSequence.Render` | src/extension/custom-sequence.tsx:79-118 | emits the same layout as the FFFold panel with the blue/red legend, and the overlay described by `Overlays` |
| `KeyedMap.CollectKeys` | src/extension/provider.ts:108-114 | the keys of a `Map.set` loop are exactly the keys of the items it keeps |
| `KeyedMap.CollectLastWins` | src/extension/provider.ts:112-127 | under a repeated key, the value from the last item kept with that key is stored |
| `KeyedMap.CollectSize` | src/extension/fffold-provider.ts:89-93 | the map has at most one entry per item |
| `FFFoldProvider.HasProperties` | src/extension/fffold-provider.ts:44-52 | true iff the structure is present, its source is mmCIF, and all three `sb_ncbr_*` residue categories are present |
| `FFFoldProvider.GetTypeIdToMethod` | src/extension/fffold-provider.ts:77-96 | the loop computes `TypeIdToMethod`: an error when the source data has no CIF frame or the frame lacks the metadata category, an empty map without both columns, otherwise the fold of every row |
| `FFFoldProvider.TypeIdToMethodIgnoresFormat` | src/extension/fffold-provider.ts:80-83 | the cast to mmCIF tests nothing: another format carrying a CIF frame gets the same table as mmCIF with that frame, and one without a frame fails |
| `FFFoldProvider.TypeIdToMethodWithoutColumns` | src/extension/fffold-provider.ts:85-87 | if the `id` or the `method` column is missing, the result is the empty map |
| `FFFoldProvider.TypeIdToMethodKeys` | src/extension/fffold-provider.ts:89-93 | otherwise the keys are exactly `id` of rows below `rowCount`, so there are at most `rowCount` entries |
| `FFFoldProvider.TypeIdToMethodLastRowWins` | src/extension/fffold-provider.ts:89-93 | for a duplicated id, the method of the last row with that id is stored |
| `FFFoldProvider.ProviderPropertiesAdmitTable` | src/extension/provider.ts:90-99 | a structure that passes the secondary-structure provider's `hasProperties` has the metadata category, so building the table cannot fail on it |
| `FFFoldProvider.OwnPropertiesDoNotAdmitTable` | src/extension/fffold-provider.ts:44-52 | a structure can pass this module's own `hasProperties` and still make the table fail, since the metadata category is not among the ones it tests |
| `FFFoldProvider.Model.GetData` | src/extension/fffold-provider.ts:56-75 | a cache hit returns the cached value and leaves the cache alone; a miss builds the value, stores it under `PropertyKey` and changes no other key; a failure leaves the cache as it was |
| `FFFoldProvider.Model.GetDataTwice` | src/extension/fffold-provider.ts:57-74 | two calls in a row return the same value, and a successful value stays cached |
| `Provider.GetSecondaryStructureParams` | src/extension/provider.ts:23-36 | the scan with `break` picks `DefaultType`: "model" without a structure or when some model is archival or has secondary structure, "dssp" otherwise |
| `Provider.DefaultWithoutModelAnnotation` | src/extension/provider.ts:25-35 | if no model qualifies, the empty list included, the default type is "dssp" |
| `Provider.DefaultIgnoresLaterModels` | src/extension/provider.ts:29-33 | once a model qualifies, the default is "model" whatever models follow it |
| `Provider.Merged` | src/extension/provider.ts:79 | a supplied `type` prop wins; otherwise the static defaults give "model" |
| `Provider.ComputeModel` | src/extension/provider.ts:118-132 | the loop yields the fold over the groups keeping atomic first units with model secondary structure |
| `Provider.ComputeDssp` | src/extension/provider.ts:101-116 | the loop yields the fold over the groups keeping atomic, non-coarse-grained first units, each with its DSSP result |
| `Provider.ModelMapKeys` | src/extension/provider.ts:121-131 | the keys of `computeModel` are exactly the invariant ids of first units that are atomic and have model secondary structure |
| `Provider.DsspMapKeys` | src/extension/provider.ts:107-115 | the keys of `computeDssp` are exactly the invariant ids of first units that are atomic and not coarse-grained |
| `Provider.ModelMapLastWins` | src/extension/provider.ts:127 | when groups share an invariant id, the later group's secondary structure overwrites the earlier one |
| `Provider.DsspMapLastWins` | src/extension/provider.ts:112 | when groups share an invariant id, the later group's DSSP result overwrites the earlier one |
| `Provider.Obtain` | src/extension/provider.ts:74-86 | dispatches to `computeDssp` with the chosen DSSP props for "dssp" and to `computeModel` for "model", after merging the props over the defaults |
| `Provider.ObtainIgnoresStructureDefault` | src/extension/provider.ts:54-79 | for a structure whose parameters default to "dssp", `obtain` without a `type` prop still reads the model annotations, because its defaults come from the parameters built without a structure |
| `Provider.HasProperties` | src/extension/provider.ts:90-99 | true iff the structure is present, its source is mmCIF, and `atom_site` and both `sb_ncbr_partial_atomic_charges*` categories are present |

## Left out

- HTTP fetching, plugin initialisation and builder calls. These are in `src/models/context-model.ts`. They are I/O and calls into Mol*.
- React/JSX composition and global wiring. This covers `src/App.tsx`, `src/TestApp.tsx`, `src/index.tsx`, `src/context-provider.ts` and `src/extension/MolstarViewer.tsx`. None of it holds decision logic.
- DOM querying. Which elements `querySelectorAll` and `querySelector` return is not modelled: the spans and the strip are parameters. In the custom panel, both legend entries of `render` carry the class `msp-sequence-secondary` (`custom-sequence.tsx:88`, `:94`) and come before every residue. So `querySelector` always returns the first legend entry, whose text "Optimized residue" is never blank, and the strip rewrite of lines 36-38 never runs (`CustomSequence.LegendStripKept`). `UpdateMarker` still models that rewrite for an arbitrary element.
- The `overlays` array that the custom `render` builds (`custom-sequence.tsx:105-117`) is never read afterwards: nothing joins it or puts it in the DOM. `CustomSequence.Render` computes it as written.
- CSS colour normalisation. The browser may serialise `style.backgroundColor` differently from the string written. The model compares the strings as written.
- The `setTimeout` deferral of `updateMarker` in the FFFold `render`, and the call of `updateMarker` at the end of the custom `render`. `updateMarker` is modelled on its own.
- `console.log` and `console.error` calls.
- The throwing `rgb` stub at the end of `custom-sequence.tsx`. It is never called.
- `getSequenceNumberClass` of the custom panel. It only appends a CSS class name.
- Residue labels (`residueLabel`) and the span contents of `getSequenceNumberSpan` and `residue`. These are Mol* calls. Elements carry only their index and, for residues, their marker.
- `computeUnitDSSP` and `ModelSecondaryStructure.Provider.get`. Both are Mol* algorithms. The first is a function parameter. The second is a field of the unit.
- `getParams` of the charge property. It returns a clone of an empty parameter object, so there is nothing to decide.
- Markers that are `undefined` or not integers, and non-integer indices or periods. Mol* marker arrays hold small non-negative integers.
- Column cells are given both as parsed integers and as text. Parsing CIF numbers is not modelled. Every column has `rowCount` cells, as the CIF parser guarantees (`Cif.WellFormed`).
- A `type` prop that is present but explicitly `undefined` in `obtain`. The model treats it as absent.
- The cache on the model holds only values of this property's type. JavaScript allows any value under any key.
- `ss[0]` reads a UTF-16 code unit. The model takes the first Unicode scalar value. The two agree on Mol*'s ASCII kind names.
- The asynchronous `await`s in `obtain`, `computeDssp` and `computeModel`. The model runs them in sequence, as they run in the source.
