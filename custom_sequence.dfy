/** The secondary-structure sequence panel, the older variant of the
    sequence strip: residue colours with an index-parity override, a
    secondary-structure overlay built during `render`, and a rewrite of an
    empty secondary-structure strip. */
module CustomSequence {
  import opened Common
  import opened Annotations
  import opened SequencePanel
  import Provider

  const Blue := "rgb(102, 161, 255)"   // optimized residue, even index
  const Red := "rgb(255, 102, 102)"    // non-optimized residue, odd index
  const Green := "rgb(51, 255, 25)"    // selected
  const Pink := "rgb(255, 102, 153)"   // highlighted

  /** Iterating the annotation slot while nothing is loaded throws. */
  datatype Error = DataNotLoaded

  function FlagColor(flag: Option<bool>): string
  {
    match flag
    case None => ""
    case Some(optimized) => if optimized then Blue else Red
  }

  /** `getBackgroundColor`. The annotation colour is computed first; a
      defined, non-zero `seqIdx` then replaces it by its parity colour; a
      non-zero marker replaces both. */
  function BackgroundColor(marker: int, seqIdx: Option<int>, data: Option<seq<Entry>>): (r: Result<string, Error>)
    ensures data.None? <==> r == Err(DataNotLoaded)
  {
    if data.None? then Err(DataNotLoaded)
    else
      var annotated := FlagColor(LastMatch(data.value, seqIdx));
      var color := if seqIdx.Some? && seqIdx.value != 0 then (if seqIdx.value % 2 == 0 then Blue else Red) else annotated;
      Ok(if marker == 0 then color else if marker % 2 == 0 then Green else Pink)
  }

  /** The loop of `getBackgroundColor`. */
  method GetBackgroundColor(marker: int, seqIdx: Option<int>, data: Option<seq<Entry>>) returns (r: Result<string, Error>)
    ensures r == BackgroundColor(marker, seqIdx, data)
  {
    if data.None? {
      return Err(DataNotLoaded);
    }
    var entries := data.value;
    var color := "";
    for k := 0 to |entries|
      invariant color == FlagColor(LastMatch(entries[..k], seqIdx))
    {
      var entry := entries[k];
      assert entries[..k + 1] == entries[..k] + [entry];
      LastMatchStep(entries[..k], entry, seqIdx);
      if Matches(entry, seqIdx) {
        color := if entry.optimized then Blue else Red;
      }
    }
    assert entries[..|entries|] == entries;
    if seqIdx.Some? && seqIdx.value != 0 {
      color := if seqIdx.value % 2 == 0 then Blue else Red;
    }
    r := Ok(if marker == 0 then color else if marker % 2 == 0 then Green else Pink);
  }

  /** A non-zero marker decides alone: even is selected (green), odd is
      highlighted (pink), whatever the index and the annotations. */
  lemma MarkedBackground(marker: int, seqIdx: Option<int>, entries: seq<Entry>)
    requires marker != 0
    ensures BackgroundColor(marker, seqIdx, Some(entries)) == Ok(if marker % 2 == 0 then Green else Pink)
  {
  }

  /** With marker 0 and a defined non-zero index, the index parity decides
      and overrides any annotation: even is blue, odd is red. */
  lemma IndexParityOverrides(i: int, entries: seq<Entry>)
    requires i != 0
    ensures BackgroundColor(0, Some(i), Some(entries)) == Ok(if i % 2 == 0 then Blue else Red)
  {
  }

  /** With marker 0 and index 0, the last annotation of residue 0 decides. */
  lemma IndexZeroFromLastMatch(entries: seq<Entry>, j: int)
    requires IsLastMatch(entries, Some(0), j)
    ensures BackgroundColor(0, Some(0), Some(entries)) == Ok(if entries[j].optimized then Blue else Red)
  {
    LastMatchIsLast(entries, Some(0), j);
  }

  /** With marker 0 and index 0 or no index, no matching annotation gives
      `''`; without an index nothing matches at all. */
  lemma UnindexedWithoutMatch(seqIdx: Option<int>, entries: seq<Entry>)
    requires seqIdx == None || seqIdx == Some(0)
    requires forall j :: 0 <= j < |entries| ==> !Matches(entries[j], seqIdx)
    ensures BackgroundColor(0, seqIdx, Some(entries)) == Ok("")
  {
    LastMatchNone(entries, seqIdx);
  }

  /** The span colours after a successful `updateMarker`. */
  function Recoloured(spans: seq<string>, markers: seq<int>, entries: seq<Entry>): (r: seq<string>)
    ensures |r| == |spans|
  {
    seq(|spans|, i requires 0 <= i < |spans| =>
      if i < |markers| then BackgroundColor(markers[i], Some(i), Some(entries)).value else spans[i])
  }

  /** One iteration of `updateMarker`'s loop recolours span `i` alone. */
  lemma RecolouredStep(spans: seq<string>, markers: seq<int>, i: nat, entries: seq<Entry>)
    requires i < |markers|
    ensures Recoloured(spans, markers[..i + 1], entries)
            == if i < |spans| then Recoloured(spans, markers[..i], entries)[i := BackgroundColor(markers[i], Some(i), Some(entries)).value]
               else Recoloured(spans, markers[..i], entries)
  {
    assert forall k :: 0 <= k < i ==> markers[..i + 1][k] == markers[..i][k];
  }

  /** Since `updateMarker` passes each span's own index, only span 0 ever
      takes an annotation colour: every other span is coloured the same
      whatever annotations are loaded. */
  lemma AnnotationsReachOnlyFirstSpan(spans: seq<string>, markers: seq<int>, entries: seq<Entry>, other: seq<Entry>, i: int)
    requires 0 < i < |spans|
    ensures Recoloured(spans, markers, entries)[i] == Recoloured(spans, markers, other)[i]
  {
  }

  /** JavaScript's `\s`: white space and line terminators. */
  predicate IsJsWhitespace(c: char)
  {
    || c == '\t' || c == '\n' || c == '\U{000B}' || c == '\U{000C}' || c == '\r' || c == ' '
    || c == '\U{00A0}' || c == '\U{1680}' || ('\U{2000}' <= c <= '\U{200A}')
    || c == '\U{2028}' || c == '\U{2029}' || c == '\U{202F}' || c == '\U{205F}'
    || c == '\U{3000}' || c == '\U{FEFF}'
  }

  /** The strip's emptiness test: its text is non-empty and holds only
      `\s` characters and zero width spaces (U+200B). */
  predicate IsEmptyStrip(text: string)
  {
    |text| > 0 && forall k :: 0 <= k < |text| ==> IsJsWhitespace(text[k]) || text[k] == '\U{200B}'
  }

  /** The strip text after `updateMarker`: an empty strip becomes the
      single-space overlay, anything else is kept. */
  function StripAfter(text: string): (r: string)
    ensures IsEmptyStrip(text) ==> r == " "
    ensures !IsEmptyStrip(text) ==> r == text
  {
    if IsEmptyStrip(text) then " " else text
  }

  /** Rewriting the strip is idempotent: the single space is itself an
      empty strip. */
  lemma StripAfterIdempotent(text: string)
    ensures StripAfter(StripAfter(text)) == StripAfter(text)
  {
    if IsEmptyStrip(text) {
      assert IsEmptyStrip(" ");
    }
  }

  /** The text of the first legend entry `render` emits. Both legend
      entries carry the strip's class and come before every residue, so
      the first element with that class is this entry. */
  const LegendText := "Optimized residue"

  /** That text is not an empty strip, so the rewrite never fires on it. */
  lemma LegendStripKept()
    ensures !IsEmptyStrip(LegendText)
    ensures StripAfter(LegendText) == LegendText
  {
    assert !IsJsWhitespace(LegendText[0]) && LegendText[0] != '\U{200B}';
  }

  /** A DOM element whose text content `updateMarker` may rewrite. */
  class Div {
    var textContent: string

    constructor (text: string)
      ensures textContent == text
    {
      textContent := text;
    }
  }

  /** `updateMarker`. `mounted` is false while the component has no DOM
      node; `spans` are its residue spans in document order; `strip` is
      the secondary-structure strip, or null. Returns whether it threw:
      with no annotations loaded the first existing span throws before
      anything is written. */
  method UpdateMarker(mounted: bool, spans: array<string>, markers: seq<int>, strip: Div?, data: Option<seq<Entry>>)
    returns (threw: bool)
    modifies spans, strip
    ensures !mounted ==> !threw
    ensures mounted ==> threw == (data.None? && |markers| > 0 && spans.Length > 0)
    ensures !mounted || threw || data.None? ==> spans[..] == old(spans[..])
    ensures mounted && data.Some? ==> spans[..] == Recoloured(old(spans[..]), markers, data.value)
    ensures strip != null && (!mounted || threw) ==> strip.textContent == old(strip.textContent)
    ensures strip != null && mounted && !threw ==> strip.textContent == StripAfter(old(strip.textContent))
  {
    threw := false;
    if !mounted {
      return;
    }
    var emptySS := strip != null && IsEmptyStrip(strip.textContent);
    ghost var before := spans[..];
    for i := 0 to |markers|
      invariant data.Some? ==> spans[..] == Recoloured(before, markers[..i], data.value)
      invariant data.None? ==> spans[..] == before && (i == 0 || spans.Length == 0)
      invariant strip != null ==> strip.textContent == old(strip.textContent)
    {
      if data.Some? {
        RecolouredStep(before, markers, i, data.value);
      }
      if i < spans.Length {
        var backgroundColor := GetBackgroundColor(markers[i], Some(i), data);
        if backgroundColor.Err? {
          return true;
        }
        if spans[i] != backgroundColor.value {
          spans[i] := backgroundColor.value;
        }
      }
    }
    assert markers[..|markers|] == markers;
    if emptySS {
      strip.textContent := " ";
    }
  }

  /** The located element's unit and the residue index of its element. */
  datatype Location = Location(unit: Provider.Unit, residueIndex: int)

  /** The secondary-structure element at a location, when every lookup on
      the way succeeds: an atomic unit, a value for its invariant id, an
      index for the residue, a key at that index, an element at that key. */
  function LocatedElement(loc: Option<Location>, value: Option<map<int, Provider.SecondaryStructure>>): Option<Provider.SSElement>
  {
    if loc.None? || !loc.value.unit.isAtomic || value.None? || loc.value.unit.invariantId !in value.value then None
    else
      var ss := value.value[loc.value.unit.invariantId];
      var r := loc.value.residueIndex;
      if r !in ss.index || !(0 <= ss.index[r] < |ss.key|) then None
      else if !(0 <= ss.key[ss.index[r]] < |ss.elements|) then None
      else Some(ss.elements[ss.key[ss.index[r]]])
  }

  /** `secondaryStructureKind`: the kind of the element at the residue's
      location, with `' '` for every lookup that fails and for `'none'`.
      `value` is the secondary-structure property's value for the
      structure, None when it is not computed. */
  function SecondaryStructureKind(loc: Option<Location>, value: Option<map<int, Provider.SecondaryStructure>>): (kind: string)
    ensures kind != "none"
    ensures kind != " " ==> LocatedElement(loc, value) == Some(Provider.SSElement(kind))
    ensures LocatedElement(loc, value).None? ==> kind == " "
    ensures LocatedElement(loc, value).Some? && LocatedElement(loc, value).value.kind != "none" ==>
              kind == LocatedElement(loc, value).value.kind
  {
    if loc.None? || !loc.value.unit.isAtomic then " "
    else
      var secStruc := if value.Some? && loc.value.unit.invariantId in value.value
                      then Some(value.value[loc.value.unit.invariantId]) else None;
      if secStruc.None? then " "
      else
        var ss := secStruc.value;
        var r := loc.value.residueIndex;
        var elem := if r in ss.index && 0 <= ss.index[r] < |ss.key| && 0 <= ss.key[ss.index[r]] < |ss.elements|
                    then Some(ss.elements[ss.key[ss.index[r]]]) else None;
        if elem.None? then " "
        else if elem.value.kind != "none" then elem.value.kind
        else " "
  }

  /** `ss[0]`: the first character of the kind; the `undefined` that
      indexing an empty string gives is modelled as `""`. */
  function FirstChar(s: string): (r: string)
    ensures s == [] ==> r == ""
    ensures s != [] ==> r == [s[0]]
  {
    if s == [] then "" else s[..1]
  }

  /** The first characters of the residues' kinds, in residue order. */
  function OverlayChars(loci: seq<Option<Location>>, value: Option<map<int, Provider.SecondaryStructure>>): (r: seq<string>)
    ensures |r| == |loci|
    ensures forall i :: 0 <= i < |loci| ==> r[i] == FirstChar(SecondaryStructureKind(loci[i], value))
    decreases |loci|
  {
    if loci == [] then []
    else OverlayChars(loci[..|loci| - 1], value) + [FirstChar(SecondaryStructureKind(loci[|loci| - 1], value))]
  }

  /** The overlay `render` builds: a leading space, then one first
      character per residue when the overlay is shown and the model has
      secondary structure. */
  function Overlays(loci: seq<Option<Location>>, hideSecondaryStructure: bool, hasModelSecondaryStructure: bool,
                    value: Option<map<int, Provider.SecondaryStructure>>): (r: seq<string>)
    ensures hideSecondaryStructure || !hasModelSecondaryStructure ==> r == [" "]
    ensures !hideSecondaryStructure && hasModelSecondaryStructure ==>
              |r| == |loci| + 1 && r[0] == " "
              && forall i :: 0 <= i < |loci| ==> r[i + 1] == FirstChar(SecondaryStructureKind(loci[i], value))
  {
    if hideSecondaryStructure || !hasModelSecondaryStructure then [" "]
    else [" "] + OverlayChars(loci, value)
  }

  /** One iteration of `render`'s loop adds at most the residue's entry. */
  lemma OverlaysStep(loci: seq<Option<Location>>, i: nat, hideSecondaryStructure: bool, hasModelSecondaryStructure: bool,
                     value: Option<map<int, Provider.SecondaryStructure>>)
    requires i < |loci|
    ensures Overlays(loci[..i + 1], hideSecondaryStructure, hasModelSecondaryStructure, value)
            == Overlays(loci[..i], hideSecondaryStructure, hasModelSecondaryStructure, value)
               + if hideSecondaryStructure || !hasModelSecondaryStructure then []
                 else [FirstChar(SecondaryStructureKind(loci[i], value))]
  {
    var longer := loci[..i + 1];
    assert longer[..i] == loci[..i];
    assert longer[i] == loci[i];
    var c := FirstChar(SecondaryStructureKind(loci[i], value));
    assert OverlayChars(longer, value) == OverlayChars(loci[..i], value) + [c];
    if !hideSecondaryStructure && hasModelSecondaryStructure {
      assert [" "] + (OverlayChars(loci[..i], value) + [c]) == ([" "] + OverlayChars(loci[..i], value)) + [c];
    }
  }

  /** The loop of `render`: the elements, and the overlay characters.
      `loci` holds the location of each residue of the wrapper. */
  method Render(markers: seq<int>, loci: seq<Option<Location>>, hideSequenceNumbers: bool, hideSecondaryStructure: bool,
                period: int, hasModelSecondaryStructure: bool, value: Option<map<int, Provider.SecondaryStructure>>)
    returns (elems: seq<Elem>, overlays: seq<string>)
    requires |loci| == |markers|
    ensures elems == Layout(Legend(Blue, Red), markers, !hideSequenceNumbers, period)
    ensures overlays == Overlays(loci, hideSecondaryStructure, hasModelSecondaryStructure, value)
  {
    elems := [Legend(Blue, Red)];
    var hasNumbers := !hideSequenceNumbers;
    overlays := [" "];
    var n := |markers|;
    for i := 0 to n
      invariant elems + Chunks(markers, i, hasNumbers, period) == Layout(Legend(Blue, Red), markers, hasNumbers, period)
      invariant overlays == Overlays(loci[..i], hideSecondaryStructure, hasModelSecondaryStructure, value)
    {
      ghost var emitted := elems;
      if hasNumbers && period != 0 && i % period == 0 && i < n {
        elems := elems + [SequenceNumber(i)];
      }
      elems := elems + [Residue(i, markers[i])];
      ChunksStep(emitted, markers, i, hasNumbers, period);
      assert elems == emitted + Chunk(markers, i, hasNumbers, period);
      OverlaysStep(loci, i, hideSecondaryStructure, hasModelSecondaryStructure, value);
      if !hideSecondaryStructure {
        if !hasModelSecondaryStructure {
          continue;
        }
        var ss := SecondaryStructureKind(loci[i], value);
        overlays := overlays + [FirstChar(ss)];
      }
    }
    assert loci[..n] == loci;
  }
}
