/** The FFFold sequence panel: colours each residue span of the sequence
    strip from the loaded residue annotations, unless the residue is
    selected or highlighted. */
module FFFoldSequence {
  import opened Common
  import opened Annotations
  import opened SequencePanel

  // The component's colour table.
  const OptimizedColor := "rgb(158, 195, 255)"
  const NonOptimizedColor := "rgb(255, 167, 99)"
  const HighlightedColor := "rgb(255, 102, 153)"
  const SelectedColor := "rgb(51, 255, 25)"

  /** The colour an annotation flag stands for; no annotation gives `''`. */
  function AnnotationColor(flag: Option<bool>): string
  {
    match flag
    case None => ""
    case Some(optimized) => if optimized then OptimizedColor else NonOptimizedColor
  }

  /** The background colour of the residue at `seqIdx` under `marker`;
      `data` is the global annotation slot, None while nothing is loaded. */
  function Color(marker: int, seqIdx: Option<int>, data: Option<seq<Entry>>): (c: string)
    ensures data.None? ==> c == ""
    ensures c == "" || c == OptimizedColor || c == NonOptimizedColor || c == SelectedColor || c == HighlightedColor
  {
    if data.None? then ""
    else if marker == 0 then AnnotationColor(LastMatch(data.value, seqIdx))
    else if marker % 2 == 0 then SelectedColor
    else HighlightedColor
  }

  /** The scan as the component runs it: a loop overwriting `color` on
      every matching entry, then the marker decides. */
  method GetColor(marker: int, seqIdx: Option<int>, data: Option<seq<Entry>>) returns (c: string)
    ensures c == Color(marker, seqIdx, data)
  {
    var color := "";
    if data.None? {
      return "";
    }
    var entries := data.value;
    for k := 0 to |entries|
      invariant color == AnnotationColor(LastMatch(entries[..k], seqIdx))
    {
      var entry := entries[k];
      assert entries[..k + 1] == entries[..k] + [entry];
      LastMatchStep(entries[..k], entry, seqIdx);
      if Matches(entry, seqIdx) {
        color := if entry.optimized then OptimizedColor else NonOptimizedColor;
      }
    }
    assert entries[..|entries|] == entries;
    if marker == 0 {
      c := color;
    } else if marker % 2 == 0 {
      c := SelectedColor;
    } else {
      c := HighlightedColor;
    }
  }

  /** With marker 0 the last entry annotating the residue decides: its flag
      picks the optimized or the non-optimized colour. */
  lemma ColorFromLastMatch(seqIdx: Option<int>, entries: seq<Entry>, j: int)
    requires IsLastMatch(entries, seqIdx, j)
    ensures Color(0, seqIdx, Some(entries)) == if entries[j].optimized then OptimizedColor else NonOptimizedColor
  {
    LastMatchIsLast(entries, seqIdx, j);
  }

  /** With marker 0 and no entry annotating the residue the colour is `''`. */
  lemma ColorWithoutMatch(seqIdx: Option<int>, entries: seq<Entry>)
    requires forall j :: 0 <= j < |entries| ==> !Matches(entries[j], seqIdx)
    ensures Color(0, seqIdx, Some(entries)) == ""
  {
    LastMatchNone(entries, seqIdx);
  }

  /** Once data is loaded, a non-zero marker ignores the annotations and the
      index: even markers mean selected, odd ones highlighted. */
  lemma ColorOfMarked(marker: int, seqIdx: Option<int>, entries: seq<Entry>, otherIdx: Option<int>, other: seq<Entry>)
    requires marker != 0
    ensures Color(marker, seqIdx, Some(entries)) == Color(marker, otherIdx, Some(other))
    ensures Color(marker, seqIdx, Some(entries)) == if marker % 2 == 0 then SelectedColor else HighlightedColor
  {
  }

  /** The span colours after `updateMarker`: span `i` takes the colour of
      marker `i` at index `i`; spans beyond the marker array keep theirs. */
  function Recoloured(spans: seq<string>, markers: seq<int>, data: Option<seq<Entry>>): (r: seq<string>)
    ensures |r| == |spans|
  {
    seq(|spans|, i requires 0 <= i < |spans| =>
      if i < |markers| then Color(markers[i], Some(i), data) else spans[i])
  }

  /** The spans `updateMarker` writes to: those whose colour differs. */
  function Rewritten(spans: seq<string>, markers: seq<int>, data: Option<seq<Entry>>): set<nat>
  {
    set i: nat | i < |spans| && i < |markers| && spans[i] != Color(markers[i], Some(i), data)
  }

  /** Recolours the residue spans in place. `mounted` is false while the
      component has no DOM node; `spans` are the residue spans found in it,
      in document order. Returns the indices of the spans written. */
  method UpdateMarker(mounted: bool, spans: array<string>, markers: seq<int>, data: Option<seq<Entry>>)
    returns (written: set<nat>)
    modifies spans
    ensures !mounted ==> spans[..] == old(spans[..]) && written == {}
    ensures mounted ==> spans[..] == Recoloured(old(spans[..]), markers, data)
    ensures mounted ==> written == Rewritten(old(spans[..]), markers, data)
  {
    written := {};
    if !mounted {
      return;
    }
    ghost var before := spans[..];
    for i := 0 to |markers|
      invariant spans[..] == Recoloured(before, markers[..i], data)
      invariant written == Rewritten(before, markers[..i], data)
    {
      RecolouredStep(before, markers, i, data);
      RewrittenStep(before, markers, i, data);
      if i < spans.Length {
        var backgroundColor := GetColor(markers[i], Some(i), data);
        assert spans[i] == before[i];
        if spans[i] != backgroundColor {
          spans[i] := backgroundColor;
          written := written + {i};
        }
      }
    }
    assert markers[..|markers|] == markers;
  }

  /** One iteration of `updateMarker`'s loop recolours span `i` alone. */
  lemma RecolouredStep(spans: seq<string>, markers: seq<int>, i: nat, data: Option<seq<Entry>>)
    requires i < |markers|
    ensures Recoloured(spans, markers[..i + 1], data)
            == if i < |spans| then Recoloured(spans, markers[..i], data)[i := Color(markers[i], Some(i), data)]
               else Recoloured(spans, markers[..i], data)
  {
    var a := Recoloured(spans, markers[..i + 1], data);
    var b := Recoloured(spans, markers[..i], data);
    var c := if i < |spans| then b[i := Color(markers[i], Some(i), data)] else b;
    forall k | 0 <= k < |spans|
      ensures a[k] == c[k]
    {
      if k < i {
        assert markers[..i + 1][k] == markers[..i][k];
      }
    }
    assert a == c;
  }

  /** ... and writes to span `i` only when its colour differs. */
  lemma RewrittenStep(spans: seq<string>, markers: seq<int>, i: nat, data: Option<seq<Entry>>)
    requires i < |markers|
    ensures Rewritten(spans, markers[..i + 1], data)
            == if i < |spans| && spans[i] != Color(markers[i], Some(i), data)
               then Rewritten(spans, markers[..i], data) + {i}
               else Rewritten(spans, markers[..i], data)
  {
    var a := Rewritten(spans, markers[..i + 1], data);
    var b := Rewritten(spans, markers[..i], data);
    var c := if i < |spans| && spans[i] != Color(markers[i], Some(i), data) then b + {i} else b;
    forall k: nat | k < i
      ensures k in a <==> k in b
    {
      assert markers[..i + 1][k] == markers[..i][k];
    }
    assert a == c;
  }

  /** Running `updateMarker` again changes nothing. */
  lemma RecolouredIdempotent(spans: seq<string>, markers: seq<int>, data: Option<seq<Entry>>)
    ensures Recoloured(Recoloured(spans, markers, data), markers, data) == Recoloured(spans, markers, data)
  {
  }

  /** A second `updateMarker` writes to no span at all, since every write is
      guarded by an inequality. */
  lemma SecondUpdateWritesNothing(spans: seq<string>, markers: seq<int>, data: Option<seq<Entry>>)
    ensures Rewritten(Recoloured(spans, markers, data), markers, data) == {}
  {
    var r := Recoloured(spans, markers, data);
    forall i: nat | i < |r| && i < |markers|
      ensures r[i] == Color(markers[i], Some(i), data)
    {
    }
  }

  /** The element-emission loop of `render`. */
  method Render(markers: seq<int>, hideSequenceNumbers: bool, period: int) returns (elems: seq<Elem>)
    ensures elems == Layout(Legend(OptimizedColor, NonOptimizedColor), markers, !hideSequenceNumbers, period)
  {
    elems := [Legend(OptimizedColor, NonOptimizedColor)];
    var hasNumbers := !hideSequenceNumbers;
    var n := |markers|;
    for i := 0 to n
      invariant elems + Chunks(markers, i, hasNumbers, period)
                == Layout(Legend(OptimizedColor, NonOptimizedColor), markers, hasNumbers, period)
    {
      ghost var emitted := elems;
      if hasNumbers && period != 0 && i % period == 0 && i < n {
        elems := elems + [SequenceNumber(i)];
      }
      elems := elems + [Residue(i, markers[i])];
      ChunksStep(emitted, markers, i, hasNumbers, period);
      assert elems == emitted + Chunk(markers, i, hasNumbers, period);
    }
  }
}
