/** The element layout that both sequence components' `render` loops emit:
    a colour legend first, then for every residue of the sequence wrapper an
    optional sequence-number span followed by the residue span. */
module SequencePanel {

  /** What `render` appends to `elems`. Residue labels come from the
      sequence wrapper and are not part of this model. */
  datatype Elem =
    | Legend(optimizedColor: string, nonOptimizedColor: string)
    | SequenceNumber(index: nat)
    | Residue(index: nat, marker: int)

  /** `hasNumbers && i % period === 0`: a period of 0 gives NaN, never 0.
      The remainder is zero for the same `i` and non-zero `period` under
      JavaScript's and Dafny's definitions of `%`. */
  predicate ShowsNumber(i: nat, hasNumbers: bool, period: int)
  {
    hasNumbers && period != 0 && i % period == 0
  }

  /** The elements emitted for residue `i`. */
  function Chunk(markers: seq<int>, i: nat, hasNumbers: bool, period: int): seq<Elem>
    requires i < |markers|
  {
    (if ShowsNumber(i, hasNumbers, period) then [SequenceNumber(i)] else []) + [Residue(i, markers[i])]
  }

  /** The elements emitted for residues `i` to the end. */
  function Chunks(markers: seq<int>, i: nat, hasNumbers: bool, period: int): seq<Elem>
    requires i <= |markers|
    decreases |markers| - i
  {
    if i == |markers| then [] else Chunk(markers, i, hasNumbers, period) + Chunks(markers, i + 1, hasNumbers, period)
  }

  /** Emitting residue `i`'s chunk moves it from the pending elements to
      the emitted ones. */
  lemma ChunksStep(emitted: seq<Elem>, markers: seq<int>, i: nat, hasNumbers: bool, period: int)
    requires i < |markers|
    ensures emitted + Chunks(markers, i, hasNumbers, period)
            == (emitted + Chunk(markers, i, hasNumbers, period)) + Chunks(markers, i + 1, hasNumbers, period)
  {
    assert Chunks(markers, i, hasNumbers, period)
           == Chunk(markers, i, hasNumbers, period) + Chunks(markers, i + 1, hasNumbers, period);
  }

  /** Everything `render` emits for a wrapper whose marker array is `markers`. */
  function Layout(legend: Elem, markers: seq<int>, hasNumbers: bool, period: int): seq<Elem>
  {
    [legend] + Chunks(markers, 0, hasNumbers, period)
  }

  /** The residue elements of `es`, in order. */
  function Residues(es: seq<Elem>): seq<Elem>
  {
    if es == [] then [] else (if es[0].Residue? then [es[0]] else []) + Residues(es[1..])
  }

  lemma {:induction false} ResiduesAppend(a: seq<Elem>, b: seq<Elem>)
    ensures Residues(a + b) == Residues(a) + Residues(b)
  {
    if a == [] {
      assert a + b == b;
    } else {
      assert (a + b)[0] == a[0];
      assert (a + b)[1..] == a[1..] + b;
      ResiduesAppend(a[1..], b);
    }
  }

  /** The residues `i` to the end, each with its marker. */
  function ResidueRun(markers: seq<int>, i: nat): (r: seq<Elem>)
    requires i <= |markers|
    ensures |r| == |markers| - i
    ensures forall k :: 0 <= k < |r| ==> r[k] == Residue(i + k, markers[i + k])
    decreases |markers| - i
  {
    if i == |markers| then [] else [Residue(i, markers[i])] + ResidueRun(markers, i + 1)
  }

  lemma {:induction false} ChunksResidues(markers: seq<int>, i: nat, hasNumbers: bool, period: int)
    requires i <= |markers|
    ensures Residues(Chunks(markers, i, hasNumbers, period)) == ResidueRun(markers, i)
    decreases |markers| - i
  {
    if i < |markers| {
      var chunk := Chunk(markers, i, hasNumbers, period);
      ResiduesAppend(chunk, Chunks(markers, i + 1, hasNumbers, period));
      var r := [Residue(i, markers[i])];
      assert Residues(r) == r by {
        assert r[1..] == [];
      }
      if ShowsNumber(i, hasNumbers, period) {
        var n := [SequenceNumber(i)];
        assert Residues(n) == [] by {
          assert n[1..] == [];
        }
        ResiduesAppend(n, r);
      } else {
        assert chunk == r;
      }
      ChunksResidues(markers, i + 1, hasNumbers, period);
    }
  }

  /** `render` emits exactly one residue element per residue of the wrapper,
      in sequence order, each carrying that residue's marker. */
  lemma LayoutResidues(legend: Elem, markers: seq<int>, hasNumbers: bool, period: int)
    requires !legend.Residue?
    ensures |Residues(Layout(legend, markers, hasNumbers, period))| == |markers|
    ensures forall k :: 0 <= k < |markers| ==>
              Residues(Layout(legend, markers, hasNumbers, period))[k] == Residue(k, markers[k])
  {
    ResiduesAppend([legend], Chunks(markers, 0, hasNumbers, period));
    assert Residues([legend]) == [] by {
      assert [legend][1..] == [];
    }
    ChunksResidues(markers, 0, hasNumbers, period);
  }

  /** Sequence numbers sit right before the residue they number, and a
      residue is preceded by its number exactly when the number is shown. */
  ghost predicate NumbersPlaced(es: seq<Elem>, hasNumbers: bool, period: int)
  {
    && (forall p :: 0 <= p < |es| && es[p].SequenceNumber? ==>
          p + 1 < |es| && es[p + 1].Residue? && es[p + 1].index == es[p].index)
    && (forall p :: 0 < p < |es| && es[p].Residue? ==>
          (es[p - 1].SequenceNumber? <==> ShowsNumber(es[p].index, hasNumbers, period)))
  }

  /** The first element starts a residue's chunk. */
  ghost predicate StartsChunk(es: seq<Elem>, hasNumbers: bool, period: int)
  {
    es != [] ==> es[0].SequenceNumber? || (es[0].Residue? && !ShowsNumber(es[0].index, hasNumbers, period))
  }

  lemma {:induction false} ChunksPlaced(markers: seq<int>, i: nat, hasNumbers: bool, period: int)
    requires i <= |markers|
    ensures NumbersPlaced(Chunks(markers, i, hasNumbers, period), hasNumbers, period)
    ensures StartsChunk(Chunks(markers, i, hasNumbers, period), hasNumbers, period)
    decreases |markers| - i
  {
    if i < |markers| {
      var head := Chunk(markers, i, hasNumbers, period);
      var rest := Chunks(markers, i + 1, hasNumbers, period);
      ChunksPlaced(markers, i + 1, hasNumbers, period);
      var es := head + rest;
      assert es == Chunks(markers, i, hasNumbers, period);
      var h := |head|;
      assert head[h - 1] == Residue(i, markers[i]);
      forall p | 0 <= p < |es| && es[p].SequenceNumber?
        ensures p + 1 < |es| && es[p + 1].Residue? && es[p + 1].index == es[p].index
      {
        if p >= h {
          assert es[p] == rest[p - h];
          assert es[p + 1] == rest[p + 1 - h];
        }
      }
      forall p | 0 < p < |es| && es[p].Residue?
        ensures es[p - 1].SequenceNumber? <==> ShowsNumber(es[p].index, hasNumbers, period)
      {
        if p > h {
          assert es[p] == rest[p - h];
          assert es[p - 1] == rest[p - 1 - h];
        } else if p == h {
          assert es[p] == rest[0];
        }
      }
    }
  }

  /** The placement of sequence numbers in everything `render` emits. */
  lemma LayoutNumbersPlaced(legend: Elem, markers: seq<int>, hasNumbers: bool, period: int)
    requires legend.Legend?
    ensures NumbersPlaced(Layout(legend, markers, hasNumbers, period), hasNumbers, period)
    ensures Layout(legend, markers, hasNumbers, period)[0] == legend
  {
    var rest := Chunks(markers, 0, hasNumbers, period);
    ChunksPlaced(markers, 0, hasNumbers, period);
    var es := [legend] + rest;
    forall p | 0 <= p < |es| && es[p].SequenceNumber?
      ensures p + 1 < |es| && es[p + 1].Residue? && es[p + 1].index == es[p].index
    {
      assert es[p] == rest[p - 1];
      assert es[p + 1] == rest[p];
    }
    forall p | 0 < p < |es| && es[p].Residue?
      ensures es[p - 1].SequenceNumber? <==> ShowsNumber(es[p].index, hasNumbers, period)
    {
      assert es[p] == rest[p - 1];
      if p > 1 { assert es[p - 1] == rest[p - 2]; }
    }
  }
}
