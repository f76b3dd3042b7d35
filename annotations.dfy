/** The per-residue annotation records that the application loads from the
    residue-log JSON file into `window.JsonData`, and the scan both sequence
    components run over them: walk every entry, and keep overwriting a colour
    whenever an entry annotates the residue at hand. */
module Annotations {
  import opened Common

  /** One record of the JSON file: its 1-based residue index, the residue
      name and whether the residue was optimized. */
  datatype Entry = Entry(residueIndex: int, residueName: string, optimized: bool)

  /** The entry annotates the 0-based sequence position `seqIdx`. An absent
      position matches nothing, since `n - 1 === undefined` is false. */
  predicate Matches(e: Entry, seqIdx: Option<int>)
  {
    seqIdx.Some? && e.residueIndex - 1 == seqIdx.value
  }

  /** Entry `j` matches and no entry after it does. */
  predicate IsLastMatch(entries: seq<Entry>, seqIdx: Option<int>, j: int)
  {
    && 0 <= j < |entries|
    && Matches(entries[j], seqIdx)
    && forall l :: j < l < |entries| ==> !Matches(entries[l], seqIdx)
  }

  /** The `optimized` flag that a forward scan overwriting on every match
      leaves behind, or None when nothing matched. */
  function LastMatch(entries: seq<Entry>, seqIdx: Option<int>): Option<bool>
  {
    if entries == [] then None
    else
      var last := entries[|entries| - 1];
      if Matches(last, seqIdx) then Some(last.optimized)
      else LastMatch(entries[..|entries| - 1], seqIdx)
  }

  /** One more step of the scan. */
  lemma LastMatchStep(entries: seq<Entry>, e: Entry, seqIdx: Option<int>)
    ensures LastMatch(entries + [e], seqIdx)
            == if Matches(e, seqIdx) then Some(e.optimized) else LastMatch(entries, seqIdx)
  {
    assert (entries + [e])[..|entries|] == entries;
  }

  /** The last matching entry decides the scan's result. */
  lemma {:induction false} LastMatchIsLast(entries: seq<Entry>, seqIdx: Option<int>, j: int)
    requires IsLastMatch(entries, seqIdx, j)
    ensures LastMatch(entries, seqIdx) == Some(entries[j].optimized)
  {
    var n := |entries|;
    if j < n - 1 {
      var init := entries[..n - 1];
      assert !Matches(entries[n - 1], seqIdx);
      assert IsLastMatch(init, seqIdx, j) by {
        forall l | j < l < |init| ensures !Matches(init[l], seqIdx) {
          assert init[l] == entries[l];
        }
      }
      LastMatchIsLast(init, seqIdx, j);
    }
  }

  /** Conversely, a result of the scan comes from the last matching entry. */
  lemma {:induction false} LastMatchHasWitness(entries: seq<Entry>, seqIdx: Option<int>)
    requires LastMatch(entries, seqIdx).Some?
    ensures exists j :: IsLastMatch(entries, seqIdx, j)
                        && entries[j].optimized == LastMatch(entries, seqIdx).value
  {
    var n := |entries|;
    if Matches(entries[n - 1], seqIdx) {
      assert IsLastMatch(entries, seqIdx, n - 1);
    } else {
      var init := entries[..n - 1];
      LastMatchHasWitness(init, seqIdx);
      var j :| IsLastMatch(init, seqIdx, j) && init[j].optimized == LastMatch(init, seqIdx).value;
      assert entries[j] == init[j];
      assert IsLastMatch(entries, seqIdx, j) by {
        forall l | j < l < n ensures !Matches(entries[l], seqIdx) {
          if l < n - 1 { assert entries[l] == init[l]; }
        }
      }
    }
  }

  /** The scan finds nothing exactly when no entry matches. */
  lemma {:induction false} LastMatchNone(entries: seq<Entry>, seqIdx: Option<int>)
    ensures LastMatch(entries, seqIdx).None?
            <==> forall j :: 0 <= j < |entries| ==> !Matches(entries[j], seqIdx)
  {
    if entries != [] {
      var n := |entries|;
      var init := entries[..n - 1];
      LastMatchNone(init, seqIdx);
      assert forall j :: 0 <= j < n - 1 ==> entries[j] == init[j];
    }
  }

  /** Later entries overwrite earlier ones: a match in `later` hides every
      match in `earlier`. */
  lemma {:induction false} LastMatchOverwrites(earlier: seq<Entry>, later: seq<Entry>, seqIdx: Option<int>)
    ensures LastMatch(earlier + later, seqIdx)
            == if LastMatch(later, seqIdx).Some? then LastMatch(later, seqIdx) else LastMatch(earlier, seqIdx)
  {
    if later == [] {
      assert earlier + later == earlier;
    } else {
      var n := |later|;
      var init := later[..n - 1];
      assert earlier + later == (earlier + init) + [later[n - 1]];
      assert later == init + [later[n - 1]];
      LastMatchStep(earlier + init, later[n - 1], seqIdx);
      LastMatchStep(init, later[n - 1], seqIdx);
      LastMatchOverwrites(earlier, init, seqIdx);
    }
  }
}
