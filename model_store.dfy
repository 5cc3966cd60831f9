/** The per-node slot update of `DRFTask.updateRFModel`: the pure mutator that the
    optimistic atomic update applies to the stored model record. */
module ModelStore {
  import opened Wrappers

  /** The part of the stored random-forest model the core touches: its keys, the
      ignored columns, the requested tree count, the recorded run time, and one
      split-feature slot per cluster node (indexed by the node's index). */
  datatype RFModel = RFModel(
    key: int,
    dataKey: int,
    ignoredCols: seq<int>,
    ntrees: int,
    time: int,
    nodesSplitFeatures: seq<int>)

  /** The mutator: a missing record stays missing; otherwise a copy of the record in
      which only the slot of node `idx` holds `numSplitFeatures`. */
  function SetSplitFeatures(current: Option<RFModel>, idx: int, numSplitFeatures: int): (r: Option<RFModel>)
    requires current.Some? ==> 0 <= idx < |current.value.nodesSplitFeatures|
    ensures r.None? <==> current.None?
    ensures r.Some? ==>
              && |r.value.nodesSplitFeatures| == |current.value.nodesSplitFeatures|
              && r.value.nodesSplitFeatures[idx] == numSplitFeatures
              && (forall j :: 0 <= j < |r.value.nodesSplitFeatures| && j != idx ==>
                    r.value.nodesSplitFeatures[j] == current.value.nodesSplitFeatures[j])
              && r.value.(nodesSplitFeatures := current.value.nodesSplitFeatures) == current.value
  {
    match current
    case None => None
    case Some(m) => Some(m.(nodesSplitFeatures := m.nodesSplitFeatures[idx := numSplitFeatures]))
  }

  /** One node's write: its index and the split-feature count it computed. */
  datatype Write = Write(node: int, numSplitFeatures: int)

  predicate InRange(ws: seq<Write>, slots: nat)
  {
    forall k :: 0 <= k < |ws| ==> 0 <= ws[k].node < slots
  }

  predicate DistinctNodes(ws: seq<Write>)
  {
    forall k, l :: 0 <= k < l < |ws| ==> ws[k].node != ws[l].node
  }

  /** The record after the writes have been applied one after another, in the order
      the atomic updates happened to succeed. */
  function ApplyAll(current: Option<RFModel>, ws: seq<Write>): Option<RFModel>
    requires current.Some? ==> InRange(ws, |current.value.nodesSplitFeatures|)
    decreases ws
  {
    if ws == [] then current
    else ApplyAll(SetSplitFeatures(current, ws[0].node, ws[0].numSplitFeatures), ws[1..])
  }

  /** Writes from distinct nodes lose nothing: whatever the order, every node's slot
      ends up holding that node's value, the other slots and every other field keep
      their old values. */
  lemma {:induction false} NoLostUpdate(m: RFModel, ws: seq<Write>)
    requires InRange(ws, |m.nodesSplitFeatures|)
    requires DistinctNodes(ws)
    ensures ApplyAll(Some(m), ws).Some?
    ensures var m' := ApplyAll(Some(m), ws).value;
            && |m'.nodesSplitFeatures| == |m.nodesSplitFeatures|
            && (forall k :: 0 <= k < |ws| ==> m'.nodesSplitFeatures[ws[k].node] == ws[k].numSplitFeatures)
            && (forall j :: 0 <= j < |m.nodesSplitFeatures| && (forall k :: 0 <= k < |ws| ==> ws[k].node != j) ==>
                  m'.nodesSplitFeatures[j] == m.nodesSplitFeatures[j])
            && m'.(nodesSplitFeatures := m.nodesSplitFeatures) == m
    decreases ws
  {
    if ws != [] {
      var first := SetSplitFeatures(Some(m), ws[0].node, ws[0].numSplitFeatures).value;
      var rest := ws[1..];
      assert forall k :: 0 <= k < |rest| ==> rest[k] == ws[k + 1];
      NoLostUpdate(first, rest);
      var m' := ApplyAll(Some(m), ws).value;
      forall k | 0 <= k < |ws|
        ensures m'.nodesSplitFeatures[ws[k].node] == ws[k].numSplitFeatures
      {
        if k > 0 {
          assert rest[k - 1] == ws[k];
        } else {
          assert forall l :: 0 <= l < |rest| ==> rest[l].node != ws[0].node;
        }
      }
      forall j | 0 <= j < |m.nodesSplitFeatures| && (forall k :: 0 <= k < |ws| ==> ws[k].node != j)
        ensures m'.nodesSplitFeatures[j] == m.nodesSplitFeatures[j]
      {
        assert ws[0].node != j;
        assert forall l :: 0 <= l < |rest| ==> rest[l].node != j;
      }
    }
  }

  /** Two nodes' writes commute. */
  lemma WritesCommute(current: Option<RFModel>, i: int, a: int, j: int, b: int)
    requires current.Some? ==> 0 <= i < |current.value.nodesSplitFeatures| && 0 <= j < |current.value.nodesSplitFeatures|
    requires i != j
    ensures SetSplitFeatures(SetSplitFeatures(current, i, a), j, b)
         == SetSplitFeatures(SetSplitFeatures(current, j, b), i, a)
  {
    if current.Some? {
      var s := current.value.nodesSplitFeatures;
      assert s[i := a][j := b] == s[j := b][i := a];
    }
  }

  /** Writes to a missing record leave it missing. */
  lemma {:induction false} MissingStaysMissing(ws: seq<Write>)
    ensures ApplyAll(None, ws) == None
  {
    if ws != [] {
      MissingStaysMissing(ws[1..]);
    }
  }
}
