/** The memory admission check of `DRFTask.canLoadAll`: when non-local data is
    used, every cluster node must have room, after overhead, for the part of the
    frame that is not homed on the calling node. */
module Admission {
  import opened Wrappers
  import opened Cluster
  import opened JavaInt

  /** `OVERHEAD_MAGIC = 3/8`: the fraction of a node's free heap considered usable. */
  const OverheadNumerator: int := 3
  const OverheadDenominator: int := 8

  /** What `canLoadAll` records about the first node without room (`ChunkAllocInfo`):
      its index in the cluster's member array, its usable bytes and the bytes needed. */
  datatype AllocInfo = AllocInfo(node: nat, availableMemory: int, requiredMemory: int)

  /** A node's usable memory: `(maxMem - (totMem - freeMem)) * 3/8`, cast back to a
      whole number of bytes by truncation toward zero. */
  function Usable(hb: HeartBeat): (bytes: int)
    ensures var free := hb.maxMem - (hb.totMem - hb.freeMem);
            free >= 0 ==> 0 <= OverheadDenominator * bytes <= OverheadNumerator * free < OverheadDenominator * (bytes + 1)
    ensures var free := hb.maxMem - (hb.totMem - hb.freeMem);
            free < 0 ==> OverheadDenominator * (bytes - 1) < OverheadNumerator * free <= OverheadDenominator * bytes <= 0
  {
    Quot((hb.maxMem - (hb.totMem - hb.freeMem)) * OverheadNumerator, OverheadDenominator)
  }

  /** The bytes of the chunks homed on `self`. */
  function LocalBytes(chunks: seq<Chunk>, self: NodeId): (bytes: int)
    ensures (forall i :: 0 <= i < |chunks| ==> chunks[i].home != self) ==> bytes == 0
    ensures (forall i :: 0 <= i < |chunks| ==> chunks[i].home == self) ==> bytes == TotalBytes(chunks)
  {
    if chunks == [] then 0
    else
      var last := chunks[|chunks| - 1];
      LocalBytes(chunks[..|chunks| - 1], self) + (if last.home == self then last.byteSize else 0)
  }

  /** The bytes of all the chunks. */
  function TotalBytes(chunks: seq<Chunk>): int
  {
    if chunks == [] then 0 else TotalBytes(chunks[..|chunks| - 1]) + chunks[|chunks| - 1].byteSize
  }

  /** With non-negative chunk sizes, the local bytes lie between zero and the bytes of
      all chunks; so when the chunks make up the frame, the bytes needed from other
      nodes lie between zero and the frame's size. */
  lemma {:induction false} LocalBytesBounded(chunks: seq<Chunk>, self: NodeId)
    requires forall i :: 0 <= i < |chunks| ==> chunks[i].byteSize >= 0
    ensures 0 <= LocalBytes(chunks, self) <= TotalBytes(chunks)
  {
    if chunks != [] {
      LocalBytesBounded(chunks[..|chunks| - 1], self);
    }
  }

  /** A node whose usable memory does not exceed the bytes needed blocks admission. */
  predicate Violates(hb: HeartBeat, required: int)
  {
    Usable(hb) - required <= 0
  }

  /** The scan over the cluster from index `from`: the first node that violates. */
  function FirstViolation(heartbeats: seq<HeartBeat>, required: int, from: nat): (r: Option<AllocInfo>)
    requires from <= |heartbeats|
    ensures r.None? <==> forall i :: from <= i < |heartbeats| ==> !Violates(heartbeats[i], required)
    ensures r.Some? ==> from <= r.value.node < |heartbeats|
                        && Violates(heartbeats[r.value.node], required)
                        && (forall i :: from <= i < r.value.node ==> !Violates(heartbeats[i], required))
                        && r.value.availableMemory == Usable(heartbeats[r.value.node])
                        && r.value.requiredMemory == required
    decreases |heartbeats| - from
  {
    if from == |heartbeats| then None
    else if Violates(heartbeats[from], required) then Some(AllocInfo(from, Usable(heartbeats[from]), required))
    else FirstViolation(heartbeats, required, from + 1)
  }

  /** What `canLoadAll` decides: `None` when every node has room, otherwise the first
      node that has not. */
  function Admit(chunks: seq<Chunk>, self: NodeId, frameBytes: int, heartbeats: seq<HeartBeat>): (r: Option<AllocInfo>)
    ensures r.None? <==> forall i :: 0 <= i < |heartbeats| ==> Usable(heartbeats[i]) - (frameBytes - LocalBytes(chunks, self)) > 0
    ensures r.Some? ==> r.value.requiredMemory == frameBytes - LocalBytes(chunks, self)
                        && r.value.node < |heartbeats|
                        && r.value.availableMemory == Usable(heartbeats[r.value.node])
  {
    FirstViolation(heartbeats, frameBytes - LocalBytes(chunks, self), 0)
  }

  /** `canLoadAll`: sum the bytes of the chunks homed here, then scan the cluster's
      heartbeats in order and stop at the first node without room. The result is
      `None` for `true` and the filled-in `ChunkAllocInfo` for `false`. */
  method CanLoadAll(chunks: seq<Chunk>, self: NodeId, frameBytes: int, heartbeats: seq<HeartBeat>)
    returns (r: Option<AllocInfo>)
    ensures r == Admit(chunks, self, frameBytes, heartbeats)
    ensures r.None? <==> forall i :: 0 <= i < |heartbeats| ==> Usable(heartbeats[i]) - (frameBytes - LocalBytes(chunks, self)) > 0
  {
    var localBytes := 0;
    var i := 0;
    while i < |chunks|
      invariant 0 <= i <= |chunks|
      invariant localBytes == LocalBytes(chunks[..i], self)
    {
      assert chunks[..i + 1][..i] == chunks[..i];
      if chunks[i].home == self {
        localBytes := localBytes + chunks[i].byteSize;
      }
      i := i + 1;
    }
    assert chunks[..i] == chunks;
    var memForNonLocal := frameBytes - localBytes;
    var j := 0;
    while j < |heartbeats|
      invariant 0 <= j <= |heartbeats|
      invariant FirstViolation(heartbeats, memForNonLocal, 0) == FirstViolation(heartbeats, memForNonLocal, j)
    {
      var nodeFreeMemory := Usable(heartbeats[j]);
      if nodeFreeMemory - memForNonLocal <= 0 {
        return Some(AllocInfo(j, nodeFreeMemory, memForNonLocal));
      }
      j := j + 1;
    }
    return None;
  }

  /** A 900 MB frame of which 100 MB is homed on the calling node needs 800 MB from
      elsewhere. Node 0 has room; node 1 can use 700 MB (3/8 of 1,866,666,667 bytes,
      truncated), so it is reported with 700 MB available and 800 MB required. */
  lemma EightHundredNeededSevenHundredUsable()
    ensures var chunks := [Chunk(1, 1000, 100_000_000), Chunk(2, 1000, 400_000_000), Chunk(3, 1000, 400_000_000)];
            var roomy := HeartBeat(4_000_000_000, 1_000_000_000, 1_000_000_000);
            var tight := HeartBeat(1_866_666_667, 1_000_000_000, 1_000_000_000);
            Admit(chunks, 1, 900_000_000, [roomy, tight, roomy]) == Some(AllocInfo(1, 700_000_000, 800_000_000))
  {
    var chunks := [Chunk(1, 1000, 100_000_000), Chunk(2, 1000, 400_000_000), Chunk(3, 1000, 400_000_000)];
    assert chunks[..2][..1] == chunks[..1] && chunks[..3][..2] == chunks[..2] && chunks[..3] == chunks;
    assert LocalBytes(chunks, 1) == 100_000_000;
  }
}
