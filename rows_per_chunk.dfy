/** `DRFTask.howManyRPC`: the row count of every chunk, in chunk order. */
module RowsPerChunk {
  import opened Cluster

  /** Fill a fresh `int[]` with `chunkLen(i)` for every chunk `i`. */
  method HowManyRPC(chunks: seq<Chunk>) returns (result: array<int>)
    ensures fresh(result)
    ensures result.Length == |chunks|
    ensures forall i :: 0 <= i < |chunks| ==> result[i] == chunks[i].rows
  {
    result := new int[|chunks|];
    var i := 0;
    while i < result.Length
      invariant 0 <= i <= result.Length
      invariant forall k :: 0 <= k < i ==> result[k] == chunks[k].rows
    {
      result[i] := chunks[i].rows;
      i := i + 1;
    }
  }
}
