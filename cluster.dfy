/** What the core reads from the cluster and from the dataset: node identities,
    the chunks of one column, and heartbeat memory figures. */
module Cluster {

  /** A cluster node, identified by a value with a total order (the order
      `Arrays.sort` puts nodes in). */
  type NodeId = int

  /** One chunk of the frame's column: the node that is its home, its row count
      (`chunkLen`) and its size in bytes. */
  datatype Chunk = Chunk(home: NodeId, rows: int, byteSize: int)

  /** A node's last heartbeat: the JVM's maximum, total and free memory in bytes. */
  datatype HeartBeat = HeartBeat(maxMem: int, totMem: int, freeMem: int)

  /** The distinct homes of the chunks: the locality set. */
  function OwnerSet(chunks: seq<Chunk>): (nodes: set<NodeId>)
    ensures forall i :: 0 <= i < |chunks| ==> chunks[i].home in nodes
    ensures forall x :: x in nodes ==> exists i :: 0 <= i < |chunks| && chunks[i].home == x
    ensures |chunks| > 0 ==> |nodes| > 0
  {
    var nodes := set i | 0 <= i < |chunks| :: chunks[i].home;
    assert |chunks| > 0 ==> chunks[0].home in nodes;
    nodes
  }
}
