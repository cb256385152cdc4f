/**
 * The Cassandra driver's objects as the ownership-resolution code sees them:
 * hosts, query results, the token map's ring walk and the cluster metadata.
 */
module Driver {
  import opened Wrappers

  /** One cluster member from `cluster.metadata.all_hosts()`. */
  datatype Host = Host(address: string, broadcastAddress: Option<string>)

  /** `str(host.broadcast_address) if host.broadcast_address else None`: a missing or empty broadcast address counts as none. */
  function Broadcast(h: Host): (b: Option<string>)
    ensures b.Some? ==> b.value != "" && b == h.broadcastAddress
    ensures b.None? ==> h.broadcastAddress.None? || h.broadcastAddress.value == ""
  {
    if h.broadcastAddress.Some? && h.broadcastAddress.value != "" then h.broadcastAddress else None
  }

  /** What `session.execute(...)` did: it raised, or it returned these rows. */
  datatype QueryOutcome<R> = Failed | Rows(rows: seq<R>)

  predicate HasRows<R>(o: QueryOutcome<R>) {
    o.Rows? && |o.rows| > 0
  }

  /** A row of the token query, reduced to its `token_value` column. */
  datatype TokenRow = TokenRow(tokenValue: int)

  /**
   * `token_map.get_replicas(keyspace, Murmur3Token(token))`, the driver's ring
   * walk: the replicas in ring order, or None when the call raised.
   */
  type RingWalk = (string, int) -> Option<seq<Host>>

  /** The parts of `cluster.metadata` that the core reads. */
  datatype Metadata = Metadata(
    keyspaces: set<string>,
    partitioner: Option<string>,
    tokenMap: Option<RingWalk>,
    hosts: seq<Host>)

  /** `[r.address for r in replicas]` */
  function Addresses(replicas: seq<Host>): (r: seq<string>)
    ensures |r| == |replicas| && forall i :: 0 <= i < |r| ==> r[i] == replicas[i].address
  {
    seq(|replicas|, i requires 0 <= i < |replicas| => replicas[i].address)
  }
}
