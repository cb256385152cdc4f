/**
 * The node-failure experiment's application module: its own copy of the
 * replica resolution, the choice of the container to stop, and the verdict.
 */
module NodeFailureApp {
  import opened Wrappers
  import opened Text
  import opened Driver
  import CassandraRepository
  import ReplicaResolver

  /**
   * get_replica_nodes as written inline in the experiment: the same pipeline
   * as the resolver module, assigning the two tokens step by step. It
   * computes exactly what the factored resolver computes.
   */
  method GetReplicaNodes(metadata: Metadata, session: CassandraRepository.TokenSession, hash: ReplicaResolver.Murmur3Hash,
                         keyspace: string, key: string, table: string)
    returns (replicas: seq<string>)
    ensures replicas == ReplicaResolver.GetReplicaNodes(metadata, session, hash, keyspace, key, table)
  {
    if keyspace !in metadata.keyspaces {
      return [];
    }
    var tokenValueQuery: Option<int> := None;
    var tokenValueHash: Option<int> := None;

    var tokenQuery := "SELECT token(id) as token_value FROM " + keyspace + "." + table + " WHERE id = %s";
    assert tokenQuery == CassandraRepository.TokenQuery(keyspace, table);
    var result := session(tokenQuery, [CassandraRepository.Str(key)]);
    if result.Rows? && |result.rows| > 0 {
      tokenValueQuery := Some(result.rows[0].tokenValue);
    }

    if metadata.partitioner.None? {
      // `'Murmur3' in None` raises a TypeError, caught by the outer handler.
      return [];
    }
    if Contains(metadata.partitioner.value, "Murmur3") {
      var hashed := hash(Utf8Encode(key));
      if hashed.Hashed? {
        tokenValueHash := Some(hashed.value);
      }
    }

    var tokenValue: int;
    if tokenValueQuery.Some? {
      tokenValue := tokenValueQuery.value;
    } else if tokenValueHash.Some? {
      tokenValue := tokenValueHash.value;
    } else {
      return [];
    }

    if metadata.tokenMap.None? {
      return [];
    }
    var walked := metadata.tokenMap.value(keyspace, tokenValue);
    if walked.None? {
      // The ring walk raised; the outer handler returns [].
      return [];
    }
    replicas := Addresses(walked.value);
  }

  /** How `main` continues after resolving the replicas: it stops this container, or exits with a status. */
  datatype TargetOutcome = Stop(replicaNode: string, container: string) | Exit(status: int)

  /**
   * The primary replica is the first address; no replicas, or no container
   * for it, end `main` with status 1. `mapper` is the address-to-container
   * lookup in use.
   */
  function PrimaryTarget(replicaNodes: seq<string>, mapper: string -> Option<string>): (r: TargetOutcome)
    ensures replicaNodes == [] ==> r == Exit(1)
    ensures r.Stop? ==>
      (replicaNodes != [] && r.replicaNode == replicaNodes[0]
       && mapper(replicaNodes[0]) == Some(r.container) && r.container != "")
    ensures r.Exit? ==>
      (r.status == 1
       && (replicaNodes == [] || mapper(replicaNodes[0]).None? || mapper(replicaNodes[0]).value == ""))
  {
    if replicaNodes == [] then Exit(1)
    else
      match mapper(replicaNodes[0])
      case None => Exit(1)
      case Some(container) => if container == "" then Exit(1) else Stop(replicaNodes[0], container)
  }

  /** The verdict of `main`: 0 exactly when the data was unreadable while the node was down and readable after its restart. */
  function ExitStatus(dataFound: bool, dataFoundAfterRestart: bool): (status: int)
    ensures status == 0 <==> !dataFound && dataFoundAfterRestart
    ensures status == 0 || status == 1
  {
    if !dataFound && dataFoundAfterRestart then 0 else 1
  }
}
