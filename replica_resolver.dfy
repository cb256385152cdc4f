/**
 * The replica resolver: which nodes hold the replicas of a partition key.
 * The pipeline is a keyspace gate, two token sources (the store's own
 * `token(id)` and a local Murmur3 hash), a comparison of the two, a
 * precedence choice between them, a token-map gate and the ring walk.
 * Every failure ends in the empty list.
 */
module ReplicaResolver {
  import opened Wrappers
  import opened Text
  import opened Driver
  import CassandraRepository

  /** The unsigned 32-bit range of `mmh3.hash(..., signed=False)`. */
  type uint32 = x: int | 0 <= x < 0x1_0000_0000

  /** What one call of the hash library did. */
  datatype HashOutcome = Hashed(value: uint32) | LibraryMissing | HashFailed

  /** The hash library, applied to the key's bytes; its internals are not modelled. */
  type Murmur3Hash = seq<byte> -> HashOutcome

  const Murmur3Name: string := "Murmur3"

  /**
   * The local hash token. Testing `'Murmur3' in partitioner` raises a
   * TypeError when the partitioner name is None; the error is not caught
   * here but by get_replica_nodes.
   */
  datatype HashTokenOutcome = HashToken(token: Option<uint32>) | PartitionerMissing

  /** _validate_keyspace_exists */
  predicate KeyspaceExists(metadata: Metadata, keyspace: string) {
    keyspace in metadata.keyspaces
  }

  /**
   * The keyspace gate reads only the metadata's keyspaces: metadata that
   * differ in partitioner, token map or hosts pass or fail it alike.
   */
  lemma KeyspaceGateReadsOnlyKeyspaces(m1: Metadata, m2: Metadata, keyspace: string)
    requires m1.keyspaces == m2.keyspaces
    ensures KeyspaceExists(m1, keyspace) == KeyspaceExists(m2, keyspace)
  {
  }

  /** _get_token_via_query: the repository's partition-token query. */
  function TokenViaQuery(session: CassandraRepository.TokenSession, keyspace: string, key: string, table: string): (r: Option<int>)
    ensures var answer := session(CassandraRepository.TokenQuery(keyspace, table), [CassandraRepository.Str(key)]);
      (r.Some? <==> HasRows(answer)) && (r.Some? ==> r.value == answer.rows[0].tokenValue)
  {
    CassandraRepository.GetPartitionToken(session, keyspace, table, key)
  }

  /**
   * _calculate_token_via_mmh3: the hash of the key's UTF-8 bytes, only for a
   * partitioner whose name holds "Murmur3" (case-sensitively); a missing
   * library or a failing hash yields no value.
   */
  function TokenViaMurmur3(partitioner: Option<string>, hash: Murmur3Hash, key: string): (r: HashTokenOutcome)
    ensures r.PartitionerMissing? <==> partitioner.None?
    ensures r.HashToken? && r.token.Some?
        <==> partitioner.Some? && Contains(partitioner.value, Murmur3Name) && hash(Utf8Encode(key)).Hashed?
    ensures r.HashToken? && r.token.Some? ==>
        r.token.value == hash(Utf8Encode(key)).value && 0 <= r.token.value < 0x1_0000_0000
  {
    if partitioner.None? then PartitionerMissing
    else if !Contains(partitioner.value, Murmur3Name) then HashToken(None)
    else match hash(Utf8Encode(key))
      case Hashed(v) => HashToken(Some(v))
      case LibraryMissing => HashToken(None)
      case HashFailed => HashToken(None)
  }

  /** The result of _compare_and_log_token_methods, which the source only logs. */
  datatype TokenComparison = Match | Differ(diff: nat) | Incomplete

  /** _compare_and_log_token_methods */
  function CompareTokenMethods(query: Option<int>, hashed: Option<int>): (r: TokenComparison)
    ensures r.Incomplete? <==> query.None? || hashed.None?
    ensures r.Match? <==> query.Some? && hashed.Some? && query.value == hashed.value
    ensures r.Differ? ==>
      (r.diff > 0 && (r.diff == query.value - hashed.value || r.diff == hashed.value - query.value))
  {
    if query.None? || hashed.None? then Incomplete
    else if query.value == hashed.value then Match
    else if query.value > hashed.value then Differ(query.value - hashed.value)
    else Differ(hashed.value - query.value)
  }

  /**
   * The store's tokens are signed 64-bit while the hash is unsigned 32-bit:
   * a negative store token is always reported as differing.
   */
  lemma NegativeQueryTokenDiffers(query: int, hashed: uint32)
    requires query < 0
    ensures CompareTokenMethods(Some(query), Some(hashed)) == Differ(hashed - query)
  {
  }

  /** _select_token_value: the query token when present (0 included), else the hash token. */
  function SelectTokenValue(query: Option<int>, hashed: Option<int>): (r: Option<int>)
    ensures query.Some? ==> r == query
    ensures r.None? <==> query.None? && hashed.None?
    ensures r.Some? ==> r == query || r == hashed
  {
    if query.Some? then query else hashed
  }

  /**
   * _get_replicas_from_token: the addresses of the ring walk's replicas, in its
   * order; the empty list when there is no token map; None when the walk raised.
   */
  function ReplicasFromToken(metadata: Metadata, keyspace: string, token: int): (r: Option<seq<string>>)
    ensures metadata.tokenMap.None? ==> r == Some([])
    ensures metadata.tokenMap.Some? ==> (r.None? <==> metadata.tokenMap.value(keyspace, token).None?)
    ensures r.Some? && metadata.tokenMap.Some? ==>
      var replicas := metadata.tokenMap.value(keyspace, token).value;
      |r.value| == |replicas| && forall i :: 0 <= i < |replicas| ==> r.value[i] == replicas[i].address
  {
    match metadata.tokenMap
    case None => Some([])
    case Some(walk) =>
      match walk(keyspace, token)
      case None => None
      case Some(replicas) => Some(Addresses(replicas))
  }

  /** The token get_replica_nodes settles on, or None when both sources failed. */
  function ChosenToken(metadata: Metadata, session: CassandraRepository.TokenSession, hash: Murmur3Hash, keyspace: string, key: string, table: string): (r: Option<int>)
    requires metadata.partitioner.Some?
  {
    SelectTokenValue(TokenViaQuery(session, keyspace, key, table),
                     TokenViaMurmur3(metadata.partitioner, hash, key).token)
  }

  /**
   * get_replica_nodes: the replica addresses for a partition key, or the empty
   * list when any step fails or raises. The comparison of the two tokens is
   * only logged and has no effect on the result.
   */
  function GetReplicaNodes(metadata: Metadata, session: CassandraRepository.TokenSession, hash: Murmur3Hash, keyspace: string, key: string, table: string): (r: seq<string>)
    ensures !KeyspaceExists(metadata, keyspace) ==> r == []
    ensures metadata.partitioner.None? ==> r == []
    ensures metadata.tokenMap.None? ==> r == []
    ensures metadata.partitioner.Some? && ChosenToken(metadata, session, hash, keyspace, key, table).None? ==> r == []
    ensures r != [] ==>
      KeyspaceExists(metadata, keyspace) && metadata.partitioner.Some? && metadata.tokenMap.Some?
      && ChosenToken(metadata, session, hash, keyspace, key, table).Some?
      && var walked := metadata.tokenMap.value(keyspace, ChosenToken(metadata, session, hash, keyspace, key, table).value);
         walked.Some? && r == Addresses(walked.value)
  {
    if !KeyspaceExists(metadata, keyspace) then []
    else
      var query := TokenViaQuery(session, keyspace, key, table);
      match TokenViaMurmur3(metadata.partitioner, hash, key)
      case PartitionerMissing => []
      case HashToken(hashed) =>
        match SelectTokenValue(query, hashed)
        case None => []
        case Some(token) =>
          match ReplicasFromToken(metadata, keyspace, token)
          case None => []
          case Some(addresses) => addresses
  }

  /**
   * A query token decides the replicas whatever the hash gives; the result
   * is the ring walk's addresses for that token.
   */
  lemma QueryTokenTakesPrecedence(metadata: Metadata, session: CassandraRepository.TokenSession, hash: Murmur3Hash, keyspace: string, key: string, table: string,
                                  token: int, walk: RingWalk, replicas: seq<Host>)
    requires KeyspaceExists(metadata, keyspace) && metadata.partitioner.Some?
    requires CassandraRepository.GetPartitionToken(session, keyspace, table, key) == Some(token)
    requires metadata.tokenMap == Some(walk) && walk(keyspace, token) == Some(replicas)
    ensures GetReplicaNodes(metadata, session, hash, keyspace, key, table) == Addresses(replicas)
  {
  }

  /**
   * Without a query token, a Murmur3 partitioner and a successful hash give
   * the replicas of the hashed token.
   */
  lemma HashTokenFallback(metadata: Metadata, session: CassandraRepository.TokenSession, hash: Murmur3Hash, keyspace: string, key: string, table: string,
                          walk: RingWalk, replicas: seq<Host>)
    requires KeyspaceExists(metadata, keyspace)
    requires metadata.partitioner.Some? && Contains(metadata.partitioner.value, Murmur3Name)
    requires CassandraRepository.GetPartitionToken(session, keyspace, table, key).None?
    requires hash(Utf8Encode(key)).Hashed?
    requires metadata.tokenMap == Some(walk) && walk(keyspace, hash(Utf8Encode(key)).value) == Some(replicas)
    ensures GetReplicaNodes(metadata, session, hash, keyspace, key, table) == Addresses(replicas)
  {
  }

  /** A keyspace the metadata does not know gives [] before any token source or the token map is consulted. */
  lemma UnknownKeyspaceConsultsNothing(metadata: Metadata, s1: CassandraRepository.TokenSession, s2: CassandraRepository.TokenSession, h1: Murmur3Hash, h2: Murmur3Hash,
                                       walk: Option<RingWalk>, keyspace: string, key: string, table: string)
    requires !KeyspaceExists(metadata, keyspace)
    ensures GetReplicaNodes(metadata, s1, h1, keyspace, key, table)
         == GetReplicaNodes(metadata.(tokenMap := walk), s2, h2, keyspace, key, table)
         == []
  {
  }

  /** When neither source yields a token, the token map is never read: any token map gives []. */
  lemma NoTokenIgnoresTokenMap(metadata: Metadata, session: CassandraRepository.TokenSession, hash: Murmur3Hash, walk: Option<RingWalk>,
                               keyspace: string, key: string, table: string)
    requires metadata.partitioner.Some?
    requires ChosenToken(metadata, session, hash, keyspace, key, table).None?
    ensures GetReplicaNodes(metadata.(tokenMap := walk), session, hash, keyspace, key, table) == []
  {
  }

  /** A partitioner other than Murmur3 leaves the query token as the only source. */
  lemma NonMurmur3UsesQueryOnly(metadata: Metadata, session: CassandraRepository.TokenSession, h1: Murmur3Hash, h2: Murmur3Hash,
                                keyspace: string, key: string, table: string)
    requires metadata.partitioner.Some? && !Contains(metadata.partitioner.value, Murmur3Name)
    ensures GetReplicaNodes(metadata, session, h1, keyspace, key, table)
         == GetReplicaNodes(metadata, session, h2, keyspace, key, table)
  {
  }

  /** Two replicas walked for the queried token come back as their two addresses, in ring order. */
  lemma TwoReplicaExample(metadata: Metadata, session: CassandraRepository.TokenSession, hash: Murmur3Hash, walk: RingWalk, keyspace: string, key: string, table: string)
    requires KeyspaceExists(metadata, keyspace) && metadata.partitioner.Some?
    requires session(CassandraRepository.TokenQuery(keyspace, table), [CassandraRepository.Str(key)]) == Rows([TokenRow(123456789)])
    requires metadata.tokenMap == Some(walk)
    requires walk(keyspace, 123456789) == Some([Host("127.0.0.1", None), Host("127.0.0.2", None)])
    ensures GetReplicaNodes(metadata, session, hash, keyspace, key, table) == ["127.0.0.1", "127.0.0.2"]
  {
    QueryTokenTakesPrecedence(metadata, session, hash, keyspace, key, table, 123456789, walk,
                              [Host("127.0.0.1", None), Host("127.0.0.2", None)]);
  }
}
