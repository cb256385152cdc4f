# Replica ownership resolution of the cassandra-learning experiments

The experiments in this repository write a row to a three-node Cassandra cluster running in Docker. They work out which node owns the row, stop that node's container and check whether the row can still be read. This project models, in Dafny, the client-side code that decides which container to stop.

- **Replica resolver.** It checks that the keyspace exists. It then computes the partition token in two ways: a `SELECT token(id)` query, and a local Murmur3 hash of the key's UTF-8 bytes, taken only when the partitioner's name contains "Murmur3". The two tokens are compared, but only to log the result. The query token wins, the hash token is the fallback, and the driver's token map walks the ring to list the replica addresses. Any failure, and any exception, gives the empty list.
- **Container manager.** It reads each container's IP from the Docker API: the first network with a non-empty IP. It returns the first listed container whose IP matches the replica address loosely (equal, or either one contains the other). Failing that, and when cluster metadata is given, it looks at the hosts whose address or broadcast address equals the replica address. It returns the first such host that has a container whose IP equals that host's address or broadcast address.
- **Repository helpers.** These are:
  - `log_cql_query`, which writes each parameter into the next `%s` of the query text;
  - `get_partition_token`;
  - the keyspace-qualified table name;
  - `query_data`, which retries a select.
- **The node-failure experiment.** It comes in two forms:
  - the application module, which calls the container manager;
  - the standalone script, which has its own Docker command logger and performs the mapping inline in `main`. It also has its own copy of `log_cql_query` (node-failure-experiment/node_failure_experiment.py:28-48). That copy is the same code as the repository's, so `CassandraRepository.LogCqlQuery` models both.

  Both carry a copy of `get_replica_nodes` written out inline. The two copies are the same code. The model gives that code one method, `NodeFailureApp.GetReplicaNodes`, and proves it equal to the factored resolver. The script differs from the container manager in three places, and the model proves each difference:
  - It reads the IP through `docker inspect` with a template that prints every network's IP with no separator.
  - In its host fallback, `break` leaves only the inner loop, so the last matching host wins, not the first.
  - Its inner fallback loop compares the container's IP with the host's address and broadcast address without first testing that the IP is non-empty. A container reporting an empty IP therefore matches a host with an empty address.

The driver's objects are values:
- the metadata;
- the hosts;
- query outcomes, where `Failed` stands for a raised exception.

The session, the Murmur3 library, the ring walk and the Docker daemon are function-typed parameters. Python's string built-ins that the core relies on are defined in module `Text`:
- `in`;
- `replace(..., 1)`;
- `strip()`;
- `' '.join`;
- `str(int)`;
- `encode('utf-8')`.

Loops in the source are methods with loop invariants. Each method is proved equal to a specification function, and the lemmas are stated about those functions.

Modules:
- `Wrappers`: `Option`.
- `Text`: string built-ins.
- `Driver`: driver objects.
- `CassandraRepository`.
- `ReplicaResolver`.
- `ContainerManager`.
- `NodeFailureApp`: the application module of the node-failure experiment.
- `NodeFailureScript`: the standalone script.

## Model

| member | source | states |
|---|---|---|
| Text.Find | eventual-consistency-experiment/src/repository/cassandra_repository.py:36 | an index is found exactly when the pattern occurs, and it is the first occurrence |
| Text.ReplaceFirst | eventual-consistency-experiment/src/repository/cassandra_repository.py:36 | `replace(pat, rep, 1)`: text without the pattern is unchanged; otherwise the first occurrence, and only it, becomes `rep` |
| Text.FirstOccurrenceUnique | eventual-consistency-experiment/src/repository/cassandra_repository.py:36 | the first occurrence is unique, so the position `ReplaceFirst` replaces is well defined |
| Text.ReplaceFirstAfterPrefix | eventual-consistency-experiment/src/repository/cassandra_repository.py:36 | a prefix with no `%s` that does not end in `%` is left alone: the replacement happens in the rest |
| Text.ContainsSelfAndEmpty | eventual-consistency-experiment/src/infrastructure/container_manager.py:195-197 | every string contains itself and the empty string |
| Text.ContainsSameLength | eventual-consistency-experiment/src/infrastructure/container_manager.py:195-197 | one string contains another of the same length exactly when they are equal |
| Text.DoubleQuotes | eventual-consistency-experiment/src/repository/cassandra_repository.py:35 | escaping never shortens a string and keeps its set of characters |
| Text.UndoubleDoubleQuotes | eventual-consistency-experiment/src/repository/cassandra_repository.py:35 | undoubling the quotes gives back the original string, so escaping loses nothing |
| Text.DoubleQuotesConcat | eventual-consistency-experiment/src/repository/cassandra_repository.py:35 | escaping distributes over concatenation |
| Text.DoubleQuotesQuoteFree | eventual-consistency-experiment/src/repository/cassandra_repository.py:35 | a string without quotes is unchanged by escaping |
| Text.Strip | node-failure-experiment/node_failure_experiment.py:437 | `strip()` returns a slice of its input with only whitespace outside it and no whitespace at either end |
| Text.StripTrimmed | node-failure-experiment/node_failure_experiment.py:437 | a string with no whitespace at its ends, followed by whitespace such as the newline of the command output, strips to itself |
| Text.StripIdempotent | node-failure-experiment/node_failure_experiment.py:437 | stripping twice is the same as stripping once |
| Text.SplitJoin | node-failure-experiment/node_failure_experiment.py:62 | words without the separator, joined and then split on it, come back unchanged |
| Text.IntToDecimal | eventual-consistency-experiment/src/repository/cassandra_repository.py:42 | `str(int)` is digits with a leading minus exactly for negative numbers |
| Text.ParseIntToDecimal | eventual-consistency-experiment/src/repository/cassandra_repository.py:42 | the decimal numeral reads back as the same integer |
| Text.Utf8Char | eventual-consistency-experiment/src/application/replica_resolver.py:38 | one character's UTF-8 bytes: the shortest form for its range; a lead byte that announces the length; continuation bytes after it; payload bits that spell the scalar value |
| Text.Utf8Encode | eventual-consistency-experiment/src/application/replica_resolver.py:38 | the UTF-8 encoding takes 1 to 4 bytes per character, and an ASCII key is its own byte string |
| Text.Utf8EncodeConcat | eventual-consistency-experiment/src/application/replica_resolver.py:38 | the encoding of a concatenation is the concatenation of the encodings, so each character is encoded by `Utf8Char` in order |
| Text.Utf8EncodeOneChar | eventual-consistency-experiment/src/application/replica_resolver.py:38 | a one-character key is encoded as that character's bytes |
| Text.Utf8EncodeExample | eventual-consistency-experiment/src/application/replica_resolver.py:38 | é is encoded as C3 A9 |
| Driver.Broadcast | eventual-consistency-experiment/src/infrastructure/container_manager.py:206 | a broadcast address counts only when it is present and not empty |
| Driver.Addresses | eventual-consistency-experiment/src/application/replica_resolver.py:90 | the addresses of the replicas, one for each, in ring order |
| CassandraRepository.Render | eventual-consistency-experiment/src/repository/cassandra_repository.py:31-42 | a rendered parameter is a quoted string, a numeral, NULL, True or False: None renders exactly as NULL and a boolean exactly as True or False (Python's str of a bool); it holds a `%` only when it comes from a string parameter holding one |
| CassandraRepository.RenderStringReadsBack | eventual-consistency-experiment/src/repository/cassandra_repository.py:33-36 | a string parameter becomes a quoted literal whose body, with the quotes undoubled, is the parameter |
| CassandraRepository.RenderIntReadsBack | eventual-consistency-experiment/src/repository/cassandra_repository.py:41-42 | an integer parameter becomes a numeral that reads back as the same integer |
| CassandraRepository.LogCqlQuery | eventual-consistency-experiment/src/repository/cassandra_repository.py:25-45 | the log line is "CQL Query: " followed by the query with each listed parameter written, in order, into the leftmost remaining `%s`; with no parameters, or parameters that are not a list, it is the query text itself. The script's copy at node-failure-experiment/node_failure_experiment.py:28-48 is the same code |
| CassandraRepository.SurplusParamsIgnored | eventual-consistency-experiment/src/repository/cassandra_repository.py:30-42 | once no `%s` is left, further parameters change nothing |
| CassandraRepository.NoPercentNoPlaceholder | eventual-consistency-experiment/src/repository/cassandra_repository.py:36 | text with no `%` holds no placeholder |
| CassandraRepository.SubstituteAfterPrefix | eventual-consistency-experiment/src/repository/cassandra_repository.py:30-42 | substitution never reaches back into a prefix that holds no placeholder |
| CassandraRepository.FillsInOrder | eventual-consistency-experiment/src/repository/cassandra_repository.py:30-42 | when the literal segments hold no `%s` and no string value holds `%`, the i-th value lands in the i-th placeholder |
| CassandraRepository.ReplaceAfterPrefix | eventual-consistency-experiment/src/repository/cassandra_repository.py:36 | the placeholder right after a placeholder-free prefix is the one replaced |
| CassandraRepository.SubstituteStep | eventual-consistency-experiment/src/repository/cassandra_repository.py:34-36 | the first parameter fills the first placeholder, then the rest follow |
| CassandraRepository.OnePlaceholderAtEnd | eventual-consistency-experiment/src/repository/cassandra_repository.py:36 | a query ending in its only placeholder gets the parameter's literal at its end |
| CassandraRepository.QuoteBetween | eventual-consistency-experiment/src/repository/cassandra_repository.py:35 | one quote between quote-free text is doubled and nothing else changes |
| CassandraRepository.QuotedStringExample | eventual-consistency-experiment/src/repository/cassandra_repository.py:35-36 | O'Brien is logged as 'O''Brien' |
| CassandraRepository.PlaceholderInParameterFilledNext | eventual-consistency-experiment/src/repository/cassandra_repository.py:34-36 | a `%s` brought in by a string parameter is the one the next parameter fills, so the second value lands inside the first one's quotes |
| CassandraRepository.FullTableName | eventual-consistency-experiment/src/repository/cassandra_repository.py:197-200 | with a non-empty keyspace the name is the keyspace, a dot, then the table; with no keyspace or an empty one it is the bare table; it always ends with the table name |
| CassandraRepository.QualifiedNameSplits | eventual-consistency-experiment/src/repository/cassandra_repository.py:162-165 | the qualified name splits on '.' back into its keyspace and table, or into the bare table when the keyspace is absent or empty |
| CassandraRepository.GetPartitionToken | eventual-consistency-experiment/src/repository/cassandra_repository.py:249-286 | a token is returned exactly when the token query returns rows, and it is the first row's `token_value`; a failed or empty query gives None |
| CassandraRepository.TokenQueryLogged | eventual-consistency-experiment/src/repository/cassandra_repository.py:263-266 | the logged token query carries the key as a quoted, escaped literal in place of the placeholder |
| CassandraRepository.QueryData | eventual-consistency-experiment/src/repository/cassandra_repository.py:181-246 | the result is the first row of the first of at most `max_retries` attempts that returns rows, together with the number of attempts made; it is None exactly when no attempt returns rows |
| ReplicaResolver.KeyspaceGateReadsOnlyKeyspaces | eventual-consistency-experiment/src/application/replica_resolver.py:16-21 | the keyspace gate depends on the metadata's keyspaces alone: partitioner, token map and hosts play no part in whether a keyspace passes |
| ReplicaResolver.TokenViaQuery | eventual-consistency-experiment/src/application/replica_resolver.py:24-26 | the query token exists exactly when the session answers the token query for the table, with the key as its one parameter, with at least one row; it is then the first row's token value |
| ReplicaResolver.TokenViaMurmur3 | eventual-consistency-experiment/src/application/replica_resolver.py:29-46 | a hash token exists exactly when the partitioner's name contains "Murmur3" and hashing succeeds; it is the 32-bit unsigned hash of the key's UTF-8 bytes; a missing partitioner name raises |
| ReplicaResolver.CompareTokenMethods | eventual-consistency-experiment/src/application/replica_resolver.py:49-64 | the comparison is incomplete exactly when a token is missing, matches exactly when the tokens are equal, and otherwise reports their positive absolute difference |
| ReplicaResolver.NegativeQueryTokenDiffers | eventual-consistency-experiment/src/application/replica_resolver.py:56-61 | a negative store token never matches the unsigned hash |
| ReplicaResolver.SelectTokenValue | eventual-consistency-experiment/src/application/replica_resolver.py:67-77 | the query token wins whenever present, zero included; the result is None exactly when both are missing |
| ReplicaResolver.ReplicasFromToken | eventual-consistency-experiment/src/application/replica_resolver.py:80-90 | no token map gives the empty list; otherwise the result is the ring walk's replica addresses, in order |
| ReplicaResolver.GetReplicaNodes | eventual-consistency-experiment/src/application/replica_resolver.py:93-131 | an unknown keyspace, a missing partitioner name, no token or no token map each give []; a non-empty result is the ring walk's addresses for the chosen token |
| ReplicaResolver.QueryTokenTakesPrecedence | eventual-consistency-experiment/src/application/replica_resolver.py:113-125 | a query token decides the replicas whatever the hash gives |
| ReplicaResolver.HashTokenFallback | eventual-consistency-experiment/src/application/replica_resolver.py:67-77 | without a query token, the Murmur3 hash decides the replicas |
| ReplicaResolver.UnknownKeyspaceConsultsNothing | eventual-consistency-experiment/src/application/replica_resolver.py:108-110 | an unknown keyspace gives [] whatever the session, the hash and the token map are |
| ReplicaResolver.NoTokenIgnoresTokenMap | eventual-consistency-experiment/src/application/replica_resolver.py:119-122 | when both token sources fail, the result is [] for any token map |
| ReplicaResolver.NonMurmur3UsesQueryOnly | eventual-consistency-experiment/src/application/replica_resolver.py:32-34 | under a partitioner other than Murmur3, the hash function has no influence |
| ReplicaResolver.TwoReplicaExample | eventual-consistency-experiment/src/application/replica_resolver.py:80-90 | a queried token whose ring walk gives two hosts resolves to their two addresses, in ring order |
| ContainerManager.FirstNetworkIp | eventual-consistency-experiment/src/infrastructure/container_manager.py:162-168 | an IP is found exactly when some network has a non-empty IP, and it is the first such network's IP |
| ContainerManager.GetContainerIp | eventual-consistency-experiment/src/infrastructure/container_manager.py:147-171 | the container's first non-empty network IP, or None when there is none or the container cannot be inspected |
| ContainerManager.FirstWhere | eventual-consistency-experiment/src/infrastructure/container_manager.py:190-199 | a scan in list order returns the first accepted name, and None exactly when no name is accepted |
| ContainerManager.FirstWhereStep | eventual-consistency-experiment/src/infrastructure/container_manager.py:190-199 | the scan returns the head when it hits, else scans the rest |
| ContainerManager.FirstWhereListed | eventual-consistency-experiment/src/infrastructure/container_manager.py:190-199 | a found name is a listed name that the test accepts |
| ContainerManager.Fallback | eventual-consistency-experiment/src/infrastructure/container_manager.py:202-218 | the fallback's container belongs to some qualifying host; it is None exactly when no qualifying host has a container |
| ContainerManager.FallbackStep | eventual-consistency-experiment/src/infrastructure/container_manager.py:204-218 | the first host decides the fallback when it qualifies and has a container; otherwise the rest of the hosts do |
| ContainerManager.FallbackFirstWins | eventual-consistency-experiment/src/infrastructure/container_manager.py:204-218 | the first qualifying host that has a container decides, whatever the later hosts give |
| ContainerManager.MapSpec | eventual-consistency-experiment/src/infrastructure/container_manager.py:174-220 | a result is a listed container with an IP; a direct match beats the fallback; without a direct match, the result is the fallback over the cluster's hosts when a cluster is given, and None otherwise |
| ContainerManager.ScanContainers | eventual-consistency-experiment/src/infrastructure/container_manager.py:189-199 | the direct loop returns the first container whose non-empty IP loosely matches the target |
| ContainerManager.ContainerOfHost | eventual-consistency-experiment/src/infrastructure/container_manager.py:213-218 | the inner loop returns the first container whose non-empty IP is the host's address or broadcast address |
| ContainerManager.ScanHosts | eventual-consistency-experiment/src/infrastructure/container_manager.py:201-218 | the host loop returns the fallback's container |
| ContainerManager.MapReplicaNodeToContainer | eventual-consistency-experiment/src/infrastructure/container_manager.py:174-220 | the mapping computes `MapSpec` over the Docker API's IPs |
| ContainerManager.LooseMatchProperties | eventual-consistency-experiment/src/infrastructure/container_manager.py:195-197 | the loose match is symmetric and reflexive, and is exactly containment one way or the other |
| ContainerManager.LooseMatchSameLength | eventual-consistency-experiment/src/infrastructure/container_manager.py:195-197 | addresses of equal length match loosely only when they are equal |
| ContainerManager.EmptyTargetTakesFirstWithIp | eventual-consistency-experiment/src/infrastructure/container_manager.py:190-199 | an empty target address matches the first container that has any IP |
| ContainerManager.ListOrderBeatsExactness | eventual-consistency-experiment/src/infrastructure/container_manager.py:190-199 | for target 10.0.0.1, a container at 10.0.0.10 listed before the one at 10.0.0.1 is chosen |
| ContainerManager.NoIpNeverDirect | eventual-consistency-experiment/src/infrastructure/container_manager.py:191-192 | a container without an IP is never a direct match |
| ContainerManager.FallbackIsExact | eventual-consistency-experiment/src/infrastructure/container_manager.py:211-218 | a fallback result's IP is exactly the address or broadcast address of a host that qualified |
| NodeFailureApp.GetReplicaNodes | node-failure-experiment/src/application/node_failure_experiment.py:75-164 | the inline copy (also node-failure-experiment/node_failure_experiment.py:101-190) returns exactly what the factored resolver returns |
| NodeFailureApp.PrimaryTarget | node-failure-experiment/src/application/node_failure_experiment.py:222-244 | the first replica's container is stopped; no replicas, or no container or an empty one for it, gives exit status 1 |
| NodeFailureApp.ExitStatus | node-failure-experiment/src/application/node_failure_experiment.py:345-348 | status 0 exactly when the data was unreadable with the node down and readable after its restart (the script's lines 653-656 are the same); otherwise 1 |
| NodeFailureScript.CommandParts | node-failure-experiment/node_failure_experiment.py:53-61 | the logged command is "docker", then the command's words in order, then the argument words in order, and nothing else |
| NodeFailureScript.LogDockerCommand | node-failure-experiment/node_failure_experiment.py:51-62 | the log line is "Docker Command: " followed by the words joined with single spaces |
| NodeFailureScript.LoggedCommandReadsBack | node-failure-experiment/node_failure_experiment.py:62 | when no word holds a space, the logged command splits back into its words |
| NodeFailureScript.JoinFive | node-failure-experiment/node_failure_experiment.py:62 | five words are joined with one space between neighbours |
| NodeFailureScript.ExecCommandExample | node-failure-experiment/node_failure_experiment.py:51-62 | the word command exec with arguments -it container-name bash logs as `docker exec -it container-name bash` |
| NodeFailureScript.InspectIp | node-failure-experiment/node_failure_experiment.py:428-437 | the stripped `docker inspect` output, which never begins or ends with whitespace, or None when the command fails |
| NodeFailureScript.ProbesAgreeOnOneNetwork | node-failure-experiment/node_failure_experiment.py:428-437 | for a container on one network, the command line and the Docker API report the same IP |
| NodeFailureScript.ProbesDifferOnTwoNetworks | node-failure-experiment/node_failure_experiment.py:428-437 | on two networks, the command line reports the IPs run together (10.0.0.110.0.1.1) while the API reports the first |
| NodeFailureScript.LastPick | node-failure-experiment/node_failure_experiment.py:451-481 | the loop's leftover value is the pick of the last host that has one; it is None exactly when no host has one |
| NodeFailureScript.LastPickStep | node-failure-experiment/node_failure_experiment.py:451-481 | a newer host with a container overwrites the earlier choice |
| NodeFailureScript.ScanDirect | node-failure-experiment/node_failure_experiment.py:424-446 | the script's direct loop stops at the first container whose non-empty IP loosely matches the replica |
| NodeFailureScript.ScanForHost | node-failure-experiment/node_failure_experiment.py:464-481 | the inner loop stops at the first container whose IP equals the host's address or broadcast address; it does not check for an empty IP |
| NodeFailureScript.ScanAllHosts | node-failure-experiment/node_failure_experiment.py:448-481 | the host loop visits every host and ends with the last qualifying host's container |
| NodeFailureScript.MapReplicaInline | node-failure-experiment/node_failure_experiment.py:416-481 | the inline mapping computes the direct scan and otherwise the last-match fallback, over the command-line IPs |
| NodeFailureScript.IdentifyTarget | node-failure-experiment/node_failure_experiment.py:406-488 | steps 6 and 7 stop the first replica's container as the inline mapping finds it, and otherwise exit with status 1 |
| NodeFailureScript.FirstWhereAgree | node-failure-experiment/node_failure_experiment.py:464-479 | two tests that agree on every name find the same first name |
| NodeFailureScript.LastFallbackIsFirstOfReversed | node-failure-experiment/node_failure_experiment.py:448-481 | when every reported IP is non-empty, the script's fallback is the container manager's fallback over the hosts in reverse order. That condition rules out the missing emptiness test, which leaves the order of the hosts as the only difference |
| NodeFailureScript.EmptyIpMatchesOnlyInScript | node-failure-experiment/node_failure_experiment.py:475-476 | a container reporting an empty IP matches a host with an empty address in the script, and matches nothing in the container manager |
| NodeFailureScript.FirstVersusLastHost | node-failure-experiment/node_failure_experiment.py:448-481 | with two hosts sharing the target broadcast address, the container manager picks the first host's container and the script the second's |

## Findings

| source | as written | input that shows it | evidently intended | confidence | as-written member | corrected member |
|---|---|---|---|---|---|---|
| node-failure-experiment/node_failure_experiment.py:464-479 | `break` leaves only the inner container loop, so the host loop goes on and a later qualifying host overwrites `container_to_stop` | hosts 10.0.0.1 and 10.0.0.2, both with broadcast 10.0.0.9; containers c1 at 10.0.0.1 and c2 at 10.0.0.2; the replica is known as 10.0.0.9 | stop at the first qualifying host's container, as map_replica_node_to_container does | not executed; low (it needs two hosts that share an address) | NodeFailureScript.FirstVersusLastHost | ContainerManager.FallbackFirstWins |

## Left out

- The Murmur3 hash itself is a parameter (`Murmur3Hash`). Only its 32-bit unsigned range and the UTF-8 bytes it is applied to are modelled.
- The driver's ring walk (`token_map.get_replicas` with `Murmur3Token`) is a parameter (`RingWalk`). Its failure is `None`.
- The Docker daemon is a parameter (`DockerState`): a container's networks in iteration order, or None when inspecting it fails. The following are not modelled:
  - the `subprocess.run` timeout;
  - non-zero exit codes, other than the lookup failing;
  - a container whose networks change between two lookups.
- The Docker API and the `docker inspect` template see the same networks in the same order. The model assumes this.
- Logging output other than the two log lines of `log_cql_query` and `log_docker_command` is not modelled. The token comparison only logs and cannot raise, so `ReplicaResolver.GetReplicaNodes` omits the call. `CompareTokenMethods` models the three branches it logs.
- `datetime` parameters of `log_cql_query`, in both copies, are not modelled: `isoformat()` is not part of this model. Floats and other objects are left out too.
- The store's token is an unbounded integer in the model; its signed 64-bit range is not modelled.
- `CassandraRepository.QueryData`: the `time.sleep(retry_delay)` between attempts and the log text are not modelled. Each attempt is an independent answer of the session.
- `CassandraRepository.QueryData`: the `consistency_level` argument is not a parameter of the model. It is folded into `QuerySession`, whose answers stand for the store's replies at whatever consistency level the caller chose.
- `CassandraRepository.QueryData`: an `AttributeError` raised while logging a found row's `id`, `value` or `timestamp` is not modelled. In the source it lands in the `except` and the attempt counts as failed, so the loop retries. In the model a row the session returns always counts as found.
- `ReplicaResolver.TokenViaMurmur3`: a key holding a lone surrogate, on which `encode('utf-8')` raises and the `except` returns None, cannot occur in the model. A Dafny `char` is a Unicode scalar value, so every key encodes.
- `NodeFailureScript.DockerCmd` / `NodeFailureScript.DockerArgs`: a command or argument list with a non-str element, or a tuple `args`, makes `' '.join` raise TypeError in the source. The model's types exclude these inputs. Every call site passes strings, so no behaviour of the script is lost.
- The rest of the experiments' `main` functions are not modelled: connecting, creating keyspaces and tables, inserting, sleeping, stopping and starting containers, health polling. They are I/O and timing around the modelled decisions. Only the replica choice, the container choice and the exit-status verdict are modelled.
- `connect_to_cluster`, `refresh_metadata`, `create_keyspace`, `create_table`, `insert_data` and the container start/stop/health helpers are not part of this model. They only perform I/O.
- The application module's `main` calls the container manager's mapper with the live cluster. The model passes that mapper in as a parameter of `NodeFailureApp.PrimaryTarget`.
- The eventual-consistency experiment and the load test are not part of this model.
