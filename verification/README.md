# raft-nginx core, modelled in Dafny

raft-nginx is a replicated key-value store. A Hashicorp Raft engine does the
replication, and an HTTP gateway sits in front of it. A small publisher writes
the node's role and its own address to a shared file that a reverse proxy reads.
This project models the logic the repository adds around the engine and proves
properties of it.

- **Store** (`store/store.go`): the replicated state machine. It holds a
  string-to-string map plus the last applied log index and term, and offers
  apply, snapshot, persist and restore.
- **RaftNode** (`raftnode/raftnode.go`): the membership decision made by `Join`,
  the single-node bootstrap configuration, and the millisecond-to-nanosecond
  timeout conversion.
- **Service** (`http/service.go`): the route table and the key handler with its
  leader gate and `getKey`. Also `handleJoin`'s body validation, `Set` and
  `Delete`, and the write counter that requests an engine snapshot on every
  third `Set`.
- **Publisher** (`http/service.go`): the role record the observer writes,
  including how it extracts the address from the engine's self-description.
- Supporting modules:
  - **Raft**: the engine reduced to a role, a configuration and its membership
    primitives, with their failures as inputs.
  - **Codec**: JSON documents as sequences of string members.
  - **Strings**: Go's `strings.Index` and `strings.Split`.
  - **Wrappers**: `Option` and `Result`.

The engine, the file system and the network are not executed. They are inputs:

- The engine's answers are fields of `Raft.Engine` and `Service.Gateway`:
  - a failed configuration fetch;
  - a failed removal, by server ID;
  - a failed add;
  - the apply error of each submitted command, by submission number;
  - the snapshot error.
- The local node's side of a join is `RaftNode.LocalNode`: the address of its
  first configured node, if it has one, and an optional error opening the
  state file.

All state is immutable values, so a snapshot (`Store.FsmSnapshot`) cannot be
changed by later applies: that isolation holds by construction.

Go's random map iteration order in a multi-pair POST is left open: the handler
picks each next key with `:|`, and its contract holds for every order.

Where the code and its design description differ, the model follows the code:

- The GET branch writes 400 for a path without a key, then still reads key `""`
  and writes `{"": value}` (`Service.HandleGet`, `Service.GetWithoutKeyReadsEmptyKey`).
- No DELETE route is registered, so the DELETE branch of the key handler is
  reachable only by calling the handler directly (`Service.DeleteIsNeverRouted`).
- The router matches the raw path and the handler splits the decoded one.
  When the two agree, a routed GET always has a non-empty key
  (`Service.RoutedGetHasKey`). An escaped slash, as in `/key/a%2Fb`, is routed
  to the handler but decodes to four segments, so the GET answers 400
  (`Service.EscapedSlashReachesBadRequest`).
- The write counter counts every `Set` whose command encoded, which is every
  `Set`. It counts before the engine's answer, so failed writes count too.
- Neither keys nor values are checked for emptiness before a `Set`. An empty
  value is dropped from the command by `omitempty` and decodes back as `""`.
- `Get` returns `""` for a missing key, not "absent", and never fails.
- The address extraction splits the self-description at every `"at "`. Its
  result is therefore the first space-delimited token of the text between the
  first and the second `"at "`, not of all the text after the first.
  `Publisher.NodeAddressStopsAtSecondAt` shows that a host running straight
  into `"at "` is cut there, so "Node at boat [Leader]" publishes `bo`. For addresses with a port (`host:port`) the difference never
  shows (`Publisher.NodeAddressOfNodeText`).
- `handleJoin` requires the body to decode to exactly two entries, `"addr"` and
  `"id"`. Any extra field is a 400.

## Model

| member | source | states |
|---|---|---|
| Strings.Split | http/service.go:161 | Go's `strings.Split`: rejoining the pieces gives the input, there is at least one piece, and no piece holds the separator |
| Codec.DecodeCommand | store/store.go:48-51 | decoding a log entry fails exactly when the payload is not an object of strings |
| Codec.DecodeCommandReadsLastMember | store/store.go:22-26 | each command field decodes to the last member of that name, or `""` when absent |
| Codec.EncodeCommand | http/service.go:267-272 | the `omitempty` command document has at most the three field names, no empty value, and decodes back to the same command |
| Codec.MembersToMapReadsLastMember | store/store.go:87 | a document decoded into a map holds, per name, the last member's value |
| Codec.DecodeMap | store/store.go:86-89 | map decoding fails exactly on a malformed payload; the keys are the document's member names |
| Codec.EncodeMap | store/store.go:118 | the snapshot document has one member per key, no name twice, and decodes back to exactly the map |
| Raft.WithoutIdKeepsDistinct | raftnode/raftnode.go:247-250 | removing a server by ID keeps the configuration free of duplicate IDs and addresses |
| Raft.GetConfiguration | raftnode/raftnode.go:210-214 | the fetch fails exactly when the engine reports an error, and otherwise yields the live configuration |
| Raft.RemoveServer | raftnode/raftnode.go:247-250 | a removal fails exactly when the engine refuses that ID; otherwise only the servers with that ID leave |
| Raft.AddNonvoter | raftnode/raftnode.go:254-258 | an add fails exactly on an engine error; otherwise the joiner is appended as a non-voter |
| Store.NewStore | store/store.go:29-34 | a new store has an empty map and index and term zero |
| Store.Get | store/store.go:37-42 | the stored value for a present key, `""` for an absent key, never an error |
| Store.ApplySet | store/store.go:97-102 | the key is bound to the value and every other key keeps its binding |
| Store.ApplyDelete | store/store.go:104-109 | the key is gone (a no-op when absent) and every other key keeps its binding |
| Store.CommandOf | store/store.go:48-51 | an undecodable entry yields the zero command, whose op is `""` |
| Store.FsmApply | store/store.go:47-68 | every entry records its index and term; set binds, delete removes, both leave other keys alone; any other op, including a malformed entry, leaves the map unchanged |
| Store.ApplyAll | store/store.go:56-57 | after a log is applied, index and term are those of its last entry |
| Store.ApplyAllFollowsLastEffect | store/store.go:59-67 | after a log is applied, each key holds what the last entry touching it left, or its old binding if none did |
| Store.ApplyAllIsDeterministic | store/store.go:47-68 | two replicas with the same map end with the same map and last index and term after the same log |
| Store.FsmSnapshot | store/store.go:71-82 | the snapshot is a copy equal to the map at snapshot time |
| Store.Persist | store/store.go:115-137 | a write or close error cancels the sink and is returned; otherwise the sink is closed and holds a document that decodes to the snapshot |
| Store.FsmRestore | store/store.go:85-95 | a decode error is returned with the store unchanged; otherwise the map is replaced wholesale (keys exactly the document's, values its last members) and index and term are untouched |
| Store.RestoreReproducesSnapshot | store/store.go:85-95 | restoring a persisted snapshot into any store reproduces exactly the snapshotted map, so `Get` answers as at snapshot time |
| RaftNode.AlreadyMember | raftnode/raftnode.go:222-245 | a state file that cannot be opened is returned as the error, untouched; without a configured node the indexing panics after the file was truncated; otherwise the record of role and configured address is written and nil returned |
| RaftNode.AlreadyMemberIntended | raftnode/raftnode.go:222-245 | the corrected path never panics: it fails only when the state file cannot be opened, and otherwise always writes a record, so the file is never left empty |
| RaftNode.AlreadyMemberIntendedAgrees | raftnode/raftnode.go:222-245 | the corrected path behaves exactly as written for every node with a configured address |
| RaftNode.Scan | raftnode/raftnode.go:216-259 | the scan only changes the engine's configuration and extends the request log; a record is written only on the already-a-member path, with the configured address |
| RaftNode.ScanRequests | raftnode/raftnode.go:216-258 | the scan's requests and errors follow both rule sets below |
| RaftNode.ScanRequestShape | raftnode/raftnode.go:216-258 | removals name only conflicting servers; an add is the last request and names the joiner; the add's error is returned unchanged |
| RaftNode.ScanRefusals | raftnode/raftnode.go:247-251 | a refused removal is the last request and its error is returned wrapped with the joiner's ID and address; conversely, a removal error always comes from a refused last removal, and no add was made |
| RaftNode.ScanConfig | raftnode/raftnode.go:216-252 | the scan only removes servers or appends the joiner; a server whose ID no conflicting server carries stays |
| RaftNode.Join | raftnode/raftnode.go:207-261 | a failed fetch is returned with nothing else done; otherwise the requests and errors follow the scan's rules (including which refused removal is reported, wrapped), and the new configuration holds only old servers and the joiner |
| RaftNode.ScanReachesJoiner | raftnode/raftnode.go:219-245 | when the first matching server is the joiner itself, the scan ends there with no request |
| RaftNode.DistinctJoinerIsFirstMatch | raftnode/raftnode.go:216-223 | in a duplicate-free configuration a present joiner is the first server matching its ID or address |
| RaftNode.JoinAlreadyMember | raftnode/raftnode.go:222-245 | an exact member makes `Join` issue no remove or add and leave the engine as is; it returns the open error with the file untouched, panics after truncating the file when no node is configured, and otherwise writes the role and configured address and succeeds |
| RaftNode.LocalNodeOf | raftnode/raftnode.go:108-125 | a node started by `Open` has no configured address; one started by `OpenWithcConfig` has its first configured node's address |
| RaftNode.JoinPanicsAfterOpen | raftnode/raftnode.go:226-237 | re-joining an exact member on a node started by `Open` panics and leaves the state file truncated and empty |
| RaftNode.ScanCleanCalls | raftnode/raftnode.go:216-258 | without the joiner in the list, a successful scan requests exactly one removal per conflicting server, in order, then the add |
| RaftNode.ScanCleanOutcome | raftnode/raftnode.go:216-258 | without the joiner in the list and with every conflicting removal granted, the scan makes exactly those removals, always attempts the add, and returns the add's error unchanged, or nil |
| RaftNode.ScanFirstRefusal | raftnode/raftnode.go:216-251 | when the first refused conflicting removal comes before any joiner entry, the scan makes the removals up to it, attempts no add, and returns that refusal wrapped |
| RaftNode.ScanAddRefusedConfig | raftnode/raftnode.go:246-258 | a refused add does not restore the servers removed before it: a covering scan with every removal granted leaves no server sharing the joiner's ID or address |
| RaftNode.ScanFirstRefusalConfig | raftnode/raftnode.go:246-250 | after the first refused removal the configuration holds exactly the servers whose ID no earlier conflicting server carries |
| RaftNode.ScanCleanSucceeds | raftnode/raftnode.go:216-258 | without the joiner in the list, a scan succeeds when the engine grants every request |
| RaftNode.AppendJoiner | raftnode/raftnode.go:254 | appending the joiner where nothing shares its ID or address makes it the sole such member and keeps the configuration duplicate-free |
| RaftNode.ScanCleanMembership | raftnode/raftnode.go:216-259 | a successful scan that covers every matching server leaves the joiner last and the sole server with its ID or address, and introduces no duplicate |
| RaftNode.JoinReplacesConflicts | raftnode/raftnode.go:216-258 | replace on conflict: each server sharing exactly one of ID and address is removed by its own ID, then the joiner is added last as a non-voter and is the only server with that ID or address |
| RaftNode.JoinReturnsAddOutcome | raftnode/raftnode.go:207-261 | a joiner not yet a member, with every conflicting removal granted, gets the removals, then the add, and exactly the add's error (nil on success) |
| RaftNode.JoinReturnsFirstRefusal | raftnode/raftnode.go:207-251 | when the first refused conflicting removal precedes any joiner entry, `Join` stops there with no add and returns that refusal wrapped with the joiner's ID and address |
| RaftNode.JoinAddRefusedLeavesNoMatch | raftnode/raftnode.go:246-258 | when the add is refused after every conflicting removal was granted, its error is returned and no server with the joiner's ID or address remains |
| RaftNode.JoinFirstRefusalConfig | raftnode/raftnode.go:246-250 | in a duplicate-free configuration, a refused removal leaves the earlier conflicting servers removed and the refused one in place |
| RaftNode.JoinKeepsBystanders | raftnode/raftnode.go:219 | in a configuration without duplicate IDs or addresses, as the engine guarantees, a server sharing neither ID nor address stays whatever the outcome |
| RaftNode.JoinSuccessEstablishesMembership | raftnode/raftnode.go:216-259 | in a configuration without duplicate IDs or addresses, as the engine guarantees, a successful join leaves the joiner the sole server with its ID or address and keeps the configuration duplicate-free |
| RaftNode.SoleMemberIsFirstMatch | raftnode/raftnode.go:219-223 | a sole joiner is the first matching server of the list |
| RaftNode.JoinIsIdempotent | raftnode/raftnode.go:207-261 | repeating a successful join issues no remove or add and leaves the engine as it was |
| RaftNode.BootstrapConfiguration | raftnode/raftnode.go:178-188 | the bootstrap configuration is exactly one voter: the local ID at the transport's local address |
| RaftNode.BootstrapThenJoin | raftnode/raftnode.go:178-188 | a node bootstrapped alone and then joined by another node holds the bootstrap voter followed by the newcomer as a non-voter |
| RaftNode.Wrap64 | raftnode/raftnode.go:132-133 | Go's 64-bit wrap-around: values in range are kept, others are reduced modulo 2^64 into the signed range |
| RaftNode.MillisToDuration | raftnode/raftnode.go:132-133 | when the product fits in 64 bits, the timeout is the configured milliseconds times 1,000,000 nanoseconds; for every input it is that product reduced modulo 2^64 into the signed range |
| RaftNode.MillisToDurationWraps | raftnode/raftnode.go:132-133 | the wrap is observable: 9,223,372,036,855 milliseconds become a negative duration |
| RaftNode.Open | raftnode/raftnode.go:108-119 | the node bootstraps exactly when single-node mode is enabled, with the one-voter configuration |
| RaftNode.OpenWithConfig | raftnode/raftnode.go:123-203 | an empty node list fails; otherwise the first node is the local one, the timeouts are converted, and a single node bootstraps while any other sends a join to the configured server |
| RaftNode.JoinRequestBody | raftnode/raftnode.go:284 | the join body a new node sends decodes to exactly `addr` and `id` |
| Publisher.EncodeRecord | http/service.go:111-118 | the state record document has both fields, always, and decodes to `State` and `NodeAddr` |
| Publisher.NodeAddress | http/service.go:102-109 | `""` when the text holds no `"at "`; otherwise the address found after the first `"at "`: a space-free prefix of that text, inside which no `"at "` starts, ending at the text's end, a space or the next `"at "` |
| Publisher.AddressInIsUnique | http/service.go:105-107 | those conditions pick out at most one string, so they define the extracted address independently of `strings.Split` |
| Publisher.NodeAddressOfNodeText | http/service.go:104-108 | for "Node at <address> ..." with a space-free address not ending in "at", exactly that address is published |
| Publisher.NodeAddressAfterNodeAt | http/service.go:105-107 | after "Node at ", the address is the first token of the text up to the next `"at "` |
| Publisher.NodeAddressStopsAtSecondAt | http/service.go:105-107 | for any space-free host followed directly by `"at "`, the split at every `"at "` publishes the host alone, as "Node at boat [Leader]" gives `bo` |
| Publisher.Publish | http/service.go:97-119 | only role changes are published, with the role's name and, as address, `""` when the text holds no `"at "` and otherwise the unique address found after the first `"at "` |
| Publisher.PublishNodeText | http/service.go:102-117 | a role change described as "Node at <address> [<role>]" publishes exactly that role and address |
| Service.NewGateway | http/service.go:264 | the counter starts at zero with nothing submitted and no snapshot requested, which satisfies the cadence |
| Service.Set | http/service.go:264-289 | the counter rises by one; one command is submitted that decodes to set(key, value); a snapshot is requested exactly when the new count is a multiple of 3; exactly the engine's apply error for this submission is returned |
| Service.Delete | http/service.go:291-307 | a non-leader gets "not leader" with nothing submitted; a leader submits one command decoding to delete(key) with no value, leaves the counter alone, and returns exactly the engine's apply error for this submission |
| Service.SetIsAppliedAsSet | http/service.go:267-277 | a `Set`'s command, once applied on a replica, binds the key to the value and nothing else |
| Service.DeleteIsAppliedAsDelete | http/service.go:296-306 | a `Delete`'s command, once applied on a replica, removes the key and nothing else |
| Service.SetIgnoresSnapshotError | http/service.go:282-288 | the snapshot's error changes neither what `Set` returns nor what it submits |
| Service.SetKeepsCadence | http/service.go:276-287 | every `Set` keeps one snapshot request per multiple of 3 the counter has reached |
| Service.DeleteKeepsCadence | http/service.go:291-307 | `Delete` neither counts nor requests a snapshot |
| Service.SetPairs | http/service.go:199-204 | a multi-pair write runs `Set` per key in order, stopping at the first failure |
| Service.SetPairsSubmitsInOrder | http/service.go:199-204 | a successful multi-pair write submits one set command per pair, in order, after what was already submitted, and counts each |
| Service.SetPairsKeepsCadence | http/service.go:199-204 | a multi-pair write keeps the snapshot cadence, whether or not it stops early |
| Service.SnapshotsPerWrites | http/service.go:276-287 | k successful writes from count w request (w+k)/3 - w/3 snapshots |
| Service.GetKey | http/service.go:160-166 | the key holds no `/` |
| Service.GetKeyOfSegments | http/service.go:160-166 | a path of three slash-free segments yields its third segment |
| Service.GetKeyShape | http/service.go:160-166 | a non-empty key comes from a path of exactly three slash-free segments, the key last |
| Service.HandleGet | http/service.go:169-185 | GET answers 400 without a key and 200 with one, and in both cases writes the document `{key: Get(key)}` |
| Service.GetWithoutKeyReadsEmptyKey | http/service.go:170-174 | a path that does not split into three parts gets 400 with a body holding the value stored under `""` |
| Service.SetEach | http/service.go:198-203 | every key of the body is set exactly once, in some order; all succeed and every key was set, or the last key tried is the first whose `Set` failed |
| Service.HandleKeyRequest | http/service.go:159-227 | the leader gate gives 405 with nothing submitted; a bad POST body gives 400; each POST key is set once, and the first failing `Set` gives 500 with no later pair submitted; a DELETE without a key gives 400, and a `Delete` error gives 500; any other method gets 405 |
| Service.TwoEntries | http/service.go:136-151 | a two-entry map holding `addr` and `id` holds nothing else |
| Service.JoinTarget | http/service.go:129-151 | an accepted join body decodes to exactly `{"addr": a, "id": n}`, giving (n, a) |
| Service.JoinTargetAcceptsExactBody | http/service.go:129-151 | conversely, every body decoding to exactly `{"addr": a, "id": n}` is accepted as (n, a) |
| Service.JoinRequestBodyIsAccepted | http/service.go:129-151 | the body a joining node sends is accepted with the sender's ID and Raft address |
| Service.HandleJoin | http/service.go:129-157 | a rejected body gives 400 and no `Join`; otherwise `Join` runs with the body's ID and address, its error gives 500, and its panic leaves no response |
| Service.Route | http/service.go:87-93 | GET `/key/{key}` and POST `/key` reach the key handler, POST `/join` the join handler, GET `/raft` the state handler, each exactly then; nothing else is routed |
| Service.DeleteIsNeverRouted | http/service.go:89-92 | no DELETE request is routed |
| Service.RoutedGetHasKey | http/service.go:89 | a routed GET whose decoded path equals its raw path has a non-empty key, its last path segment, and is answered 200 |
| Service.EscapedSlashReachesBadRequest | http/service.go:89 | a GET with an escaped `/` in the key is routed to the key handler, and the decoded path it splits gives no key, so it is answered 400 |

## Left out

- The consensus engine: leader election, log replication, transports, log and
  stable stores, the file snapshot store, and the 10-second apply timeout. It
  is a library; the model keeps only its role, configuration, membership
  primitives, apply verdicts and snapshot outcome, all as inputs.
- Engine construction in `Open` and `OpenWithcConfig`: TCP address resolution,
  transport, snapshot store, BoltDB and `NewRaft` errors. These are I/O and
  library calls. Only the decisions that use their results are modelled.
- Writing `/dev/shm/raftstate`, both from the observer and from `Join`'s
  already-a-member path. This is file I/O. The record's contents are modelled,
  and so are `Join`'s error when the file cannot be opened and a truncated
  file left empty. A failed write is only logged and has no modelled effect.
- `JoinCluster` and `main.join`: an HTTP client call after a five-second sleep,
  which is network I/O and timing. Only the body it sends is modelled
  (`RaftNode.JoinRequestBody`).
- The one-second sleep before a snapshot request in `Set`, because it is timing.
- `main.go` (flags and wiring), `config/config.go` (file loading and defaults),
  `raftnode/fsm.go` (one-line delegation to the store), `helper/log.go`
  (logging) and `handleRaftRequest` (a report of engine state).
- Mutexes, the observer goroutine and channel, and concurrent requests. These
  are concurrency. The model handles one request at a time.
- Byte-level JSON:
  - Documents are sequences of string members, and a non-object or non-string
    document is `Malformed`.
  - Go's case-insensitive match of struct field names and JSON `null` are not
    modelled.
  - Go writes a map's keys sorted; `Codec.EncodeMap` picks any order, and every
    property proved holds for all orders.
- The `%+v` formatting of the engine object. The extraction is modelled over
  any input text.
- Codec.DecodeCommand: Go's decoder skips unknown members of any type and,
  on a member of the wrong type, keeps the fields decoded around it and
  reports an error. The model treats every non-string member as `Malformed`.
- Store.CommandOf: the decode error is ignored, so Go applies the partly
  decoded command. `{"op":"set","key":"k","value":7}` binds `k` to `""` in
  Go, while the model leaves the map unchanged.
- Service.RoutedGetHasKey: one string stands for both the raw and the decoded
  path. Percent-decoding is not modelled; `Service.EscapedSlashReachesBadRequest`
  covers the escaped-slash case.
- Service.Set: the package-level counter `idx` is an unbounded natural number.
  Go's `int` would wrap only after 2^63 writes.
- Chi's routing is reduced to the registered table. A `{key}` parameter is one
  non-empty segment without `/`. Chi's choice between 404 and 405 for an
  unrouted request is not modelled.

## Findings

| source | as written | input that shows it | evidently intended | confidence | as-written member | corrected member |
|---|---|---|---|---|---|---|
| raftnode/raftnode.go:226-237 | the already-a-member path truncates the state file, then reads `s.config.Nodes[0].Address`; `Open` never sets `s.config`, so the index panics | a node started with `Open` receives a join whose ID and address match an existing member | write the record, with the address known (or empty), and return nil | not executed | RaftNode.JoinPanicsAfterOpen | RaftNode.AlreadyMemberIntended |

`RaftNode.Join` keeps the path as written, so that its lemmas describe the
code that runs. `RaftNode.AlreadyMemberIntendedAgrees` shows that the corrected
path differs from it only for nodes without a configured address.
