/**
 * The node wrapper around the consensus engine (package `raftnode`): the
 * cluster membership decision made by `Join`, the single-node bootstrap
 * configuration built by `Open`/`OpenWithcConfig`, and the conversion of the
 * configured millisecond timeouts.
 */
module RaftNode {
  import opened Wrappers
  import opened Codec
  import opened Raft
  import opened Publisher

  /** A request `Join` makes to the engine, in the order it makes them. */
  datatype Call = GetConfigurationCall | RemoveServerCall(id: string) | AddNonvoterCall(id: string, address: string)

  /**
   * Errors `Join` returns: the engine's own error, passed through unchanged;
   * a failed removal, wrapped with the joiner's ID and address; the failure
   * to open the shared state file on the already-a-member path; or the
   * runtime panic of indexing an empty configured node list.
   */
  datatype JoinError =
    | EngineError(cause: string)
    | RemoveFailed(nodeID: string, address: string, cause: string)
    | StateFileError(cause: string)
    | IndexOutOfRange

  /**
   * The local node's side of a join: the address of its first configured
   * node (`None` when the node was started by `Open`, which never sets the
   * configuration), and how opening the state file fares.
   */
  datatype LocalNode = LocalNode(configuredAddress: Option<string>, stateFileError: Option<string>)

  /** The shared state file after a join: not opened, opened and truncated but left empty, or holding a record. */
  datatype StateFile = Untouched | Emptied | Holds(record: StateRecord)

  /**
   * Everything a join leaves behind: the error it returned, the engine after
   * it, the requests it made, and the state file.
   */
  datatype JoinOutcome = JoinOutcome(err: Option<JoinError>, engine: Engine, calls: seq<Call>, stateFile: StateFile)

  /** `s` shares the joiner's ID or its address. */
  predicate Matches(s: Server, nodeID: string, addr: string) {
    s.id == nodeID || s.address == addr
  }

  /** `s` is the joiner itself: same ID and same address. */
  predicate IsJoiner(s: Server, nodeID: string, addr: string) {
    s.id == nodeID && s.address == addr
  }

  /** `s` shares exactly one of the joiner's ID and address: a stale entry to remove. */
  predicate Conflicts(s: Server, nodeID: string, addr: string) {
    Matches(s, nodeID, addr) && !IsJoiner(s, nodeID, addr)
  }

  /** The joiner as `Join` adds it: never a voter. */
  function Joiner(nodeID: string, addr: string): Server {
    Server(nodeID, addr, Nonvoter)
  }

  /**
   * The joiner is in `c` exactly once and no other member shares its ID or
   * its address.
   */
  predicate SoleMember(c: Configuration, nodeID: string, addr: string) {
    exists i :: 0 <= i < |c| && IsJoiner(c[i], nodeID, addr) &&
      forall j :: 0 <= j < |c| && Matches(c[j], nodeID, addr) ==> j == i
  }

  /** The removal requests a clean scan of `servers` makes: one per conflicting member, in order. */
  function ConflictCalls(servers: seq<Server>, nodeID: string, addr: string): seq<Call> {
    if servers == [] then []
    else
      var head := if Conflicts(servers[0], nodeID, addr) then [RemoveServerCall(servers[0].id)] else [];
      head + ConflictCalls(servers[1..], nodeID, addr)
  }

  /**
   * The already-a-member path as written: open (and truncate) the state
   * file, returning the error if that fails; then build the record from the
   * role and the first configured node's address, write it and return nil.
   * Without a configured node the indexing panics after the truncation.
   */
  function AlreadyMember(e: Engine, node: LocalNode, calls: seq<Call>): (r: JoinOutcome)
    ensures r.engine == e && r.calls == calls
    ensures r.err.None? <==> node.stateFileError.None? && node.configuredAddress.Some?
    ensures node.stateFileError.Some? ==> r.err == Some(StateFileError(node.stateFileError.value)) && r.stateFile == Untouched
    ensures node.stateFileError.None? && node.configuredAddress.None? ==> r.err == Some(IndexOutOfRange) && r.stateFile == Emptied
    ensures r.err.None? ==> r.stateFile == Holds(StateRecord(e.state.Name(), node.configuredAddress.value))
  {
    match node.stateFileError
    case Some(err) => JoinOutcome(Some(StateFileError(err)), e, calls, Untouched)
    case None =>
      match node.configuredAddress
      case None => JoinOutcome(Some(IndexOutOfRange), e, calls, Emptied)
      case Some(a) => JoinOutcome(None, e, calls, Holds(StateRecord(e.state.Name(), a)))
  }

  /**
   * The already-a-member path as evidently intended: a node without a
   * configured address writes the record with an empty address instead of
   * crashing, so an opened state file is never left empty.
   */
  function AlreadyMemberIntended(e: Engine, node: LocalNode, calls: seq<Call>): (r: JoinOutcome)
    ensures r.engine == e && r.calls == calls
    ensures r.err.None? <==> node.stateFileError.None?
    ensures node.stateFileError.Some? ==> r.err == Some(StateFileError(node.stateFileError.value)) && r.stateFile == Untouched
    ensures node.stateFileError.None? ==> r.stateFile == Holds(StateRecord(e.state.Name(), node.configuredAddress.GetOr("")))
    ensures r.stateFile != Emptied
  {
    match node.stateFileError
    case Some(err) => JoinOutcome(Some(StateFileError(err)), e, calls, Untouched)
    case None => JoinOutcome(None, e, calls, Holds(StateRecord(e.state.Name(), node.configuredAddress.GetOr(""))))
  }

  /** The two readings agree on every node that has a configured address. */
  lemma AlreadyMemberIntendedAgrees(e: Engine, node: LocalNode, calls: seq<Call>)
    requires node.configuredAddress.Some?
    ensures AlreadyMemberIntended(e, node, calls) == AlreadyMember(e, node, calls)
  {
  }

  /**
   * The loop of `Join` over the fetched member list `servers`, with the live
   * engine `e` and the requests made so far. A member matching both ID and
   * address ends the join; a member matching one of them is removed by its
   * own ID; after the list, the joiner is added as a non-voter.
   */
  function Scan(e: Engine, node: LocalNode, servers: seq<Server>, nodeID: string, addr: string, calls: seq<Call>): (r: JoinOutcome)
    ensures r.engine.(config := e.config) == e
    ensures |calls| <= |r.calls| && r.calls[..|calls|] == calls
    ensures r.stateFile.Holds? ==>
      r.err.None? && node.configuredAddress.Some? && r.stateFile.record == StateRecord(e.state.Name(), node.configuredAddress.value)
    decreases |servers|
  {
    if servers == [] then
      var calls' := calls + [AddNonvoterCall(nodeID, addr)];
      match AddNonvoter(e, nodeID, addr)
      case Failure(err) => JoinOutcome(Some(EngineError(err)), e, calls', Untouched)
      case Success(e') => JoinOutcome(None, e', calls', Untouched)
    else
      var srv := servers[0];
      if Matches(srv, nodeID, addr) then
        if IsJoiner(srv, nodeID, addr) then
          AlreadyMember(e, node, calls)
        else
          var calls' := calls + [RemoveServerCall(srv.id)];
          match RemoveServer(e, srv.id)
          case Failure(err) => JoinOutcome(Some(RemoveFailed(nodeID, addr, err)), e, calls', Untouched)
          case Success(e') =>
            var r := Scan(e', node, servers[1..], nodeID, addr, calls');
            assert calls'[..|calls|] == calls;
            assert r.calls[..|calls|] == calls'[..|calls|];
            r
      else
        Scan(e, node, servers[1..], nodeID, addr, calls)
  }

  /** What the scan asks of the engine, and what it returns when a request fails. */
  ghost predicate RequestsOk(e: Engine, servers: seq<Server>, nodeID: string, addr: string, calls: seq<Call>, r: JoinOutcome)
    requires |calls| <= |r.calls|
  {
    RequestShapeOk(e, servers, nodeID, addr, calls, r) && RefusalsOk(e, nodeID, addr, calls, r)
  }

  /** Which requests the scan makes, and what the add's failure returns. */
  ghost predicate RequestShapeOk(e: Engine, servers: seq<Server>, nodeID: string, addr: string, calls: seq<Call>, r: JoinOutcome)
    requires |calls| <= |r.calls|
  {
    // Removal requests name only conflicting members, by their own ID.
    && (forall i :: |calls| <= i < |r.calls| && r.calls[i].RemoveServerCall? ==>
         exists s :: s in servers && Conflicts(s, nodeID, addr) && s.id == r.calls[i].id)
    // An add request, if any, is the very last one and names the joiner.
    && (forall i :: |calls| <= i < |r.calls| && r.calls[i].AddNonvoterCall? ==>
         i == |r.calls| - 1 && r.calls[i] == AddNonvoterCall(nodeID, addr))
    // The add's error is returned unchanged.
    && (|r.calls| > |calls| && r.calls[|r.calls| - 1].AddNonvoterCall? ==>
         r.err == (if e.addError.Some? then Some(EngineError(e.addError.value)) else None))
  }

  /** A refused removal ends the scan, and its error is returned wrapped with the joiner's ID and address. */
  ghost predicate RefusalsOk(e: Engine, nodeID: string, addr: string, calls: seq<Call>, r: JoinOutcome)
    requires |calls| <= |r.calls|
  {
    // A removal the engine refuses is the last request, and its error is returned wrapped.
    && (forall i :: |calls| <= i < |r.calls| && r.calls[i].RemoveServerCall? && r.calls[i].id in e.removeErrors ==>
         i == |r.calls| - 1 && r.err == Some(RemoveFailed(nodeID, addr, e.removeErrors[r.calls[i].id])))
    // Conversely, a removal error comes from the last request, a refused removal, and no add was made.
    && (r.err.Some? && r.err.value.RemoveFailed? ==>
         && |r.calls| > |calls|
         && r.calls[|r.calls| - 1].RemoveServerCall?
         && r.calls[|r.calls| - 1].id in e.removeErrors
         && r.err.value == RemoveFailed(nodeID, addr, e.removeErrors[r.calls[|r.calls| - 1].id])
         && forall i :: |calls| <= i < |r.calls| ==> !r.calls[i].AddNonvoterCall?)
  }

  /** The scan's requests and errors follow `Join`'s rules. */
  lemma ScanRequests(e: Engine, node: LocalNode, servers: seq<Server>, nodeID: string, addr: string, calls: seq<Call>)
    ensures RequestsOk(e, servers, nodeID, addr, calls, Scan(e, node, servers, nodeID, addr, calls))
  {
    ScanRequestShape(e, node, servers, nodeID, addr, calls);
    ScanRefusals(e, node, servers, nodeID, addr, calls);
  }

  /** The scan removes only conflicting members, adds only the joiner, last, and passes the add's error on. */
  lemma {:induction false} ScanRequestShape(e: Engine, node: LocalNode, servers: seq<Server>, nodeID: string, addr: string, calls: seq<Call>)
    ensures RequestShapeOk(e, servers, nodeID, addr, calls, Scan(e, node, servers, nodeID, addr, calls))
    decreases |servers|
  {
    if servers != [] {
      var srv := servers[0];
      assert forall t :: t in servers[1..] ==> t in servers;
      if Matches(srv, nodeID, addr) && !IsJoiner(srv, nodeID, addr) && srv.id !in e.removeErrors {
        var e' := e.(config := WithoutId(e.config, srv.id));
        var calls' := calls + [RemoveServerCall(srv.id)];
        ScanRequestShape(e', node, servers[1..], nodeID, addr, calls');
        var r := Scan(e', node, servers[1..], nodeID, addr, calls');
        assert r.calls[|calls|] == calls'[|calls|];
      } else if !Matches(srv, nodeID, addr) {
        ScanRequestShape(e, node, servers[1..], nodeID, addr, calls);
      }
    }
  }

  /** The first removal the engine refuses ends the scan with that refusal, wrapped. */
  lemma {:induction false} ScanRefusals(e: Engine, node: LocalNode, servers: seq<Server>, nodeID: string, addr: string, calls: seq<Call>)
    ensures RefusalsOk(e, nodeID, addr, calls, Scan(e, node, servers, nodeID, addr, calls))
    decreases |servers|
  {
    if servers != [] {
      var srv := servers[0];
      if Matches(srv, nodeID, addr) && !IsJoiner(srv, nodeID, addr) && srv.id !in e.removeErrors {
        var e' := e.(config := WithoutId(e.config, srv.id));
        var calls' := calls + [RemoveServerCall(srv.id)];
        ScanRefusals(e', node, servers[1..], nodeID, addr, calls');
        var r := Scan(e', node, servers[1..], nodeID, addr, calls');
        assert r.calls[|calls|] == calls'[|calls|];
      } else if !Matches(srv, nodeID, addr) {
        ScanRefusals(e, node, servers[1..], nodeID, addr, calls);
      }
    }
  }

  /**
   * The scan only removes members and appends the joiner, and a member whose
   * ID no conflicting member of the list carries stays.
   */
  lemma {:induction false} ScanConfig(e: Engine, node: LocalNode, servers: seq<Server>, nodeID: string, addr: string, calls: seq<Call>)
    ensures var r := Scan(e, node, servers, nodeID, addr, calls);
      && (forall s :: s in r.engine.config ==> s in e.config || s == Joiner(nodeID, addr))
      && (forall t :: t in e.config && (forall s :: s in servers && Conflicts(s, nodeID, addr) ==> s.id != t.id) ==>
            t in r.engine.config)
    decreases |servers|
  {
    if servers != [] {
      var srv := servers[0];
      assert forall t :: t in servers[1..] ==> t in servers;
      if Matches(srv, nodeID, addr) && !IsJoiner(srv, nodeID, addr) && srv.id !in e.removeErrors {
        var e' := e.(config := WithoutId(e.config, srv.id));
        ScanConfig(e', node, servers[1..], nodeID, addr, calls + [RemoveServerCall(srv.id)]);
      } else if !Matches(srv, nodeID, addr) {
        ScanConfig(e, node, servers[1..], nodeID, addr, calls);
      }
    }
  }

  /**
   * `Join`: fetch the configuration (a failure is returned unchanged and
   * nothing else happens), then scan it as `Scan` describes.
   */
  function Join(e: Engine, node: LocalNode, nodeID: string, addr: string): (r: JoinOutcome)
    ensures |r.calls| >= 1 && r.calls[0] == GetConfigurationCall
    ensures e.fetchError.Some? ==> r == JoinOutcome(Some(EngineError(e.fetchError.value)), e, [GetConfigurationCall], Untouched)
    ensures r.engine.(config := e.config) == e
    ensures forall s :: s in r.engine.config ==> s in e.config || s == Joiner(nodeID, addr)
    ensures RequestsOk(e, e.config, nodeID, addr, [GetConfigurationCall], r)
  {
    match GetConfiguration(e)
    case Failure(err) => JoinOutcome(Some(EngineError(err)), e, [GetConfigurationCall], Untouched)
    case Success(servers) =>
      ScanRequests(e, node, servers, nodeID, addr, [GetConfigurationCall]);
      ScanConfig(e, node, servers, nodeID, addr, [GetConfigurationCall]);
      Scan(e, node, servers, nodeID, addr, [GetConfigurationCall])
  }

  /** The first member of `servers` that shares the joiner's ID or address is the joiner itself. */
  predicate FirstMatchIsJoiner(servers: seq<Server>, nodeID: string, addr: string) {
    exists i :: 0 <= i < |servers| && IsJoiner(servers[i], nodeID, addr) &&
      forall j :: 0 <= j < i ==> !Matches(servers[j], nodeID, addr)
  }

  /** When the first matching member is the joiner, the scan makes no request and changes nothing. */
  lemma {:induction false} ScanReachesJoiner(e: Engine, node: LocalNode, servers: seq<Server>, nodeID: string, addr: string, calls: seq<Call>)
    requires FirstMatchIsJoiner(servers, nodeID, addr)
    ensures Scan(e, node, servers, nodeID, addr, calls) == AlreadyMember(e, node, calls)
    decreases |servers|
  {
    var i :| 0 <= i < |servers| && IsJoiner(servers[i], nodeID, addr) &&
      forall j :: 0 <= j < i ==> !Matches(servers[j], nodeID, addr);
    if i > 0 {
      assert IsJoiner(servers[1..][i - 1], nodeID, addr);
      assert forall j :: 0 <= j < i - 1 ==> servers[1..][j] == servers[j + 1];
      ScanReachesJoiner(e, node, servers[1..], nodeID, addr, calls);
    }
  }

  /** In a configuration without duplicate IDs or addresses, a present joiner is the first match. */
  lemma DistinctJoinerIsFirstMatch(c: Configuration, nodeID: string, addr: string)
    requires Distinct(c)
    requires exists s :: s in c && IsJoiner(s, nodeID, addr)
    ensures FirstMatchIsJoiner(c, nodeID, addr)
  {
    var s :| s in c && IsJoiner(s, nodeID, addr);
    var i :| 0 <= i < |c| && c[i] == s;
    assert forall j :: 0 <= j < i ==> c[j].id != c[i].id && c[j].address != c[i].address;
  }

  /**
   * Already a member: when the fetched configuration (free of duplicates, as
   * the engine keeps it) holds a server with both the joining ID and
   * address, `Join` makes no remove or add request and leaves the engine as
   * it is. It then behaves as the already-a-member path does: it fails if
   * the state file cannot be opened, panics (leaving the file truncated) if
   * the node has no configured address, and otherwise writes the record.
   */
  lemma JoinAlreadyMember(e: Engine, node: LocalNode, nodeID: string, addr: string)
    requires e.fetchError.None? && Distinct(e.config)
    requires exists s :: s in e.config && IsJoiner(s, nodeID, addr)
    ensures var r := Join(e, node, nodeID, addr);
      && r.calls == [GetConfigurationCall]
      && r.engine == e
      && (r.err.None? <==> node.stateFileError.None? && node.configuredAddress.Some?)
      && (node.stateFileError.Some? ==> r.err == Some(StateFileError(node.stateFileError.value)) && r.stateFile == Untouched)
      && (node.stateFileError.None? && node.configuredAddress.None? ==> r.err == Some(IndexOutOfRange) && r.stateFile == Emptied)
      && (r.err.None? ==> r.stateFile == Holds(StateRecord(e.state.Name(), node.configuredAddress.value)))
  {
    DistinctJoinerIsFirstMatch(e.config, nodeID, addr);
    ScanReachesJoiner(e, node, e.config, nodeID, addr, [GetConfigurationCall]);
  }

  /**
   * The local node as `Join` sees it: a node started by `Open` has no
   * configuration at all, one started by `OpenWithcConfig` keeps the file's
   * node list, whose first entry may be missing.
   */
  function LocalNodeOf(config: Option<RaftConfig>, stateFileError: Option<string>): (n: LocalNode)
    ensures n.configuredAddress.Some? <==> config.Some? && |config.value.nodes| > 0
    ensures n.configuredAddress.Some? ==> n.configuredAddress.value == config.value.nodes[0].address
    ensures n.stateFileError == stateFileError
  {
    match config
    case Some(c) => LocalNode(if |c.nodes| > 0 then Some(c.nodes[0].address) else None, stateFileError)
    case None => LocalNode(None, stateFileError)
  }

  /**
   * The already-a-member path as written crashes a node started by `Open`:
   * re-joining an existing member with the same ID and address truncates the
   * state file, then panics reading the unset configuration.
   */
  lemma JoinPanicsAfterOpen(e: Engine, nodeID: string, addr: string)
    requires e.fetchError.None? && Distinct(e.config)
    requires exists s :: s in e.config && IsJoiner(s, nodeID, addr)
    ensures var r := Join(e, LocalNodeOf(None, None), nodeID, addr);
      r.err == Some(IndexOutOfRange) && r.stateFile == Emptied
  {
    JoinAlreadyMember(e, LocalNodeOf(None, None), nodeID, addr);
  }

  /** Without the joiner in the list, a successful scan made exactly the conflicting removals, then the add. */
  lemma {:induction false} ScanCleanCalls(e: Engine, node: LocalNode, servers: seq<Server>, nodeID: string, addr: string, calls: seq<Call>)
    requires forall t :: t in servers ==> !IsJoiner(t, nodeID, addr)
    ensures var r := Scan(e, node, servers, nodeID, addr, calls);
      && r.stateFile == Untouched
      && (r.err.None? ==> r.calls == calls + ConflictCalls(servers, nodeID, addr) + [AddNonvoterCall(nodeID, addr)])
    decreases |servers|
  {
    if servers != [] {
      var srv := servers[0];
      assert forall t :: t in servers[1..] ==> t in servers;
      if Matches(srv, nodeID, addr) {
        if srv.id !in e.removeErrors {
          var e' := e.(config := WithoutId(e.config, srv.id));
          ScanCleanCalls(e', node, servers[1..], nodeID, addr, calls + [RemoveServerCall(srv.id)]);
        }
      } else {
        ScanCleanCalls(e, node, servers[1..], nodeID, addr, calls);
      }
    }
  }

  /**
   * Without the joiner in the list and with every conflicting removal
   * granted, the scan makes exactly the conflicting removals and then always
   * attempts the add, whose error (or success) it returns unchanged.
   */
  lemma ScanCleanOutcome(e: Engine, node: LocalNode, servers: seq<Server>, nodeID: string, addr: string, calls: seq<Call>)
    requires forall t :: t in servers ==> !IsJoiner(t, nodeID, addr)
    requires forall s :: s in servers && Conflicts(s, nodeID, addr) ==> s.id !in e.removeErrors
    ensures var r := Scan(e, node, servers, nodeID, addr, calls);
      && r.calls == calls + ConflictCalls(servers, nodeID, addr) + [AddNonvoterCall(nodeID, addr)]
      && r.err == (if e.addError.Some? then Some(EngineError(e.addError.value)) else None)
  {
    ScanCleanAttemptsAdd(e, node, servers, nodeID, addr, calls);
    ScanCleanReturnsAddError(e, node, servers, nodeID, addr, calls);
  }

  /** The request log of a clean scan whose removals are all granted: the removals, then the add. */
  lemma {:induction false} ScanCleanAttemptsAdd(e: Engine, node: LocalNode, servers: seq<Server>, nodeID: string, addr: string, calls: seq<Call>)
    requires forall t :: t in servers ==> !IsJoiner(t, nodeID, addr)
    requires forall s :: s in servers && Conflicts(s, nodeID, addr) ==> s.id !in e.removeErrors
    ensures Scan(e, node, servers, nodeID, addr, calls).calls ==
      calls + ConflictCalls(servers, nodeID, addr) + [AddNonvoterCall(nodeID, addr)]
    decreases |servers|
  {
    if servers != [] {
      var srv := servers[0];
      assert forall t :: t in servers[1..] ==> t in servers;
      if Matches(srv, nodeID, addr) {
        var e' := e.(config := WithoutId(e.config, srv.id));
        var calls' := calls + [RemoveServerCall(srv.id)];
        ScanCleanAttemptsAdd(e', node, servers[1..], nodeID, addr, calls');
        assert calls' + ConflictCalls(servers[1..], nodeID, addr) == calls + ConflictCalls(servers, nodeID, addr);
      } else {
        ScanCleanAttemptsAdd(e, node, servers[1..], nodeID, addr, calls);
      }
    }
  }

  /** The error of a clean scan whose removals are all granted: the add's, unchanged. */
  lemma {:induction false} ScanCleanReturnsAddError(e: Engine, node: LocalNode, servers: seq<Server>, nodeID: string, addr: string, calls: seq<Call>)
    requires forall t :: t in servers ==> !IsJoiner(t, nodeID, addr)
    requires forall s :: s in servers && Conflicts(s, nodeID, addr) ==> s.id !in e.removeErrors
    ensures Scan(e, node, servers, nodeID, addr, calls).err ==
      (if e.addError.Some? then Some(EngineError(e.addError.value)) else None)
    decreases |servers|
  {
    if servers != [] {
      var srv := servers[0];
      assert forall t :: t in servers[1..] ==> t in servers;
      if Matches(srv, nodeID, addr) {
        var e' := e.(config := WithoutId(e.config, srv.id));
        ScanCleanReturnsAddError(e', node, servers[1..], nodeID, addr, calls + [RemoveServerCall(srv.id)]);
      } else {
        ScanCleanReturnsAddError(e, node, servers[1..], nodeID, addr, calls);
      }
    }
  }

  /**
   * Without the joiner among the first `i + 1` members, when member `i` is
   * the first conflicting one the engine refuses to remove, the scan makes
   * the conflicting removals up to and including it, attempts no add, and
   * returns that refusal wrapped with the joiner's ID and address.
   */
  lemma ScanFirstRefusal(e: Engine, node: LocalNode, servers: seq<Server>, nodeID: string, addr: string, calls: seq<Call>, i: nat)
    requires i < |servers|
    requires forall j :: 0 <= j <= i ==> !IsJoiner(servers[j], nodeID, addr)
    requires Conflicts(servers[i], nodeID, addr) && servers[i].id in e.removeErrors
    requires forall j :: 0 <= j < i && Conflicts(servers[j], nodeID, addr) ==> servers[j].id !in e.removeErrors
    ensures var r := Scan(e, node, servers, nodeID, addr, calls);
      && r.calls == calls + ConflictCalls(servers[..i + 1], nodeID, addr)
      && r.err == Some(RemoveFailed(nodeID, addr, e.removeErrors[servers[i].id]))
  {
    ScanFirstRefusalCalls(e, node, servers, nodeID, addr, calls, i);
    ScanFirstRefusalError(e, node, servers, nodeID, addr, calls, i);
  }

  /** The request log of a scan that stops at the first refused removal: the removals up to it. */
  lemma {:induction false} ScanFirstRefusalCalls(e: Engine, node: LocalNode, servers: seq<Server>, nodeID: string, addr: string, calls: seq<Call>, i: nat)
    requires i < |servers|
    requires forall j :: 0 <= j <= i ==> !IsJoiner(servers[j], nodeID, addr)
    requires Conflicts(servers[i], nodeID, addr) && servers[i].id in e.removeErrors
    requires forall j :: 0 <= j < i && Conflicts(servers[j], nodeID, addr) ==> servers[j].id !in e.removeErrors
    ensures Scan(e, node, servers, nodeID, addr, calls).calls == calls + ConflictCalls(servers[..i + 1], nodeID, addr)
    decreases i
  {
    var srv := servers[0];
    if i == 0 {
      assert servers[..1][1..] == [];
    } else {
      var rest := servers[1..];
      assert rest[..i] == servers[..i + 1][1..];
      if Matches(srv, nodeID, addr) {
        var e' := e.(config := WithoutId(e.config, srv.id));
        ScanFirstRefusalCalls(e', node, rest, nodeID, addr, calls + [RemoveServerCall(srv.id)], i - 1);
      } else {
        ScanFirstRefusalCalls(e, node, rest, nodeID, addr, calls, i - 1);
      }
    }
  }

  /** The error of a scan that stops at the first refused removal: that refusal, wrapped. */
  lemma {:induction false} ScanFirstRefusalError(e: Engine, node: LocalNode, servers: seq<Server>, nodeID: string, addr: string, calls: seq<Call>, i: nat)
    requires i < |servers|
    requires forall j :: 0 <= j <= i ==> !IsJoiner(servers[j], nodeID, addr)
    requires Conflicts(servers[i], nodeID, addr) && servers[i].id in e.removeErrors
    requires forall j :: 0 <= j < i && Conflicts(servers[j], nodeID, addr) ==> servers[j].id !in e.removeErrors
    ensures Scan(e, node, servers, nodeID, addr, calls).err == Some(RemoveFailed(nodeID, addr, e.removeErrors[servers[i].id]))
    decreases i
  {
    if i > 0 {
      var srv := servers[0];
      var rest := servers[1..];
      assert forall j :: 0 <= j < i ==> rest[j] == servers[j + 1];
      if Matches(srv, nodeID, addr) {
        var e' := e.(config := WithoutId(e.config, srv.id));
        ScanFirstRefusalError(e', node, rest, nodeID, addr, calls + [RemoveServerCall(srv.id)], i - 1);
      } else {
        ScanFirstRefusalError(e, node, rest, nodeID, addr, calls, i - 1);
      }
    }
  }

  /**
   * A refused add does not undo the removals before it: when the scan
   * covers every matching member, grants every conflicting removal and the
   * add is refused, no member with the joiner's ID or address is left.
   */
  lemma {:induction false} ScanAddRefusedConfig(e: Engine, node: LocalNode, servers: seq<Server>, nodeID: string, addr: string, calls: seq<Call>)
    requires forall t :: t in servers ==> !IsJoiner(t, nodeID, addr)
    requires forall t :: t in e.config && Matches(t, nodeID, addr) ==> t in servers
    requires forall s :: s in servers && Conflicts(s, nodeID, addr) ==> s.id !in e.removeErrors
    requires e.addError.Some?
    ensures forall t :: t in Scan(e, node, servers, nodeID, addr, calls).engine.config ==> !Matches(t, nodeID, addr)
    decreases |servers|
  {
    if servers != [] {
      var srv := servers[0];
      assert forall t :: t in servers[1..] ==> t in servers;
      if Matches(srv, nodeID, addr) {
        var e' := e.(config := WithoutId(e.config, srv.id));
        forall t | t in e'.config && Matches(t, nodeID, addr)
          ensures t in servers[1..]
        {
          var k :| 0 <= k < |servers| && servers[k] == t;
          assert k != 0;
          assert servers[1..][k - 1] == t;
        }
        ScanAddRefusedConfig(e', node, servers[1..], nodeID, addr, calls + [RemoveServerCall(srv.id)]);
      } else {
        forall t | t in e.config && Matches(t, nodeID, addr)
          ensures t in servers[1..]
        {
          var k :| 0 <= k < |servers| && servers[k] == t;
          assert k != 0;
          assert servers[1..][k - 1] == t;
        }
        ScanAddRefusedConfig(e, node, servers[1..], nodeID, addr, calls);
      }
    }
  }

  /**
   * A refused removal does not undo the removals before it: after the scan
   * stops at the first refused conflicting member `i`, the configuration
   * holds exactly the members whose ID no earlier conflicting member carries.
   */
  lemma {:induction false} ScanFirstRefusalConfig(e: Engine, node: LocalNode, servers: seq<Server>, nodeID: string, addr: string, calls: seq<Call>, i: nat)
    requires i < |servers|
    requires forall j :: 0 <= j <= i ==> !IsJoiner(servers[j], nodeID, addr)
    requires Conflicts(servers[i], nodeID, addr) && servers[i].id in e.removeErrors
    requires forall j :: 0 <= j < i && Conflicts(servers[j], nodeID, addr) ==> servers[j].id !in e.removeErrors
    ensures forall t :: t in Scan(e, node, servers, nodeID, addr, calls).engine.config <==>
      t in e.config && forall j :: 0 <= j < i && Conflicts(servers[j], nodeID, addr) ==> servers[j].id != t.id
    decreases i
  {
    if i > 0 {
      var srv := servers[0];
      var rest := servers[1..];
      assert forall j :: 0 <= j < i - 1 ==> rest[j] == servers[j + 1];
      if Matches(srv, nodeID, addr) {
        var e' := e.(config := WithoutId(e.config, srv.id));
        ScanFirstRefusalConfig(e', node, rest, nodeID, addr, calls + [RemoveServerCall(srv.id)], i - 1);
      } else {
        ScanFirstRefusalConfig(e, node, rest, nodeID, addr, calls, i - 1);
      }
    }
  }

  /** Without the joiner in the list, a scan the engine grants every request succeeds. */
  lemma {:induction false} ScanCleanSucceeds(e: Engine, node: LocalNode, servers: seq<Server>, nodeID: string, addr: string, calls: seq<Call>)
    requires forall t :: t in servers ==> !IsJoiner(t, nodeID, addr)
    requires forall s :: s in servers && Conflicts(s, nodeID, addr) ==> s.id !in e.removeErrors
    requires e.addError.None?
    ensures Scan(e, node, servers, nodeID, addr, calls).err.None?
    decreases |servers|
  {
    if servers != [] {
      var srv := servers[0];
      assert forall t :: t in servers[1..] ==> t in servers;
      if Matches(srv, nodeID, addr) {
        var e' := e.(config := WithoutId(e.config, srv.id));
        ScanCleanSucceeds(e', node, servers[1..], nodeID, addr, calls + [RemoveServerCall(srv.id)]);
      } else {
        ScanCleanSucceeds(e, node, servers[1..], nodeID, addr, calls);
      }
    }
  }

  /** Appending the joiner to a configuration with no member sharing its ID or address. */
  lemma AppendJoiner(c: Configuration, nodeID: string, addr: string)
    requires forall t :: t in c ==> !Matches(t, nodeID, addr)
    ensures SoleMember(c + [Joiner(nodeID, addr)], nodeID, addr)
    ensures Distinct(c) ==> Distinct(c + [Joiner(nodeID, addr)])
  {
    var c' := c + [Joiner(nodeID, addr)];
    assert forall j :: 0 <= j < |c| ==> c'[j] == c[j] && !Matches(c'[j], nodeID, addr);
    assert IsJoiner(c'[|c'| - 1], nodeID, addr);
    if Distinct(c) {
      forall i, j | 0 <= i < j < |c'|
        ensures c'[i].id != c'[j].id && c'[i].address != c'[j].address
      {
        if j == |c'| - 1 {
          assert c'[i] in c;
        }
      }
    }
  }

  /**
   * A scan of a list without the joiner that covers every matching member of
   * the live configuration: on success the joiner, appended last, is the
   * sole member with its ID or address, and no duplicate was introduced.
   */
  lemma {:induction false} ScanCleanMembership(e: Engine, node: LocalNode, servers: seq<Server>, nodeID: string, addr: string, calls: seq<Call>)
    requires forall t :: t in servers ==> !IsJoiner(t, nodeID, addr)
    requires forall t :: t in e.config && Matches(t, nodeID, addr) ==> t in servers
    ensures var r := Scan(e, node, servers, nodeID, addr, calls);
      r.err.None? ==>
        && SoleMember(r.engine.config, nodeID, addr)
        && r.engine.config[|r.engine.config| - 1] == Joiner(nodeID, addr)
        && (Distinct(e.config) ==> Distinct(r.engine.config))
    decreases |servers|
  {
    if servers == [] {
      AppendJoiner(e.config, nodeID, addr);
    } else {
      var srv := servers[0];
      if Matches(srv, nodeID, addr) {
        if srv.id !in e.removeErrors {
          var e' := e.(config := WithoutId(e.config, srv.id));
          forall t | t in e'.config && Matches(t, nodeID, addr)
            ensures t in servers[1..]
          {
            var k :| 0 <= k < |servers| && servers[k] == t;
            assert k != 0;
            assert servers[1..][k - 1] == t;
          }
          ScanCleanMembership(e', node, servers[1..], nodeID, addr, calls + [RemoveServerCall(srv.id)]);
          if Distinct(e.config) {
            WithoutIdKeepsDistinct(e.config, srv.id);
          }
        }
      } else {
        forall t | t in e.config && Matches(t, nodeID, addr)
          ensures t in servers[1..]
        {
          var k :| 0 <= k < |servers| && servers[k] == t;
          assert k != 0;
          assert servers[1..][k - 1] == t;
        }
        ScanCleanMembership(e, node, servers[1..], nodeID, addr, calls);
      }
    }
  }

  /**
   * Replace on conflict: when the joiner is not yet a member and the engine
   * grants every request, `Join` removes each member that shares exactly
   * one of the joiner's ID and address (by its own ID, in list order), then
   * adds the joiner as a non-voter at the end. Afterwards the joiner is the
   * only member with that ID and the only one with that address, and the
   * configuration is still free of duplicates.
   */
  lemma JoinReplacesConflicts(e: Engine, node: LocalNode, nodeID: string, addr: string)
    requires e.fetchError.None? && e.addError.None?
    requires forall s :: s in e.config ==> !IsJoiner(s, nodeID, addr)
    requires forall s :: s in e.config && Conflicts(s, nodeID, addr) ==> s.id !in e.removeErrors
    ensures var r := Join(e, node, nodeID, addr);
      && r.err.None?
      && r.calls == [GetConfigurationCall] + ConflictCalls(e.config, nodeID, addr) + [AddNonvoterCall(nodeID, addr)]
      && SoleMember(r.engine.config, nodeID, addr)
      && r.engine.config[|r.engine.config| - 1] == Joiner(nodeID, addr)
      && (Distinct(e.config) ==> Distinct(r.engine.config))
  {
    ScanCleanCalls(e, node, e.config, nodeID, addr, [GetConfigurationCall]);
    ScanCleanSucceeds(e, node, e.config, nodeID, addr, [GetConfigurationCall]);
    ScanCleanMembership(e, node, e.config, nodeID, addr, [GetConfigurationCall]);
  }

  /**
   * Add outcome: when the joiner is not yet a member and the engine grants
   * every conflicting removal, `Join` makes those removals, always attempts
   * the add, and returns the add's error unchanged (nil when it succeeds).
   */
  lemma JoinReturnsAddOutcome(e: Engine, node: LocalNode, nodeID: string, addr: string)
    requires e.fetchError.None?
    requires forall s :: s in e.config ==> !IsJoiner(s, nodeID, addr)
    requires forall s :: s in e.config && Conflicts(s, nodeID, addr) ==> s.id !in e.removeErrors
    ensures var r := Join(e, node, nodeID, addr);
      && r.calls == [GetConfigurationCall] + ConflictCalls(e.config, nodeID, addr) + [AddNonvoterCall(nodeID, addr)]
      && r.err == (if e.addError.Some? then Some(EngineError(e.addError.value)) else None)
  {
    ScanCleanOutcome(e, node, e.config, nodeID, addr, [GetConfigurationCall]);
  }

  /**
   * First refusal: when the joiner is not among the members up to member
   * `i`, and member `i` is the first conflicting one the engine refuses to
   * remove, `Join` stops there without an add and returns that refusal
   * wrapped with the joiner's ID and address.
   */
  lemma JoinReturnsFirstRefusal(e: Engine, node: LocalNode, nodeID: string, addr: string, i: nat)
    requires e.fetchError.None?
    requires i < |e.config|
    requires forall j :: 0 <= j <= i ==> !IsJoiner(e.config[j], nodeID, addr)
    requires Conflicts(e.config[i], nodeID, addr) && e.config[i].id in e.removeErrors
    requires forall j :: 0 <= j < i && Conflicts(e.config[j], nodeID, addr) ==> e.config[j].id !in e.removeErrors
    ensures var r := Join(e, node, nodeID, addr);
      && r.calls == [GetConfigurationCall] + ConflictCalls(e.config[..i + 1], nodeID, addr)
      && r.err == Some(RemoveFailed(nodeID, addr, e.removeErrors[e.config[i].id]))
      && forall k :: 0 <= k < |r.calls| ==> !r.calls[k].AddNonvoterCall?
  {
    ScanFirstRefusal(e, node, e.config, nodeID, addr, [GetConfigurationCall], i);
    ScanRequests(e, node, e.config, nodeID, addr, [GetConfigurationCall]);
  }

  /**
   * A refused add leaves the removals in place: the engine ends with no
   * member sharing the joiner's ID or address, and the add's error is
   * returned.
   */
  lemma JoinAddRefusedLeavesNoMatch(e: Engine, node: LocalNode, nodeID: string, addr: string)
    requires e.fetchError.None? && e.addError.Some?
    requires forall s :: s in e.config ==> !IsJoiner(s, nodeID, addr)
    requires forall s :: s in e.config && Conflicts(s, nodeID, addr) ==> s.id !in e.removeErrors
    ensures var r := Join(e, node, nodeID, addr);
      && r.err == Some(EngineError(e.addError.value))
      && forall t :: t in r.engine.config ==> !Matches(t, nodeID, addr)
  {
    ScanCleanOutcome(e, node, e.config, nodeID, addr, [GetConfigurationCall]);
    ScanAddRefusedConfig(e, node, e.config, nodeID, addr, [GetConfigurationCall]);
  }

  /**
   * A refused removal leaves the earlier removals in place: in a
   * configuration without duplicates, the conflicting members before member
   * `i` are gone and member `i`, whose removal was refused, stays.
   */
  lemma JoinFirstRefusalConfig(e: Engine, node: LocalNode, nodeID: string, addr: string, i: nat)
    requires e.fetchError.None? && Distinct(e.config)
    requires i < |e.config|
    requires forall j :: 0 <= j <= i ==> !IsJoiner(e.config[j], nodeID, addr)
    requires Conflicts(e.config[i], nodeID, addr) && e.config[i].id in e.removeErrors
    requires forall j :: 0 <= j < i && Conflicts(e.config[j], nodeID, addr) ==> e.config[j].id !in e.removeErrors
    ensures var c := Join(e, node, nodeID, addr).engine.config;
      && (forall j :: 0 <= j < i && Conflicts(e.config[j], nodeID, addr) ==> e.config[j] !in c)
      && e.config[i] in c
  {
    ScanFirstRefusalConfig(e, node, e.config, nodeID, addr, [GetConfigurationCall], i);
    assert forall j :: 0 <= j < i ==> e.config[j].id != e.config[i].id;
  }

  /**
   * Bystanders stay: in every outcome of `Join`, successful or not, a member
   * that shares neither the joiner's ID nor its address is still in the
   * configuration (given the engine's no-duplicates invariant).
   */
  lemma JoinKeepsBystanders(e: Engine, node: LocalNode, nodeID: string, addr: string, t: Server)
    requires Distinct(e.config)
    requires t in e.config && !Matches(t, nodeID, addr)
    ensures t in Join(e, node, nodeID, addr).engine.config
  {
    if e.fetchError.None? {
      forall s | s in e.config && Conflicts(s, nodeID, addr)
        ensures s.id != t.id
      {
        var i :| 0 <= i < |e.config| && e.config[i] == s;
        var j :| 0 <= j < |e.config| && e.config[j] == t;
        assert i != j;
      }
      ScanConfig(e, node, e.config, nodeID, addr, [GetConfigurationCall]);
    }
  }

  /**
   * A successful join makes the joiner the sole member with its ID and its
   * address, and keeps the configuration free of duplicates.
   */
  lemma JoinSuccessEstablishesMembership(e: Engine, node: LocalNode, nodeID: string, addr: string)
    requires Distinct(e.config)
    requires Join(e, node, nodeID, addr).err.None?
    ensures SoleMember(Join(e, node, nodeID, addr).engine.config, nodeID, addr)
    ensures Distinct(Join(e, node, nodeID, addr).engine.config)
  {
    if exists s :: s in e.config && IsJoiner(s, nodeID, addr) {
      JoinAlreadyMember(e, node, nodeID, addr);
      var s :| s in e.config && IsJoiner(s, nodeID, addr);
      var i :| 0 <= i < |e.config| && e.config[i] == s;
      forall j | 0 <= j < |e.config| && Matches(e.config[j], nodeID, addr)
        ensures j == i
      {
        assert !(i < j) && !(j < i);
      }
    } else {
      ScanCleanMembership(e, node, e.config, nodeID, addr, [GetConfigurationCall]);
    }
  }

  /** A sole joiner is the first matching member. */
  lemma SoleMemberIsFirstMatch(c: Configuration, nodeID: string, addr: string)
    requires SoleMember(c, nodeID, addr)
    ensures FirstMatchIsJoiner(c, nodeID, addr)
  {
  }

  /**
   * Idempotence: after a successful join, the same join again makes no
   * remove or add request and leaves the configuration as the first left it.
   */
  lemma JoinIsIdempotent(e: Engine, node: LocalNode, nodeID: string, addr: string)
    requires Distinct(e.config)
    requires Join(e, node, nodeID, addr).err.None?
    ensures var e1 := Join(e, node, nodeID, addr).engine;
      && Join(e1, node, nodeID, addr).calls == [GetConfigurationCall]
      && Join(e1, node, nodeID, addr).engine == e1
  {
    var e1 := Join(e, node, nodeID, addr).engine;
    JoinSuccessEstablishesMembership(e, node, nodeID, addr);
    SoleMemberIsFirstMatch(e1.config, nodeID, addr);
    ScanReachesJoiner(e1, node, e1.config, nodeID, addr, [GetConfigurationCall]);
  }

  /**
   * The configuration a single-node start hands to `BootstrapCluster`: the
   * local ID at the transport's local address, a voter (Go's zero suffrage).
   */
  function BootstrapConfiguration(localID: string, localAddr: string): (c: Configuration)
    ensures |c| == 1 && c[0].id == localID && c[0].address == localAddr
    ensures c[0].suffrage == Voter
    ensures Distinct(c)
  {
    [Server(localID, localAddr, Voter)]
  }

  /**
   * A node bootstrapped alone, then joined by a second node with another ID
   * and address, holds the bootstrap voter followed by the newcomer as a
   * non-voter.
   */
  lemma BootstrapThenJoin(e: Engine, node: LocalNode, localID: string, localAddr: string, nodeID: string, addr: string)
    requires e.config == BootstrapConfiguration(localID, localAddr)
    requires e.fetchError.None? && e.addError.None?
    requires localID != nodeID && localAddr != addr
    ensures Join(e, node, nodeID, addr).err.None?
    ensures Join(e, node, nodeID, addr).engine.config == [Server(localID, localAddr, Voter), Server(nodeID, addr, Nonvoter)]
  {
    var c := [GetConfigurationCall];
    assert !Matches(e.config[0], nodeID, addr);
    assert e.config[1..] == [];
    assert Scan(e, node, e.config, nodeID, addr, c) == Scan(e, node, [], nodeID, addr, c);
  }

  const Int64Limit := 0x8000_0000_0000_0000

  /** Go's `int` on a 64-bit platform, and `time.Duration`. */
  type int64 = x: int | -Int64Limit <= x < Int64Limit

  /** Two's-complement wrap-around of a 64-bit multiplication result. */
  function Wrap64(x: int): (y: int64)
    ensures -Int64Limit <= x < Int64Limit ==> y == x
    ensures (y - x) % (2 * Int64Limit) == 0
  {
    (x + Int64Limit) % (2 * Int64Limit) - Int64Limit
  }

  const NanosPerMilli := 1000 * 1000

  /**
   * `time.Duration(ms * 1000 * 1000)`: milliseconds to nanoseconds, each
   * multiplication wrapping as Go's `int` does. Whenever the product fits in
   * 64 bits the result is exactly `ms` million nanoseconds.
   */
  function MillisToDuration(ms: int64): (d: int64)
    ensures -Int64Limit <= ms * NanosPerMilli < Int64Limit ==> d == ms * NanosPerMilli && d / NanosPerMilli == ms
    ensures (d - ms * NanosPerMilli) % (2 * Int64Limit) == 0
  {
    var inner := Wrap64(ms * 1000);
    var d := Wrap64(inner * 1000);
    WrapTwiceIsCongruent(ms * 1000, inner, d);
    d
  }

  /**
   * Wrapping an intermediate product does not change the final result
   * modulo 2^64: if `y` is congruent to `x` and `d` to `1000 * y`, then `d`
   * is congruent to `1000 * x`.
   */
  lemma WrapTwiceIsCongruent(x: int, y: int, d: int)
    requires (y - x) % (2 * Int64Limit) == 0
    requires (d - y * 1000) % (2 * Int64Limit) == 0
    ensures (d - x * 1000) % (2 * Int64Limit) == 0
  {
    var m := 2 * Int64Limit;
    var a := (y - x) / m;
    var b := (d - y * 1000) / m;
    assert y - x == a * m;
    assert d - y * 1000 == b * m;
    assert d - x * 1000 == (b + 1000 * a) * m;
  }

  /** Past 64 bits the conversion wraps: this many milliseconds come out as a negative duration. */
  lemma MillisToDurationWraps()
    ensures MillisToDuration(9_223_372_036_855) < 0
  {
  }

  datatype NodeConfig = NodeConfig(id: string, address: string, raftBind: string)

  /** The fields of the configuration file that `OpenWithcConfig` reads. */
  datatype RaftConfig = RaftConfig(
    nodes: seq<NodeConfig>,
    electionTimeoutMs: int64,
    heartbeatIntervalMs: int64,
    singleNode: bool,
    serverAddress: string)

  /** How a node enters the cluster once the engine is up. */
  datatype Startup =
    | Bootstrap(configuration: Configuration)
    | JoinSeed(seedAddr: string, raftAddr: string, nodeID: string)
    | AwaitJoin

  /** The engine settings `OpenWithcConfig` derives, and how the node enters the cluster. */
  datatype Settings = Settings(localID: string, heartbeatTimeout: int64, electionTimeout: int64, startup: Startup)

  /** `Open`: bootstrap alone when single-node is enabled, otherwise wait to be joined. */
  function Open(enableSingle: bool, localID: string, localAddr: string): (s: Startup)
    ensures enableSingle <==> s.Bootstrap?
    ensures s.Bootstrap? ==> s.configuration == [Server(localID, localAddr, Voter)]
  {
    if enableSingle then Bootstrap(BootstrapConfiguration(localID, localAddr)) else AwaitJoin
  }

  /**
   * `OpenWithcConfig`: the first configured node is the local one (an empty
   * node list makes Go's indexing panic, modelled as a failure); timeouts are
   * converted to nanoseconds; a single node bootstraps alone, any other
   * node sends a join for its transport address to the configured server.
   */
  function OpenWithConfig(cfg: RaftConfig, localAddr: string): (r: Result<Settings, string>)
    ensures r.Failure? <==> cfg.nodes == []
    ensures r.Success? ==> r.value.localID == cfg.nodes[0].id
    ensures r.Success? ==> r.value.heartbeatTimeout == MillisToDuration(cfg.heartbeatIntervalMs)
    ensures r.Success? ==> r.value.electionTimeout == MillisToDuration(cfg.electionTimeoutMs)
    ensures r.Success? && cfg.singleNode ==> r.value.startup == Bootstrap([Server(cfg.nodes[0].id, localAddr, Voter)])
    ensures r.Success? && !cfg.singleNode ==> r.value.startup == JoinSeed(cfg.serverAddress, localAddr, cfg.nodes[0].id)
  {
    if cfg.nodes == [] then Failure("index out of range")
    else
      var localID := cfg.nodes[0].id;
      var startup := if cfg.singleNode then Bootstrap(BootstrapConfiguration(localID, localAddr))
                     else JoinSeed(cfg.serverAddress, localAddr, localID);
      Success(Settings(localID, MillisToDuration(cfg.heartbeatIntervalMs), MillisToDuration(cfg.electionTimeoutMs), startup))
  }

  /** The body a joining node posts to the seed: `{"addr": <raft address>, "id": <node ID>}`. */
  function JoinRequestBody(raftAddr: string, nodeID: string): (p: Payload)
    ensures DecodeMap(p) == Success(map["addr" := raftAddr, "id" := nodeID])
  {
    var ms := [("addr", raftAddr), ("id", nodeID)];
    assert ms[..1][..0] == [];
    assert MembersToMap(ms[..1]) == map["addr" := raftAddr];
    Object(ms)
  }
}
