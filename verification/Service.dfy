/**
 * The HTTP gateway (package `httpd`): the route table, the key handler with
 * its leader gate, the join handler's body validation, and the `Set`/`Delete`
 * writers with the package-level write counter that asks the engine for a
 * snapshot on every third `Set`.
 *
 * The engine is reduced to the node's role and to how it will answer: the
 * apply outcome of each submitted command (by submission number) and the
 * outcome of a snapshot request.
 */
module Service {
  import opened Wrappers
  import opened Strings
  import opened Codec
  import opened Raft
  import opened Store
  import opened RaftNode

  const StatusOK := 200
  const StatusBadRequest := 400
  const StatusMethodNotAllowed := 405
  const StatusInternalServerError := 500
  /** No status at all: a handler that panics is recovered by the HTTP server, which closes the connection. */
  const NoResponse := 0

  const NotLeader := "not leader"

  /**
   * The gateway's view of its node: the engine's role, the write counter
   * `idx`, the commands handed to the engine's `Apply` in order, the counter
   * values at which a snapshot was requested, and how the engine answers
   * (the apply error of a submission by its number, and the snapshot error).
   */
  datatype Gateway = Gateway(
    role: RaftState,
    writes: nat,
    submitted: seq<Payload>,
    snapshots: seq<nat>,
    applyErrors: map<nat, string>,
    snapshotError: Option<string>)

  /** The outcome of a write: the gateway after it and the error `Set`/`Delete` returned. */
  datatype Written = Written(gw: Gateway, err: Option<string>)

  /** The gateway at process start: the counter at zero, nothing submitted, no snapshot requested. */
  function NewGateway(role: RaftState, applyErrors: map<nat, string>, snapshotError: Option<string>): (g: Gateway)
    ensures g.writes == 0 && g.submitted == [] && g.snapshots == []
    ensures CadenceOk(g)
  {
    Gateway(role, 0, [], [], applyErrors, snapshotError)
  }

  /** What the engine's apply future will report for the next submission. */
  function Verdict(g: Gateway): Option<string> {
    var n := |g.submitted|;
    if n in g.applyErrors then Some(g.applyErrors[n]) else None
  }

  /** The engine's answers and the node's role are what they were. */
  predicate SameEngine(a: Gateway, b: Gateway) {
    a.role == b.role && a.applyErrors == b.applyErrors && a.snapshotError == b.snapshotError
  }

  /**
   * `Set`: the command always encodes, so the counter rises; the command is
   * handed to the engine; when the new count is a multiple of three a
   * snapshot is requested (its error is only logged); the apply error is
   * returned.
   */
  function Set(g: Gateway, key: string, value: string): (r: Written)
    ensures r.gw.writes == g.writes + 1 && SameEngine(r.gw, g)
    ensures |r.gw.submitted| == |g.submitted| + 1 && r.gw.submitted[..|g.submitted|] == g.submitted
    ensures DecodeCommand(r.gw.submitted[|g.submitted|]) == Success(Command(OpSet, key, value))
    ensures r.gw.writes % 3 == 0 ==> r.gw.snapshots == g.snapshots + [r.gw.writes]
    ensures r.gw.writes % 3 != 0 ==> r.gw.snapshots == g.snapshots
    ensures r.err.Some? <==> |g.submitted| in g.applyErrors
    ensures r.err.Some? ==> r.err.value == g.applyErrors[|g.submitted|]
  {
    var n := g.writes + 1;
    var snapshots := if n % 3 == 0 then g.snapshots + [n] else g.snapshots;
    var gw := g.(writes := n, submitted := g.submitted + [EncodeCommand(Command(OpSet, key, value))], snapshots := snapshots);
    Written(gw, Verdict(g))
  }

  /**
   * `Delete`: refuses with "not leader" before encoding anything; otherwise
   * hands a delete command without a value to the engine and returns the
   * apply error. The write counter is not touched.
   */
  function Delete(g: Gateway, key: string): (r: Written)
    ensures g.role != Leader ==> r == Written(g, Some(NotLeader))
    ensures g.role == Leader ==>
      && r.gw.writes == g.writes && r.gw.snapshots == g.snapshots && SameEngine(r.gw, g)
      && |r.gw.submitted| == |g.submitted| + 1 && r.gw.submitted[..|g.submitted|] == g.submitted
      && DecodeCommand(r.gw.submitted[|g.submitted|]) == Success(Command(OpDelete, key, ""))
      && "value" !in Names(r.gw.submitted[|g.submitted|].members)
      && (r.err.Some? <==> |g.submitted| in g.applyErrors)
      && (r.err.Some? ==> r.err.value == g.applyErrors[|g.submitted|])
  {
    if g.role != Leader then Written(g, Some(NotLeader))
    else
      var p := EncodeCommand(Command(OpDelete, key, ""));
      assert forall i :: 0 <= i < |p.members| ==> p.members[i].0 != "value";
      Written(g.(submitted := g.submitted + [p]), Verdict(g))
  }

  /** A `Set`'s command, once committed, binds the key to the value on every replica and touches nothing else. */
  lemma SetIsAppliedAsSet(g: Gateway, key: string, value: string, st: Store, index: uint64, term: uint64)
    ensures var p := Set(g, key, value).gw.submitted[|g.submitted|];
      FsmApply(st, LogEntry(index, term, p)).m == st.m[key := value]
  {
    var p := Set(g, key, value).gw.submitted[|g.submitted|];
    var r := FsmApply(st, LogEntry(index, term, p)).m;
    assert CommandOf(p) == Command(OpSet, key, value);
    assert r.Keys == st.m.Keys + {key};
  }

  /** A `Delete`'s command, once committed, removes the key on every replica and touches nothing else. */
  lemma DeleteIsAppliedAsDelete(g: Gateway, key: string, st: Store, index: uint64, term: uint64)
    requires g.role == Leader
    ensures var p := Delete(g, key).gw.submitted[|g.submitted|];
      FsmApply(st, LogEntry(index, term, p)).m == st.m - {key}
  {
    var p := Delete(g, key).gw.submitted[|g.submitted|];
    var r := FsmApply(st, LogEntry(index, term, p)).m;
    assert CommandOf(p) == Command(OpDelete, key, "");
    assert r.Keys == st.m.Keys - {key};
  }

  /**
   * The snapshot's own error never changes what `Set` returns or submits:
   * the snapshot future's error is only logged, which is why no write reads
   * `snapshotError`.
   */
  lemma SetIgnoresSnapshotError(g: Gateway, key: string, value: string, e: Option<string>)
    ensures Set(g.(snapshotError := e), key, value).err == Set(g, key, value).err
    ensures Set(g.(snapshotError := e), key, value).gw == Set(g, key, value).gw.(snapshotError := e)
  {
  }

  /**
   * The snapshot cadence: one request per multiple of three the counter has
   * reached, recorded at that multiple, in order.
   */
  ghost predicate CadenceOk(g: Gateway) {
    && |g.snapshots| == g.writes / 3
    && forall i :: 0 <= i < |g.snapshots| ==> g.snapshots[i] == 3 * (i + 1)
  }

  /** Every `Set` keeps the cadence. */
  lemma SetKeepsCadence(g: Gateway, key: string, value: string)
    requires CadenceOk(g)
    ensures CadenceOk(Set(g, key, value).gw)
  {
    var n := g.writes + 1;
    var q := g.writes / 3;
    assert g.writes == 3 * q + g.writes % 3;
    if n % 3 == 0 {
      assert g.writes % 3 == 2;
      assert n == 3 * (q + 1);
      assert n / 3 == q + 1;
    } else {
      assert g.writes % 3 < 2;
      assert n / 3 == q;
    }
  }

  /** `Delete` keeps the cadence: it neither counts nor requests a snapshot. */
  lemma DeleteKeepsCadence(g: Gateway, key: string)
    requires CadenceOk(g)
    ensures CadenceOk(Delete(g, key).gw)
  {
  }

  /**
   * The `Set`s of a multi-pair write, keys in the given order with their
   * values from `m`, stopping at the first one that fails.
   */
  function SetPairs(g: Gateway, m: map<string, string>, keys: seq<string>): (r: Written)
    requires forall i :: 0 <= i < |keys| ==> keys[i] in m
    ensures SameEngine(r.gw, g)
    ensures r.gw.writes <= g.writes + |keys|
    decreases |keys|
  {
    if keys == [] then Written(g, None)
    else
      var prev := SetPairs(g, m, keys[..|keys| - 1]);
      if prev.err.Some? then prev
      else Set(prev.gw, keys[|keys| - 1], m[keys[|keys| - 1]])
  }

  /**
   * A multi-pair write that succeeds submits one set command per key, in
   * order, after what was already submitted, and counts each of them.
   */
  lemma {:induction false} SetPairsSubmitsInOrder(g: Gateway, m: map<string, string>, keys: seq<string>)
    requires forall i :: 0 <= i < |keys| ==> keys[i] in m
    requires SetPairs(g, m, keys).err.None?
    ensures var r := SetPairs(g, m, keys).gw;
      && r.writes == g.writes + |keys|
      && |r.submitted| == |g.submitted| + |keys| && r.submitted[..|g.submitted|] == g.submitted
      && forall i :: 0 <= i < |keys| ==>
           DecodeCommand(r.submitted[|g.submitted| + i]) == Success(Command(OpSet, keys[i], m[keys[i]]))
    decreases |keys|
  {
    if keys != [] {
      var init := keys[..|keys| - 1];
      SetPairsSubmitsInOrder(g, m, init);
      var prev := SetPairs(g, m, init).gw;
      var r := SetPairs(g, m, keys).gw;
      assert r.submitted[..|prev.submitted|] == prev.submitted;
      forall i | 0 <= i < |keys|
        ensures DecodeCommand(r.submitted[|g.submitted| + i]) == Success(Command(OpSet, keys[i], m[keys[i]]))
      {
        if i < |init| {
          assert r.submitted[|g.submitted| + i] == prev.submitted[|g.submitted| + i];
          assert init[i] == keys[i];
        }
      }
    }
  }

  /** A multi-pair write keeps the snapshot cadence, whether or not it stops early. */
  lemma {:induction false} SetPairsKeepsCadence(g: Gateway, m: map<string, string>, keys: seq<string>)
    requires forall i :: 0 <= i < |keys| ==> keys[i] in m
    requires CadenceOk(g)
    ensures CadenceOk(SetPairs(g, m, keys).gw)
    decreases |keys|
  {
    if keys != [] {
      var init := keys[..|keys| - 1];
      SetPairsKeepsCadence(g, m, init);
      var prev := SetPairs(g, m, init);
      if prev.err.None? {
        SetKeepsCadence(prev.gw, keys[|keys| - 1], m[keys[|keys| - 1]]);
      }
    }
  }

  /**
   * From a gateway that kept the cadence, `k` successful `Set`s request
   * exactly as many snapshots as multiples of three the counter crossed.
   */
  lemma SnapshotsPerWrites(g: Gateway, m: map<string, string>, keys: seq<string>)
    requires forall i :: 0 <= i < |keys| ==> keys[i] in m
    requires CadenceOk(g)
    requires SetPairs(g, m, keys).err.None?
    ensures |SetPairs(g, m, keys).gw.snapshots| - |g.snapshots| == (g.writes + |keys|) / 3 - g.writes / 3
  {
    SetPairsKeepsCadence(g, m, keys);
    SetPairsSubmitsInOrder(g, m, keys);
  }

  /** `getKey`: the third "/"-separated piece of the path when there are exactly three, otherwise "". */
  function GetKey(path: string): (k: string)
    ensures Free(k, "/")
  {
    var parts := Split(path, "/");
    if |parts| != 3 then "" else parts[2]
  }

  /** A path of three slash-free segments yields its last segment. */
  lemma GetKeyOfSegments(a: string, b: string, c: string)
    requires Free(a, "/") && Free(b, "/") && Free(c, "/")
    ensures GetKey(a + "/" + b + "/" + c) == c
  {
    assert a + "/" + b + "/" + c == a + "/" + (b + "/" + c);
    SplitSingleChar(a, "/", b + "/" + c);
    SplitSingleChar(b, "/", c);
    SplitFree(c, "/");
  }

  /** Conversely, a non-empty key comes from a path of exactly three slash-free segments, the key last. */
  lemma GetKeyShape(path: string) returns (a: string, b: string)
    ensures GetKey(path) != "" ==>
      Free(a, "/") && Free(b, "/") && path == a + "/" + b + "/" + GetKey(path)
  {
    var parts := Split(path, "/");
    a, b := "", "";
    if |parts| == 3 {
      a, b := parts[0], parts[1];
      assert parts[1..][1..] == [parts[2]];
      assert JoinWith(parts[1..][1..], "/") == parts[2];
      assert JoinWith(parts[1..], "/") == b + "/" + parts[2];
      assert JoinWith(parts, "/") == a + "/" + (b + "/" + parts[2]);
    }
  }

  /** An HTTP request as the handlers see it: its method, its URL path and its body. */
  datatype Request = Request(verb: string, path: string, body: Payload)

  /** What a handler writes: the status (200 when it sets none) and the body, if any. */
  datatype Response = Response(status: int, body: Option<Payload>)

  /**
   * The GET branch: a missing key is answered 400, yet the store is still
   * read at key "" and `{"": <value>}` is written after the status.
   */
  function HandleGet(st: Store, path: string): (r: Response)
    ensures r.status == (if GetKey(path) == "" then StatusBadRequest else StatusOK)
    ensures r.body.Some?
    ensures DecodeMap(r.body.value) == Success(map[GetKey(path) := Get(st, GetKey(path)).value])
  {
    var k := GetKey(path);
    var status := if k == "" then StatusBadRequest else StatusOK;
    match Get(st, k)
    case Failure(_) => Response(StatusInternalServerError, None)
    case Success(v) =>
      var body := Object([(k, v)]);
      assert [(k, v)][..0] == [];
      Response(status, Some(body))
  }

  /** The GET quirk: a path without a key gets a 400 whose body still carries the value stored under "". */
  lemma GetWithoutKeyReadsEmptyKey(st: Store, path: string)
    requires |Split(path, "/")| != 3
    ensures HandleGet(st, path).status == StatusBadRequest
    ensures DecodeMap(HandleGet(st, path).body.value) == Success(map["" := if "" in st.m then st.m[""] else ""])
  {
  }

  /** `s` holds no key outside `m` and no key twice. */
  predicate KeysOnce(s: seq<string>, m: map<string, string>) {
    && (forall i :: 0 <= i < |s| ==> s[i] in m)
    && (forall i, j :: 0 <= i < j < |s| ==> s[i] != s[j])
  }

  /**
   * The POST loop: set every pair of `m`, one at a time, in an order left
   * open (`order`, Go's map iteration order), stopping at the first failing
   * `Set`. `ok` tells whether every pair was set.
   */
  method SetEach(g: Gateway, m: map<string, string>) returns (ok: bool, r: Gateway, order: seq<string>)
    ensures KeysOnce(order, m)
    ensures r == SetPairs(g, m, order).gw
    ensures ok <==> SetPairs(g, m, order).err.None?
    ensures ok ==> forall k :: k in m ==> k in order
    ensures !ok ==> |order| >= 1 && SetPairs(g, m, order[..|order| - 1]).err.None?
  {
    order := [];
    r := g;
    var rest := m.Keys;
    while rest != {}
      invariant rest <= m.Keys
      invariant KeysOnce(order, m)
      invariant forall i :: 0 <= i < |order| ==> order[i] !in rest
      invariant forall k :: k in m ==> k in rest || k in order
      invariant SetPairs(g, m, order) == Written(r, None)
      decreases |rest|
    {
      var k :| k in rest;
      var w := Set(r, k, m[k]);
      assert (order + [k])[..|order|] == order;
      order := order + [k];
      rest := rest - {k};
      r := w.gw;
      if w.err.Some? {
        return false, r, order;
      }
    }
    ok := true;
  }

  /**
   * `handleKeyRequest`. GET answers from the local store. POST and DELETE
   * are refused with 405 on a node that is not the leader. A POST body that
   * does not decode is answered 400; otherwise its pairs are set one by one,
   * in an order the model leaves open (`order`, Go's map iteration order),
   * and the first failing `Set` ends the request with 500. A DELETE without
   * a key is answered 400; a failing `Delete` is answered 500. Any other
   * method gets 405.
   */
  method HandleKeyRequest(g: Gateway, st: Store, req: Request) returns (resp: Response, r: Gateway, order: seq<string>)
    ensures req.verb == "GET" ==> resp == HandleGet(st, req.path) && r == g
    ensures req.verb !in {"GET", "POST", "DELETE"} ==> resp == Response(StatusMethodNotAllowed, None) && r == g
    ensures req.verb in {"POST", "DELETE"} && g.role != Leader ==>
      resp == Response(StatusMethodNotAllowed, None) && r == g
    ensures req.verb == "POST" && g.role == Leader && req.body.Malformed? ==>
      resp == Response(StatusBadRequest, None) && r == g
    ensures req.verb == "POST" && g.role == Leader && req.body.Object? ==>
      var m := MembersToMap(req.body.members);
      && resp.body.None? && resp.status in {StatusOK, StatusInternalServerError}
      && KeysOnce(order, m)
      && r == SetPairs(g, m, order).gw
      && (resp.status == StatusOK <==> SetPairs(g, m, order).err.None?)
      && (resp.status == StatusOK ==> forall k :: k in m ==> k in order)
      && (resp.status == StatusInternalServerError ==>
            |order| >= 1 && SetPairs(g, m, order[..|order| - 1]).err.None?)
    ensures req.verb != "POST" ==> order == []
    ensures req.verb == "DELETE" && g.role == Leader ==>
      var k := GetKey(req.path);
      && (k == "" ==> resp == Response(StatusBadRequest, None) && r == g)
      && (k != "" ==>
            && r == Delete(g, k).gw && resp.body.None?
            && (resp.status == StatusInternalServerError <==> Delete(g, k).err.Some?)
            && resp.status in {StatusOK, StatusInternalServerError})
  {
    order := [];
    r := g;
    if req.verb == "GET" {
      resp := HandleGet(st, req.path);
    } else if req.verb == "POST" {
      if g.role != Leader {
        resp := Response(StatusMethodNotAllowed, None);
        return;
      }
      match DecodeMap(req.body)
      case Failure(_) =>
        resp := Response(StatusBadRequest, None);
      case Success(m) =>
        var ok;
        ok, r, order := SetEach(g, m);
        resp := Response(if ok then StatusOK else StatusInternalServerError, None);
    } else if req.verb == "DELETE" {
      if g.role != Leader {
        resp := Response(StatusMethodNotAllowed, None);
        return;
      }
      var k := GetKey(req.path);
      if k == "" {
        resp := Response(StatusBadRequest, None);
        return;
      }
      var w := Delete(g, k);
      r := w.gw;
      resp := Response(if w.err.Some? then StatusInternalServerError else StatusOK, None);
    } else {
      resp := Response(StatusMethodNotAllowed, None);
    }
  }

  /** A map of two entries holding two distinct keys holds nothing else. */
  lemma TwoEntries(m: map<string, string>, a: string, b: string)
    requires |m| == 2 && a in m && b in m && a != b
    ensures m == map[a := m[a], b := m[b]]
  {
    var pair := {a, b};
    assert |pair| == 2;
    assert m.Keys == pair + (m.Keys - pair);
    assert |m.Keys - pair| == 0;
  }

  /**
   * The join body check: the body must decode to a map of exactly two
   * entries, "addr" and "id"; the result is the joiner's (ID, address).
   */
  function JoinTarget(body: Payload): (r: Option<(string, string)>)
    ensures r.Some? ==> DecodeMap(body) == Success(map["addr" := r.value.1, "id" := r.value.0])
  {
    match DecodeMap(body)
    case Failure(_) => None
    case Success(m) =>
      if |m| != 2 then None
      else if "addr" !in m then None
      else if "id" !in m then None
      else
        TwoEntries(m, "addr", "id");
        Some((m["id"], m["addr"]))
  }

  /** Conversely, every body that decodes to exactly `{"addr": a, "id": n}` is accepted as (n, a). */
  lemma JoinTargetAcceptsExactBody(body: Payload, a: string, n: string)
    requires DecodeMap(body) == Success(map["addr" := a, "id" := n])
    ensures JoinTarget(body) == Some((n, a))
  {
    assert |map["addr" := a, "id" := n]| == 2 by {
      assert map["addr" := a, "id" := n].Keys == {"addr", "id"};
    }
  }

  /** The body a joining node sends is accepted with the sender's ID and Raft address. */
  lemma JoinRequestBodyIsAccepted(raftAddr: string, nodeID: string)
    ensures JoinTarget(JoinRequestBody(raftAddr, nodeID)) == Some((nodeID, raftAddr))
  {
    JoinTargetAcceptsExactBody(JoinRequestBody(raftAddr, nodeID), raftAddr, nodeID);
  }

  /** What `handleJoin` leaves behind: the status and, when it called `Join`, the join's outcome. */
  datatype JoinReply = JoinReply(status: int, outcome: Option<JoinOutcome>)

  /**
   * `handleJoin`: 400 without calling `Join` for a rejected body; otherwise
   * `Join`, with 500 on its error, and no response at all when it panics.
   */
  function HandleJoin(e: Engine, node: LocalNode, body: Payload): (r: JoinReply)
    ensures JoinTarget(body).None? ==> r == JoinReply(StatusBadRequest, None)
    ensures JoinTarget(body).Some? ==>
      var (nodeID, addr) := JoinTarget(body).value;
      && r.outcome == Some(Join(e, node, nodeID, addr))
      && r.status == (if r.outcome.value.err == Some(IndexOutOfRange) then NoResponse
                      else if r.outcome.value.err.Some? then StatusInternalServerError
                      else StatusOK)
  {
    match JoinTarget(body)
    case None => JoinReply(StatusBadRequest, None)
    case Some((nodeID, addr)) =>
      var o := Join(e, node, nodeID, addr);
      var status := match o.err
        case None => StatusOK
        case Some(IndexOutOfRange) => NoResponse
        case Some(_) => StatusInternalServerError;
      JoinReply(status, Some(o))
  }

  /** The handlers the route table reaches. */
  datatype Handler = KeyHandler | JoinHandler | RaftHandler

  /** `/key/{key}`: "/key/" followed by one non-empty segment without "/". */
  predicate KeyPattern(path: string) {
    |path| > 5 && path[..5] == "/key/" && Free(path[5..], "/")
  }

  /**
   * The route table: GET /key/{key} and POST /key reach the key handler,
   * POST /join the join handler, GET /raft the state handler; nothing else
   * is routed. No DELETE route is registered.
   */
  function Route(verb: string, path: string): (h: Option<Handler>)
    ensures h == Some(KeyHandler) <==> (verb == "GET" && KeyPattern(path)) || (verb == "POST" && path == "/key")
    ensures h == Some(JoinHandler) <==> verb == "POST" && path == "/join"
    ensures h == Some(RaftHandler) <==> verb == "GET" && path == "/raft"
    ensures h == Some(KeyHandler) ==> verb in {"GET", "POST"}
  {
    if verb == "GET" && KeyPattern(path) then Some(KeyHandler)
    else if verb == "POST" && path == "/key" then Some(KeyHandler)
    else if verb == "POST" && path == "/join" then Some(JoinHandler)
    else if verb == "GET" && path == "/raft" then Some(RaftHandler)
    else None
  }

  /** The DELETE branch of the key handler is unreachable through the route table. */
  lemma DeleteIsNeverRouted(path: string)
    ensures Route("DELETE", path).None?
  {
  }

  /** The literal segments of the key routes hold no "/". */
  lemma LiteralSegmentsAreFree()
    ensures Free("", "/") && Free("key", "/") && Free("%2F", "/")
  {
    forall i: nat | i <= 3
      ensures !OccursAt("key", "/", i) && !OccursAt("%2F", "/", i)
    {
      if i < 3 {
        assert "key"[i..i + 1][0] == "key"[i];
        assert "%2F"[i..i + 1][0] == "%2F"[i];
      }
    }
  }

  /**
   * A GET the route table sends to the key handler, when the path it routes
   * on is the path the handler reads, has a key, which is the path's last
   * segment. Here one string stands for both; `EscapedSlashReachesBadRequest`
   * covers a request whose two paths differ.
   */
  lemma RoutedGetHasKey(st: Store, path: string)
    requires Route("GET", path) == Some(KeyHandler)
    ensures GetKey(path) == path[5..] && GetKey(path) != ""
    ensures HandleGet(st, path).status == StatusOK
  {
    var seg := path[5..];
    assert path == "" + "/" + "key" + "/" + seg;
    LiteralSegmentsAreFree();
    GetKeyOfSegments("", "key", seg);
  }

  /**
   * The router matches the raw, still escaped path, while the handler splits
   * the decoded one: "/key/a%2Fb" is routed to the key handler, whose path
   * then reads "/key/a/b", four segments, so the GET answers 400.
   */
  lemma EscapedSlashReachesBadRequest(st: Store, a: string, b: string)
    requires Free(a, "/") && Free(b, "/")
    ensures Route("GET", "/key/" + a + "%2F" + b) == Some(KeyHandler)
    ensures HandleGet(st, "/key/" + a + "/" + b).status == StatusBadRequest
  {
    LiteralSegmentsAreFree();
    var raw := "/key/" + a + "%2F" + b;
    assert raw[..5] == "/key/" && raw[5..] == a + "%2F" + b;
    FreeConcat(a, "%2F", "/");
    FreeConcat(a + "%2F", b, "/");
    assert "/key/" + a + "/" + b == "" + "/" + "key" + "/" + a + "/" + b;
    GetKeyOfFourSegments("", "key", a, b);
  }

  /** A path of four slash-free segments yields no key. */
  lemma GetKeyOfFourSegments(w: string, x: string, y: string, z: string)
    requires Free(w, "/") && Free(x, "/") && Free(y, "/") && Free(z, "/")
    ensures GetKey(w + "/" + x + "/" + y + "/" + z) == ""
  {
    var path := w + "/" + x + "/" + y + "/" + z;
    assert path == w + "/" + (x + "/" + (y + "/" + z));
    SplitSingleChar(w, "/", x + "/" + (y + "/" + z));
    SplitSingleChar(x, "/", y + "/" + z);
    SplitSingleChar(y, "/", z);
    SplitFree(z, "/");
    assert |Split(path, "/")| == 4;
  }
}
