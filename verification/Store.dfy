/**
 * The replicated key-value state machine (package `store`): a map from keys
 * to values plus the index and term of the last applied log entry. The
 * engine drives it through `FsmApply`, `FsmSnapshot` and `FsmRestore`; the
 * HTTP gateway reads it through `Get`.
 */
module Store {
  import opened Wrappers
  import opened Codec

  const Uint64Limit := 0x1_0000_0000_0000_0000

  /** Go's `uint64`, the type of log indexes and terms. */
  type uint64 = x: int | 0 <= x < Uint64Limit

  datatype Store = Store(inmem: bool, m: map<string, string>, index: uint64, term: uint64)

  /** A committed entry of the replicated log, as the engine hands it to the state machine. */
  datatype LogEntry = LogEntry(index: uint64, term: uint64, data: Payload)

  /** `a` and `b` hold the same bindings for every key other than `key`. */
  ghost predicate AgreeExcept(a: map<string, string>, b: map<string, string>, key: string) {
    forall k :: k != key ==> (k in a <==> k in b) && (k in a ==> a[k] == b[k])
  }

  /** `NewStore`: an empty map; index and term start at zero. */
  function NewStore(inmem: bool): (st: Store)
    ensures st.m == map[] && st.index == 0 && st.term == 0
    ensures st.inmem == inmem
  {
    Store(inmem, map[], 0, 0)
  }

  /** `Get`: the stored value, Go's zero value "" for a missing key, and never an error. */
  function Get(st: Store, key: string): (r: Result<string, string>)
    ensures r.Success?
    ensures key in st.m ==> r.value == st.m[key]
    ensures key !in st.m ==> r.value == ""
  {
    Success(if key in st.m then st.m[key] else "")
  }

  /** `applySet`: binds `key` to `value`; every other binding stays. */
  function ApplySet(m: map<string, string>, key: string, value: string): (r: map<string, string>)
    ensures key in r && r[key] == value
    ensures AgreeExcept(r, m, key)
    ensures r.Keys == m.Keys + {key}
  {
    m[key := value]
  }

  /** `applyDelete`: drops `key` if bound (nothing happens otherwise); every other binding stays. */
  function ApplyDelete(m: map<string, string>, key: string): (r: map<string, string>)
    ensures key !in r
    ensures AgreeExcept(r, m, key)
    ensures r.Keys == m.Keys - {key}
  {
    m - {key}
  }

  /** The command a log entry carries; an undecodable entry yields the zero command. */
  function CommandOf(data: Payload): (c: Command)
    ensures data.Malformed? ==> c == ZeroCommand
  {
    DecodeCommand(data).GetOr(ZeroCommand)
  }

  /**
   * `FsmApply`: records the entry's index and term whatever it holds, then
   * dispatches on the command's op; an unknown op, including the empty op of
   * an undecodable entry, leaves the map as it is.
   */
  function FsmApply(st: Store, l: LogEntry): (r: Store)
    ensures r.index == l.index && r.term == l.term && r.inmem == st.inmem
    ensures CommandOf(l.data).op == OpSet ==>
      var c := CommandOf(l.data);
      c.key in r.m && r.m[c.key] == c.value && AgreeExcept(r.m, st.m, c.key)
    ensures CommandOf(l.data).op == OpDelete ==>
      var c := CommandOf(l.data);
      c.key !in r.m && AgreeExcept(r.m, st.m, c.key)
    ensures CommandOf(l.data).op !in {OpSet, OpDelete} ==> r.m == st.m
    ensures l.data.Malformed? ==> r.m == st.m
  {
    var c := CommandOf(l.data);
    var recorded := st.(index := l.index, term := l.term);
    if c.op == OpSet then recorded.(m := ApplySet(st.m, c.key, c.value))
    else if c.op == OpDelete then recorded.(m := ApplyDelete(st.m, c.key))
    else recorded
  }

  /** Applies the committed entries in log order, as the engine does. */
  function ApplyAll(st: Store, es: seq<LogEntry>): (r: Store)
    ensures es == [] ==> r == st
    ensures es != [] ==> r.index == es[|es| - 1].index && r.term == es[|es| - 1].term
    ensures r.inmem == st.inmem
  {
    if es == [] then st else FsmApply(ApplyAll(st, es[..|es| - 1]), es[|es| - 1])
  }

  /** The binding of `k` in `m`, if any. */
  function Lookup(m: map<string, string>, k: string): Option<string> {
    if k in m then Some(m[k]) else None
  }

  /**
   * Reference reading of a log: the effect of the LAST entry that sets or
   * deletes `k` (`Some(Some(v))` for a set, `Some(None)` for a delete), or
   * `None` when no entry touches `k`.
   */
  function LastEffect(es: seq<LogEntry>, k: string): Option<Option<string>> {
    if es == [] then None
    else
      var c := CommandOf(es[|es| - 1].data);
      if c.key == k && c.op == OpSet then Some(Some(c.value))
      else if c.key == k && c.op == OpDelete then Some(None)
      else LastEffect(es[..|es| - 1], k)
  }

  /** After a log is applied, every key holds what the last entry touching it left, or its old binding. */
  lemma {:induction false} ApplyAllFollowsLastEffect(st: Store, es: seq<LogEntry>, k: string)
    ensures Lookup(ApplyAll(st, es).m, k) ==
      match LastEffect(es, k)
      case None => Lookup(st.m, k)
      case Some(v) => v
  {
    if es != [] {
      ApplyAllFollowsLastEffect(st, es[..|es| - 1], k);
    }
  }

  /** Determinism: two replicas holding the same map end with the same map after the same log. */
  lemma {:induction false} ApplyAllIsDeterministic(s1: Store, s2: Store, es: seq<LogEntry>)
    requires s1.m == s2.m
    ensures ApplyAll(s1, es).m == ApplyAll(s2, es).m
    ensures es != [] ==> ApplyAll(s1, es) == ApplyAll(s2, es).(inmem := s1.inmem)
  {
    if es != [] {
      ApplyAllIsDeterministic(s1, s2, es[..|es| - 1]);
    }
  }

  /** A point-in-time copy of the map, owned by the persistence routine. */
  datatype Snapshot = Snapshot(store: map<string, string>)

  /** `FsmSnapshot`: a deep copy of the map as of the last applied entry. */
  function FsmSnapshot(st: Store): (s: Snapshot)
    ensures s.store == st.m
  {
    Snapshot(st.m)
  }

  /** How the engine's snapshot sink will answer `Write` and `Close`. */
  datatype Sink = Sink(writeError: Option<string>, closeError: Option<string>)

  /** What `Persist` did to the sink: the document written, and whether it closed or cancelled it. */
  datatype SinkLog = SinkLog(written: Option<Payload>, closed: bool, cancelled: bool)

  /**
   * `fsmSnapshot.Persist`: encodes the copy, writes it and closes the sink;
   * on a write or close error it cancels the sink and returns that error.
   */
  method Persist(snap: Snapshot, sink: Sink) returns (err: Option<string>, log: SinkLog)
    ensures err.None? <==> sink.writeError.None? && sink.closeError.None?
    ensures log.cancelled <==> err.Some?
    ensures sink.writeError.Some? ==> err == sink.writeError && log.written.None? && !log.closed
    ensures sink.writeError.None? ==> log.written.Some? && log.closed
    ensures sink.writeError.None? ==> err == sink.closeError
    ensures log.written.Some? ==> DecodeMap(log.written.value) == Success(snap.store)
  {
    var b := EncodeMap(snap.store);
    match sink.writeError {
      case Some(e) =>
        err := Some(e);
        log := SinkLog(None, false, true);
      case None =>
        err := sink.closeError;
        log := SinkLog(Some(b), true, sink.closeError.Some?);
    }
  }

  /** What `FsmRestore` leaves behind: the store and the error it returned, if any. */
  datatype Restored = Restored(store: Store, err: Option<string>)

  /**
   * `FsmRestore`: replaces the whole map by the decoded document (no merge
   * with the old map; index and term are not touched), or returns the decode
   * error with the store unchanged.
   */
  function FsmRestore(st: Store, data: Payload): (r: Restored)
    ensures r.err.Some? <==> data.Malformed?
    ensures r.err.Some? ==> r.store == st
    ensures r.err.None? ==>
      && r.store.inmem == st.inmem && r.store.index == st.index && r.store.term == st.term
      && r.store.m.Keys == Names(data.members)
      && forall k :: k in r.store.m ==> r.store.m[k] == LastValue(data.members, k, "")
  {
    match DecodeMap(data)
    case Failure(e) => Restored(st, Some(e))
    case Success(o) =>
      forall k | k in o
        ensures o[k] == LastValue(data.members, k, "")
      {
        MembersToMapReadsLastMember(data.members, k);
      }
      Restored(st.(m := o), None)
  }

  /**
   * Snapshot round trip: restoring the document `Persist` wrote for a
   * snapshot of `st` into any store, even one that applied more entries
   * since, reproduces exactly the snapshotted map, so `Get` answers as `st` did.
   */
  lemma RestoreReproducesSnapshot(st: Store, target: Store, written: Payload)
    requires DecodeMap(written) == Success(FsmSnapshot(st).store)
    ensures FsmRestore(target, written).err.None?
    ensures FsmRestore(target, written).store.m == st.m
    ensures forall k :: Get(FsmRestore(target, written).store, k) == Get(st, k)
  {
  }
}
