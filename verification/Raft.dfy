/**
 * The consensus engine, reduced to what the core reads from it and asks of
 * it: the node's role, the cluster configuration, and the membership
 * primitives `GetConfiguration`, `RemoveServer` and `AddNonvoter`. The
 * engine's own algorithm is not modelled; its failures are inputs.
 */
module Raft {
  import opened Wrappers

  /** The node's role in the consensus protocol. */
  datatype RaftState = Follower | Candidate | Leader | Shutdown {

    /** The engine's `String()` spelling of the role. */
    function Name(): string {
      match this
      case Follower => "Follower"
      case Candidate => "Candidate"
      case Leader => "Leader"
      case Shutdown => "Shutdown"
    }
  }

  /** Whether a member counts towards quorum; Go's zero value is `Voter`. */
  datatype Suffrage = Voter | Nonvoter

  datatype Server = Server(id: string, address: string, suffrage: Suffrage)

  /** The cluster members, in the engine's order. */
  type Configuration = seq<Server>

  /** The engine's own invariant: no two members share an ID or an address. */
  predicate Distinct(c: Configuration) {
    forall i, j :: 0 <= i < j < |c| ==> c[i].id != c[j].id && c[i].address != c[j].address
  }

  /** A member may be prepended to a distinct configuration that shares neither its ID nor its address. */
  lemma DistinctCons(s: Server, c: Configuration)
    requires Distinct(c)
    requires forall t :: t in c ==> t.id != s.id && t.address != s.address
    ensures Distinct([s] + c)
  {
    var d := [s] + c;
    forall i, j | 0 <= i < j < |d|
      ensures d[i].id != d[j].id && d[i].address != d[j].address
    {
      if i == 0 {
        assert d[j] in c;
      } else {
        assert d[i] == c[i - 1] && d[j] == c[j - 1];
      }
    }
  }

  /**
   * The engine's view of one node at one moment: its role, its configuration,
   * and how it will answer the membership requests (the injected failures).
   */
  datatype Engine = Engine(
    state: RaftState,
    config: Configuration,
    fetchError: Option<string>,
    removeErrors: map<string, string>,
    addError: Option<string>)

  /** The configuration without the members whose ID is `id`, order kept. */
  function WithoutId(c: Configuration, id: string): (r: Configuration)
    ensures forall s :: s in r <==> s in c && s.id != id
    ensures |r| <= |c|
  {
    if c == [] then []
    else (if c[0].id == id then [] else [c[0]]) + WithoutId(c[1..], id)
  }

  /** Removing members keeps a configuration free of duplicate IDs and addresses. */
  lemma {:induction false} WithoutIdKeepsDistinct(c: Configuration, id: string)
    requires Distinct(c)
    ensures Distinct(WithoutId(c, id))
  {
    if c != [] {
      assert Distinct(c[1..]) by {
        forall i, j | 0 <= i < j < |c[1..]|
          ensures c[1..][i].id != c[1..][j].id && c[1..][i].address != c[1..][j].address
        {
          assert c[1..][i] == c[i + 1] && c[1..][j] == c[j + 1];
        }
      }
      WithoutIdKeepsDistinct(c[1..], id);
      if c[0].id != id {
        forall t | t in WithoutId(c[1..], id)
          ensures t.id != c[0].id && t.address != c[0].address
        {
          var k :| 0 <= k < |c[1..]| && c[1..][k] == t;
          assert c[k + 1] == t;
        }
        DistinctCons(c[0], WithoutId(c[1..], id));
      }
    }
  }

  /** `GetConfiguration().Configuration()`, or the future's error. */
  function GetConfiguration(e: Engine): (r: Result<Configuration, string>)
    ensures r.Failure? <==> e.fetchError.Some?
    ensures r.Success? ==> r.value == e.config
  {
    match e.fetchError
    case Some(err) => Failure(err)
    case None => Success(e.config)
  }

  /** `RemoveServer(id, 0, 0)`: drops the member with that ID, or fails with the engine's error. */
  function RemoveServer(e: Engine, id: string): (r: Result<Engine, string>)
    ensures r.Failure? <==> id in e.removeErrors
    ensures r.Success? ==> r.value == e.(config := WithoutId(e.config, id))
  {
    if id in e.removeErrors then Failure(e.removeErrors[id])
    else Success(e.(config := WithoutId(e.config, id)))
  }

  /** `AddNonvoter(id, address, 0, 0)`: appends a non-voting member, or fails with the engine's error. */
  function AddNonvoter(e: Engine, id: string, address: string): (r: Result<Engine, string>)
    ensures r.Failure? <==> e.addError.Some?
    ensures r.Success? ==> r.value == e.(config := e.config + [Server(id, address, Nonvoter)])
  {
    match e.addError
    case Some(err) => Failure(err)
    case None => Success(e.(config := e.config + [Server(id, address, Nonvoter)]))
  }
}
