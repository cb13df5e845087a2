/**
 * The JSON documents the system exchanges, at the level of detail the core
 * relies on: the mutation command stored in the replicated log, the
 * key-to-value object used for snapshots, POST bodies and join bodies.
 *
 * Bytes are abstracted to a `Payload`: either an object whose members are all
 * strings (in document order, duplicates allowed) or something that does not
 * decode into the expected shape.
 */
module Codec {
  import opened Wrappers

  /** One string-valued member of a JSON object: its name and its value. */
  type Member = (string, string)

  datatype Payload = Object(members: seq<Member>) | Malformed

  /** The log entry's mutation; Go leaves a field at "" when it is absent. */
  datatype Command = Command(op: string, key: string, value: string)

  const OpSet := "set"
  const OpDelete := "delete"

  /** The command value Go's decoder leaves behind when it rejects the input. */
  const ZeroCommand := Command("", "", "")

  /** The names that occur among `ms`. */
  function Names(ms: seq<Member>): set<string> {
    set i | 0 <= i < |ms| :: ms[i].0
  }

  /**
   * Reference reading of a JSON object: the value of the LAST member named
   * `name`, or `missing` when no member has that name.
   */
  function LastValue(ms: seq<Member>, name: string, missing: string): string {
    if ms == [] then missing
    else if ms[|ms| - 1].0 == name then ms[|ms| - 1].1
    else LastValue(ms[..|ms| - 1], name, missing)
  }

  /** Reading the last member of a concatenation reads the tail, falling back to the head. */
  lemma {:induction false} LastValueAppend(a: seq<Member>, b: seq<Member>, name: string, missing: string)
    ensures LastValue(a + b, name, missing) == LastValue(b, name, LastValue(a, name, missing))
  {
    if b != [] {
      assert (a + b)[..|a + b| - 1] == a + b[..|b| - 1];
      LastValueAppend(a, b[..|b| - 1], name, missing);
    } else {
      assert a + b == a;
    }
  }

  /** The member `name` with value `v`, left out when `v` is empty (`omitempty`). */
  function OmitEmpty(name: string, v: string): seq<Member> {
    if v == "" then [] else [(name, v)]
  }

  /** Writes one decoded member into the command's field of the same name; other names are ignored. */
  function SetField(c: Command, m: Member): Command {
    if m.0 == "op" then c.(op := m.1)
    else if m.0 == "key" then c.(key := m.1)
    else if m.0 == "value" then c.(value := m.1)
    else c
  }

  /** Decodes the members in order, each overwriting what an earlier one set. */
  function FillCommand(ms: seq<Member>): Command {
    if ms == [] then ZeroCommand else SetField(FillCommand(ms[..|ms| - 1]), ms[|ms| - 1])
  }

  /** `json.Unmarshal` of a log entry's data into the command struct. */
  function DecodeCommand(p: Payload): (r: Result<Command, string>)
    ensures r.Failure? <==> p.Malformed?
  {
    match p
    case Malformed => Failure("failed to unmarshal command")
    case Object(ms) => Success(FillCommand(ms))
  }

  /** Each decoded field is the last member of its name, or "" when the document lacks it. */
  lemma {:induction false} DecodeCommandReadsLastMember(ms: seq<Member>)
    ensures FillCommand(ms) == Command(LastValue(ms, "op", ""), LastValue(ms, "key", ""), LastValue(ms, "value", ""))
  {
    if ms != [] {
      DecodeCommandReadsLastMember(ms[..|ms| - 1]);
    }
  }

  /** The `omitempty` members of a command, in field declaration order. */
  function CommandMembers(c: Command): seq<Member> {
    OmitEmpty("op", c.op) + OmitEmpty("key", c.key) + OmitEmpty("value", c.value)
  }

  /** Reading one field name back from the `omitempty` members gives that field, "" standing for an omitted one. */
  lemma {:induction false} CommandMembersField(c: Command, n: string)
    ensures LastValue(CommandMembers(c), n, "") ==
      (if n == "op" then c.op else if n == "key" then c.key else if n == "value" then c.value else "")
  {
    LastValueAppend(OmitEmpty("op", c.op) + OmitEmpty("key", c.key), OmitEmpty("value", c.value), n, "");
    LastValueAppend(OmitEmpty("op", c.op), OmitEmpty("key", c.key), n, "");
  }

  /** The `omitempty` members: at most the three field names, and never an empty value. */
  lemma CommandMembersShape(c: Command)
    ensures |CommandMembers(c)| <= 3
    ensures forall i :: 0 <= i < |CommandMembers(c)| ==> CommandMembers(c)[i].1 != ""
    ensures Names(CommandMembers(c)) <= {"op", "key", "value"}
  {
    var ms := CommandMembers(c);
    forall i | 0 <= i < |ms|
      ensures ms[i].1 != "" && ms[i].0 in {"op", "key", "value"}
    {
      var a, b := OmitEmpty("op", c.op), OmitEmpty("key", c.key);
      if i < |a| {
        assert ms[i] == a[i];
      } else if i < |a| + |b| {
        assert ms[i] == b[i - |a|];
      } else {
        assert ms[i] == OmitEmpty("value", c.value)[i - |a| - |b|];
      }
    }
  }

  /**
   * `json.Marshal` of the command struct, whose three fields are tagged
   * `omitempty`: an object with the non-empty fields in declaration order.
   */
  function EncodeCommand(c: Command): (p: Payload)
    ensures p.Object? && |p.members| <= 3
    ensures forall i :: 0 <= i < |p.members| ==> p.members[i].1 != ""
    ensures Names(p.members) <= {"op", "key", "value"}
    ensures DecodeCommand(p) == Success(c)
  {
    var ms := CommandMembers(c);
    CommandMembersShape(c);
    DecodeCommandReadsLastMember(ms);
    CommandMembersField(c, "op");
    CommandMembersField(c, "key");
    CommandMembersField(c, "value");
    Object(ms)
  }

  /** Decodes an object's members into a map; a later duplicate overwrites an earlier one. */
  function MembersToMap(ms: seq<Member>): (m: map<string, string>)
    ensures m.Keys == Names(ms)
  {
    if ms == [] then map[]
    else
      var m := MembersToMap(ms[..|ms| - 1]);
      assert Names(ms) == Names(ms[..|ms| - 1]) + {ms[|ms| - 1].0} by {
        forall n | n in Names(ms)
          ensures n in Names(ms[..|ms| - 1]) + {ms[|ms| - 1].0}
        {
          var i :| 0 <= i < |ms| && ms[i].0 == n;
          if i < |ms| - 1 {
            assert ms[..|ms| - 1][i] == ms[i];
          }
        }
      }
      m[ms[|ms| - 1].0 := ms[|ms| - 1].1]
  }

  /** The map a document decodes to holds, for each name, the last member's value. */
  lemma {:induction false} MembersToMapReadsLastMember(ms: seq<Member>, k: string)
    requires k in Names(ms)
    ensures MembersToMap(ms)[k] == LastValue(ms, k, "")
  {
    var last := ms[|ms| - 1];
    if last.0 != k {
      var i :| 0 <= i < |ms| && ms[i].0 == k;
      assert ms[..|ms| - 1][i] == ms[i];
      MembersToMapReadsLastMember(ms[..|ms| - 1], k);
    }
  }

  /** `json.Decoder.Decode` into a fresh `map[string]string`. */
  function DecodeMap(p: Payload): (r: Result<map<string, string>, string>)
    ensures r.Failure? <==> p.Malformed?
    ensures r.Success? ==> r.value.Keys == Names(p.members)
  {
    match p
    case Malformed => Failure("failed to decode map")
    case Object(ms) => Success(MembersToMap(ms))
  }

  /** No name occurs twice among `ms`. */
  predicate DistinctNames(ms: seq<Member>) {
    forall i, j :: 0 <= i < j < |ms| ==> ms[i].0 != ms[j].0
  }

  /** Adding the member for `k` moves `k` from the keys still to write to the keys written. */
  lemma EncodeMapStep(m: map<string, string>, rest: set<string>, ms: seq<Member>, k: string)
    requires k in rest && rest <= m.Keys
    requires MembersToMap(ms) == m - rest
    ensures MembersToMap(ms + [(k, m[k])]) == m - (rest - {k})
  {
    var ms' := ms + [(k, m[k])];
    assert ms'[..|ms'| - 1] == ms;
    assert MembersToMap(ms') == (m - rest)[k := m[k]];
  }

  /**
   * `json.Marshal` of a `map[string]string`: one member per key. Go writes
   * the keys sorted; the model picks them in an arbitrary order, which no
   * reader of the document depends on.
   */
  method EncodeMap(m: map<string, string>) returns (p: Payload)
    ensures p.Object? && DistinctNames(p.members) && |p.members| == |m|
    ensures Names(p.members) == m.Keys
    ensures DecodeMap(p) == Success(m)
  {
    var ms: seq<Member> := [];
    var rest := m.Keys;
    assert m - rest == map[];
    while rest != {}
      invariant rest <= m.Keys
      invariant MembersToMap(ms) == m - rest
      invariant DistinctNames(ms)
      invariant |ms| + |rest| == |m|
      decreases |rest|
    {
      var k :| k in rest;
      assert k !in Names(ms);
      EncodeMapStep(m, rest, ms, k);
      ms := ms + [(k, m[k])];
      rest := rest - {k};
    }
    assert m - rest == m;
    p := Object(ms);
  }
}
