/**
 * The state publisher: on every engine role change the HTTP service derives
 * a small `{State, NodeAddr}` record from the observation and writes it, as
 * JSON, to a shared file that an external router reads. The file write is
 * left out; the record and its JSON document are modelled.
 */
module Publisher {
  import opened Wrappers
  import opened Strings
  import opened Codec
  import opened Raft

  /** The shared record: the role's name and an address. */
  datatype StateRecord = StateRecord(state: string, nodeAddr: string)

  /** `json.Marshal` of the record's anonymous struct: both fields, always, even when empty. */
  function EncodeRecord(r: StateRecord): (p: Payload)
    ensures p.Object? && |p.members| == 2
    ensures DecodeMap(p) == Success(map["State" := r.state, "NodeAddr" := r.nodeAddr])
  {
    var ms := [("State", r.state), ("NodeAddr", r.nodeAddr)];
    assert ms[..1][..0] == [];
    assert MembersToMap(ms[..1]) == map["State" := r.state];
    Object(ms)
  }

  const AtSep := "at "

  /**
   * `a` is the address found in `rest`, the text after the first "at ": a
   * space-free prefix of `rest` inside which no "at " starts, ending where
   * `rest` ends, at a space, or where the next "at " starts.
   */
  ghost predicate AddressIn(rest: string, a: string) {
    && |a| <= |rest| && rest[..|a|] == a
    && Free(a, " ")
    && (forall k: nat :: k < |a| ==> !OccursAt(rest, AtSep, k))
    && (|a| == |rest| || rest[|a|] == ' ' || OccursAt(rest, AtSep, |a|))
  }

  /** At most one string is the address found in a given text. */
  lemma AddressInIsUnique(rest: string, a: string, b: string)
    requires AddressIn(rest, a) && AddressIn(rest, b)
    ensures a == b
  {
    if |a| < |b| {
      LongerPrefixHasSpace(rest, a, b);
    } else if |b| < |a| {
      LongerPrefixHasSpace(rest, b, a);
    }
    assert a == rest[..|a|];
  }

  /**
   * A prefix of `rest` longer than the address found there, with no "at "
   * starting inside it, runs into the space that ended the address.
   */
  lemma LongerPrefixHasSpace(rest: string, a: string, p: string)
    requires AddressIn(rest, a)
    requires |a| < |p| <= |rest| && rest[..|p|] == p
    requires forall k: nat :: k < |p| ==> !OccursAt(rest, AtSep, k)
    ensures OccursAt(p, " ", |a|)
  {
    var n := |a|;
    assert rest[n] == ' ';
    assert p[n..n + 1][0] == rest[..|p|][n];
  }

  /** The first space-delimited token of the text before the first "at " is the address found there. */
  lemma FirstTokenIsAddressIn(rest: string)
    ensures AddressIn(rest, Split(Split(rest, AtSep)[0], " ")[0])
  {
    SplitHead(rest, AtSep);
    var p := Split(rest, AtSep)[0];
    SplitHead(p, " ");
    var a := Split(p, " ")[0];
    var j := if Index(rest, AtSep).Some? then Index(rest, AtSep).value else |rest|;
    assert p == rest[..j];
    if Index(p, " ").Some? {
      var m := Index(p, " ").value;
      assert a == p[..m];
      assert p[m..m + 1] == " ";
      assert rest[m] == p[m] == p[m..m + 1][0];
    }
  }

  /**
   * The address the observer publishes: split the engine's self-description
   * at "at ", and if there is a second piece keep its text before the first
   * space; "" when "at " does not occur. Otherwise the result is the address
   * found in the text that follows the first "at ".
   */
  function NodeAddress(text: string): (addr: string)
    ensures Free(text, AtSep) ==> addr == ""
    ensures Free(addr, " ")
    ensures Index(text, AtSep).Some? ==> AddressIn(text[Index(text, AtSep).value + |AtSep|..], addr)
  {
    var parts := Split(text, AtSep);
    if |parts| > 1 then
      var i := Index(text, AtSep).value;
      var rest := text[i + |AtSep|..];
      assert parts[1] == Split(rest, AtSep)[0];
      FirstTokenIsAddressIn(rest);
      SplitHead(parts[1], " ");
      Split(parts[1], " ")[0]
    else ""
  }

  /** `s` ends with the two letters "at". */
  predicate EndsWithAt(s: string) {
    |s| >= 2 && s[|s| - 2..] == "at"
  }

  /** In "Node at ..." the first "at " is the one after "Node ". */
  lemma FirstAtOfNodeText(b: string)
    ensures Index("Node at " + b, AtSep) == Some(5)
  {
    var text := "Node at " + b;
    assert text[5..8] == AtSep;
    assert OccursAt(text, AtSep, 5);
    forall k: nat | k < 5
      ensures !OccursAt(text, AtSep, k)
    {
      assert text[k] == "Node "[k];
      assert text[k] != 'a';
      assert text[k..k + 3][0] == text[k];
    }
  }

  /** No "at " starts inside a space-free address that does not end in "at", whatever follows a space. */
  lemma NoAtInsideAddress(addr: string, tail: string)
    requires Free(addr, " ") && !EndsWithAt(addr)
    requires tail == "" || tail[0] == ' '
    ensures forall k: nat :: k < |addr| ==> !OccursAt(addr + tail, AtSep, k)
  {
    var b := addr + tail;
    forall k: nat | k < |addr| && OccursAt(b, AtSep, k)
      ensures false
    {
      assert b[k..k + 3] == AtSep;
      assert b[k] == 'a' && b[k + 1] == 't' && b[k + 2] == ' ' by {
        assert b[k..k + 3][0] == b[k] && b[k..k + 3][1] == b[k + 1] && b[k..k + 3][2] == b[k + 2];
      }
      if k + 2 < |addr| {
        assert addr[k + 2..k + 3] == b[k + 2..k + 3] == " ";
        assert OccursAt(addr, " ", k + 2);
      }
    }
  }

  /** A piece that is `addr` followed by nothing or by a space has `addr` as its first space-delimited token. */
  lemma FirstTokenIsAddress(addr: string, piece: string)
    requires Free(addr, " ")
    requires |piece| >= |addr| && piece[..|addr|] == addr
    requires |piece| == |addr| || piece[|addr|] == ' '
    ensures Split(piece, " ")[0] == addr
  {
    if |piece| == |addr| {
      assert piece == addr;
      SplitFree(addr, " ");
    } else {
      assert piece == addr + " " + piece[|addr| + 1..];
      SplitSingleChar(addr, " ", piece[|addr| + 1..]);
    }
  }

  /**
   * For the engine's usual self-description, "Node at <address> ...", the
   * published address is exactly <address>, provided the address holds no
   * space and does not itself end in "at" (a trailing "at" followed by the
   * space would start a second "at " separator).
   */
  lemma NodeAddressOfNodeText(addr: string, tail: string)
    requires Free(addr, " ") && !EndsWithAt(addr)
    requires tail == "" || tail[0] == ' '
    ensures NodeAddress("Node at " + addr + tail) == addr
  {
    var b := addr + tail;
    var text := "Node at " + b;
    assert text == "Node at " + addr + tail;
    FirstAtOfNodeText(b);
    assert text[5 + 3..] == b;
    assert Split(text, AtSep)[1] == Split(b, AtSep)[0];
    NoAtInsideAddress(addr, tail);
    SplitHead(b, AtSep);
    var piece := Split(b, AtSep)[0];
    assert |piece| >= |addr| && piece[..|addr|] == addr;
    assert |piece| > |addr| ==> piece[|addr|] == tail[0];
    FirstTokenIsAddress(addr, piece);
  }

  /** After "Node at ", the address is the first token of the text up to the next "at ". */
  lemma NodeAddressAfterNodeAt(b: string)
    ensures NodeAddress("Node at " + b) == Split(Split(b, AtSep)[0], " ")[0]
  {
    var text := "Node at " + b;
    FirstAtOfNodeText(b);
    assert text[5 + 3..] == b;
    assert Split(text, AtSep)[1] == Split(b, AtSep)[0];
  }

  /**
   * The extraction splits at every "at ", not only the first: a host whose
   * name runs straight into "at " (for the host "bo", the self-description
   * "Node at boat [Leader]") publishes the host alone, not the whole token.
   */
  lemma NodeAddressStopsAtSecondAt(host: string, tail: string)
    requires Free(host, " ")
    ensures NodeAddress("Node at " + host + AtSep + tail) == host
  {
    var b := host + AtSep + tail;
    var text := "Node at " + b;
    assert text == "Node at " + host + AtSep + tail;
    FirstAtOfNodeText(b);
    assert text[5 + 3..] == b;
    var n := |host|;
    assert b[..n] == host;
    assert b[n..n + 3] == AtSep;
    assert b[n] == 'a' && b[n + 1] == 't';
    forall k: nat | k < n && OccursAt(b, AtSep, k)
      ensures false
    {
      assert b[k + 2] == b[k..k + 3][2] == ' ';
      if k + 2 < n {
        assert host[k + 2..k + 3] == b[k + 2..k + 3];
        assert OccursAt(host, " ", k + 2);
      }
    }
    assert AddressIn(b, host);
    AddressInIsUnique(b, host, NodeAddress(text));
  }

  /** What the engine's observer delivers: a role change, or any other kind of observation. */
  datatype ObservationData = RoleChange(role: RaftState) | OtherObservation(kind: string)

  /** One observation: the engine's self-description and the observed data. */
  datatype Observation = Observation(raftText: string, data: ObservationData)

  /**
   * The observer loop's body: role changes pass the filter and become a
   * record (role name, extracted address); every other observation is
   * filtered out before it reaches the loop. The published address is ""
   * without an "at ", and otherwise the one address found after the first
   * "at " (unique by `AddressInIsUnique`).
   */
  function Publish(o: Observation): (r: Option<StateRecord>)
    ensures r.Some? <==> o.data.RoleChange?
    ensures r.Some? ==> r.value.state == o.data.role.Name()
    ensures r.Some? ==> Free(r.value.nodeAddr, " ")
    ensures r.Some? && Free(o.raftText, AtSep) ==> r.value.nodeAddr == ""
    ensures r.Some? && Index(o.raftText, AtSep).Some? ==>
      AddressIn(o.raftText[Index(o.raftText, AtSep).value + |AtSep|..], r.value.nodeAddr)
  {
    match o.data
    case RoleChange(role) => Some(StateRecord(role.Name(), NodeAddress(o.raftText)))
    case OtherObservation(_) => None
  }

  /** A role change described as "Node at <address> [<role>]" publishes exactly that role and address. */
  lemma PublishNodeText(addr: string, role: RaftState)
    requires Free(addr, " ") && !EndsWithAt(addr)
    ensures
      var text := "Node at " + addr + " [" + role.Name() + "]";
      Publish(Observation(text, RoleChange(role))) == Some(StateRecord(role.Name(), addr))
  {
    var tail := " [" + role.Name() + "]";
    NodeAddressOfNodeText(addr, tail);
    assert "Node at " + addr + " [" + role.Name() + "]" == "Node at " + addr + tail;
  }
}
