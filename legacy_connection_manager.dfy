/** The older connection registry of src/connection_manager.cpp: connections
    in creation order with distinct ids, message preparation through the
    connection's reversal "cipher", and a printable listing. */
module LegacyRegistry {
  import opened LegacyConnections
  import opened Vectors

  /** The ids of a list of connections, in order. */
  function Ids(cs: seq<Connection>): (ids: seq<string>)
    ensures |ids| == |cs|
    ensures forall i :: 0 <= i < |cs| ==> ids[i] == cs[i].connectionID
  {
    seq(|cs|, i requires 0 <= i < |cs| => cs[i].connectionID)
  }

  predicate DistinctIds(cs: seq<Connection>) {
    forall i, j :: 0 <= i < j < |cs| ==> cs[i].connectionID != cs[j].connectionID
  }

  /** The connection `getConnection` finds: the first whose id matches,
      null when none does. */
  function Lookup(cs: seq<Connection>, id: string): (c: Connection?)
    ensures c == null <==> id !in Ids(cs)
    ensures c != null ==> c in cs && c.connectionID == id
  {
    var i := FirstIndex(Ids(cs), id);
    if i < |cs| then cs[i] else null
  }

  /** What `prepareMessage` and `processIncoming` return: the message as it
      is for an unknown id, otherwise the connection's `encrypt` (or
      `decrypt`, which is the same) of it. */
  function Forwarded(cs: seq<Connection>, id: string, message: string): string {
    var c := Lookup(cs, id);
    if c == null then message else Scrambled(c.key, message)
  }

  /** Processing what was prepared for the same id gives the message back. */
  lemma ProcessPrepared(cs: seq<Connection>, id: string, message: string)
    ensures Forwarded(cs, id, Forwarded(cs, id, message)) == message
  {
    var c := Lookup(cs, id);
    if c != null {
      ScrambledInvolution(c.key, message);
    }
  }

  /** The line `listConnections` writes for one connection. */
  function Line(c: Connection): string {
    c.connectionID + " (Key: " + (if |c.key| > 0 then "set" else "not set") + ")\n"
  }

  /** The lines of a list of connections, in order. */
  function Lines(cs: seq<Connection>): string {
    if cs == [] then "" else Lines(cs[..|cs| - 1]) + Line(cs[|cs| - 1])
  }

  /** The listing is made of one line per connection, whatever way the list
      is cut in two. */
  lemma {:induction false} LinesAppend(a: seq<Connection>, b: seq<Connection>)
    ensures Lines(a + b) == Lines(a) + Lines(b)
    decreases |b|
  {
    if b == [] {
      assert a + b == a;
    } else {
      var b' := b[..|b| - 1];
      assert (a + b)[..|a + b| - 1] == a + b';
      assert (a + b)[|a + b| - 1] == b[|b| - 1];
      LinesAppend(a, b');
    }
  }

  const HEADER: string := "Connections:\n"

  class ConnectionManager {
    var connections: seq<Connection>

    /** Connection ids are pairwise distinct. */
    ghost predicate Valid()
      reads this
    {
      DistinctIds(connections)
    }

    constructor()
      ensures Valid() && connections == []
    {
      connections := [];
    }

    /** `getConnection`: a linear search that returns at the first match. */
    method GetConnection(id: string) returns (c: Connection?)
      ensures c == Lookup(connections, id)
    {
      var i := 0;
      while i < |connections|
        invariant 0 <= i <= |connections|
        invariant forall j :: 0 <= j < i ==> connections[j].connectionID != id
      {
        if connections[i].connectionID == id {
          assert Ids(connections)[i] == id;
          return connections[i];
        }
        i := i + 1;
      }
      c := null;
    }

    /** `createConnection`: refuse an id already present, otherwise append
        a new connection. */
    method CreateConnection(id: string, key: string) returns (ok: bool)
      requires Valid()
      modifies this
      ensures Valid()
      ensures ok <==> id !in Ids(old(connections))
      ensures !ok ==> connections == old(connections)
      ensures ok ==> && |connections| == |old(connections)| + 1
                     && connections[..|old(connections)|] == old(connections)
                     && fresh(connections[|old(connections)|])
                     && connections[|old(connections)|].GetID() == id
                     && connections[|old(connections)|].GetKey() == key
    {
      var existing := GetConnection(id);
      if existing != null {
        return false;
      }
      var conn := new Connection(id, key);
      forall k | 0 <= k < |connections| ensures connections[k].connectionID != id {
        assert Ids(connections)[k] == connections[k].connectionID;
      }
      connections := connections + [conn];
      ok := true;
    }

    /** `prepareMessage`. */
    method PrepareMessage(id: string, message: string) returns (r: string)
      ensures r == Forwarded(connections, id, message)
    {
      var conn := GetConnection(id);
      if conn == null {
        return message;
      }
      r := conn.Encrypt(message);
    }

    /** `processIncoming`. */
    method ProcessIncoming(id: string, encryptedMessage: string) returns (r: string)
      ensures r == Forwarded(connections, id, encryptedMessage)
    {
      var conn := GetConnection(id);
      if conn == null {
        return encryptedMessage;
      }
      r := conn.Decrypt(encryptedMessage);
    }

    /** `listConnections`: the header, then one line per connection. */
    method ListConnections() returns (list: string)
      ensures list == HEADER + Lines(connections)
    {
      list := HEADER;
      var i := 0;
      while i < |connections|
        invariant 0 <= i <= |connections|
        invariant list == HEADER + Lines(connections[..i])
      {
        var conn := connections[i];
        assert connections[..i + 1][..i] == connections[..i];
        list := list + (conn.GetID() + " (Key: " + (if |conn.GetKey()| > 0 then "set" else "not set") + ")\n");
        i := i + 1;
      }
      assert connections[..i] == connections;
    }
  }
}
