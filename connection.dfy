/** A connection of src/objects/connection.cpp: an id (also the public word
    of its payloads), a key and a list of 16-bit recipient node ids. The id
    and the key never change after construction; the recipient list is
    appended to and erased from in place. */
module Connections {
  import opened Bytes
  import opened Foreign
  import opened Encryption
  import opened Payloads
  import opened Vectors

  /** The text `prepareMessage` sends: the encoded payload whose public word
      is the connection id, whose epoch is the wall clock in seconds
      truncated to `uint32_t` and whose content is the message; "" when
      compression fails (and the empty ciphertext when encryption fails). */
  function Prepared(libs: Libs, id: Bytes, key: Bytes, toUint: PayloadType -> u32,
                    ptype: PayloadType, now: int, message: Bytes): Bytes
  {
    var c := Compressed(libs.smaz, Record(Payload(id, ToU32(now), message, ptype), toUint));
    if c == [] then [] else EncryptSpec(libs.aes, libs.b64, key, c)
  }

  /** The text `processMessage` returns: the content of the decoded
      payload, "" when decoding fails. */
  function Processed(libs: Libs, key: Bytes, toPayloadType: byte -> PayloadType, message: Bytes): Bytes
    requires libs.aes.Valid()
  {
    match DecodeSpec(libs, message, key, toPayloadType)
    case None => []
    case Some(p) => p.content
  }

  /** A prepared message is processed back into the message by a
      connection with the same key, whatever its type and epoch. */
  lemma ProcessPrepared(libs: Libs, id: Bytes, key: Bytes, toUint: PayloadType -> u32,
                        toPayloadType: byte -> PayloadType, ptype: PayloadType, now: int, message: Bytes)
    requires libs.Valid()
    requires PIPE !in id
    requires |Record(Payload(id, ToU32(now), message, ptype), toUint)| < U32_MAX
    requires Prepared(libs, id, key, toUint, ptype, now, message) != []
    ensures Processed(libs, key, toPayloadType, Prepared(libs, id, key, toUint, ptype, now, message)) == message
  {
    DecodeEncode(libs, Payload(id, ToU32(now), message, ptype), toUint, toPayloadType, key);
  }

  class Connection {
    const connectionID: Bytes
    const key: Bytes
    var recipients: seq<u16>

    /** `getID`. */
    function GetID(): Bytes {
      connectionID
    }

    /** `getKey`. */
    function GetKey(): Bytes {
      key
    }

    /** `getRecipients`: a copy of the list. */
    function GetRecipients(): seq<u16>
      reads this
    {
      recipients
    }

    /** Stores the id, the key and a copy of the recipient list. */
    constructor(id: Bytes, key: Bytes, recipients: seq<u16>)
      ensures GetID() == id && GetKey() == key && GetRecipients() == recipients
    {
      this.connectionID := id;
      this.key := key;
      this.recipients := recipients;
    }

    /** `prepareMessage`: encode a payload built from the connection id, the
        clock `now` (seconds since the epoch) and the message. The payload's
        type is not set by the source, so it is a parameter here. */
    method PrepareMessage(libs: Libs, toUint: PayloadType -> u32, ptype: PayloadType, now: int, message: Bytes)
      returns (r: Bytes)
      ensures r == Prepared(libs, connectionID, key, toUint, ptype, now, message)
    {
      var p := Payload(connectionID, ToU32(now), message, ptype);
      var ok, encoded := Encode(libs, p, toUint, key, []);
      if !ok {
        return [];
      }
      r := encoded;
    }

    /** `processMessage`: decode into a fresh payload and return its
        content, "" on failure. */
    method ProcessMessage(libs: Libs, toPayloadType: byte -> PayloadType, message: Bytes) returns (r: Bytes)
      requires libs.aes.Valid()
      ensures r == Processed(libs, key, toPayloadType, message)
    {
      var blank := Payload([], 0, [], toPayloadType(0));
      var ok, p := Decode(libs, message, key, toPayloadType, blank);
      if !ok {
        return [];
      }
      r := p.content;
    }

    /** `addRecipient`: append, duplicates allowed. */
    method AddRecipient(recipientID: u16)
      modifies this
      ensures recipients == old(recipients) + [recipientID]
    {
      recipients := recipients + [recipientID];
    }

    /** `removeRecipient`: erase-remove of every occurrence. */
    method RemoveRecipient(recipientID: u16)
      modifies this
      ensures recipients == Erase(old(recipients), recipientID)
    {
      var rs := recipients;
      var kept: seq<u16> := [];
      var i := 0;
      while i < |rs|
        invariant 0 <= i <= |rs|
        invariant kept == Erase(rs[..i], recipientID)
      {
        EraseAppend(rs[..i], [rs[i]], recipientID);
        assert [rs[i]][1..] == [];
        assert rs[..i + 1] == rs[..i] + [rs[i]];
        if rs[i] != recipientID {
          kept := kept + [rs[i]];
        }
        i := i + 1;
      }
      assert rs[..i] == rs;
      recipients := kept;
    }
  }
}
