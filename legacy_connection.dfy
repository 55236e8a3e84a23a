/** The older connection of src/connection.cpp (`std::string`s, one
    `char` of the model for each byte of the text). Its
    "encryption" reverses the text when the connection has a key and
    passes it through when it has none; decryption is the same operation. */
module LegacyConnections {

  /** The characters of `s` in reverse order. */
  function Reversed(s: string): (r: string)
    ensures |r| == |s|
    ensures forall i :: 0 <= i < |s| ==> r[i] == s[|s| - 1 - i]
  {
    if s == [] then [] else Reversed(s[1..]) + [s[0]]
  }

  /** What both `encrypt` and `decrypt` return for a connection key. */
  function Scrambled(key: string, s: string): string {
    if |key| == 0 then s else Reversed(s)
  }

  /** `decrypt` undoes `encrypt`, and `encrypt` is its own inverse, for
      every key. */
  lemma ScrambledInvolution(key: string, s: string)
    ensures Scrambled(key, Scrambled(key, s)) == s
    ensures |Scrambled(key, s)| == |s|
  {
  }

  class Connection {
    const connectionID: string
    const key: string

    /** `getID`. */
    function GetID(): string {
      connectionID
    }

    /** `getKey`. */
    function GetKey(): string {
      key
    }

    constructor(id: string, key: string)
      ensures GetID() == id && GetKey() == key
    {
      this.connectionID := id;
      this.key := key;
    }

    /** `encrypt`: the input for an empty key; otherwise a new string
        filled from the last character down to the first. */
    method Encrypt(plaintext: string) returns (cipher: string)
      ensures cipher == Scrambled(key, plaintext)
    {
      if |key| == 0 {
        return plaintext;
      }
      cipher := [];
      var i := |plaintext| - 1;
      while i >= 0
        invariant -1 <= i < |plaintext|
        invariant |cipher| == |plaintext| - 1 - i
        invariant forall k :: 0 <= k < |cipher| ==> cipher[k] == plaintext[|plaintext| - 1 - k]
      {
        cipher := cipher + [plaintext[i]];
        i := i - 1;
      }
    }

    /** `decrypt`: the same countdown loop as `encrypt`. */
    method Decrypt(ciphertext: string) returns (plain: string)
      ensures plain == Scrambled(key, ciphertext)
    {
      if |key| == 0 {
        return ciphertext;
      }
      plain := [];
      var i := |ciphertext| - 1;
      while i >= 0
        invariant -1 <= i < |ciphertext|
        invariant |plain| == |ciphertext| - 1 - i
        invariant forall k :: 0 <= k < |plain| ==> plain[k] == ciphertext[|ciphertext| - 1 - k]
      {
        plain := plain + [ciphertext[i]];
        i := i - 1;
      }
    }
  }
}
