/** The AES-128-CBC + base64 message encryption of src/utils/encryption.cpp
    (the `std::string` version). The pure functions here are the
    specification of the encryption pipeline shared by every copy of it in
    the firmware: `DerivedKey`, `Padded`, `UnpadLen`, `EncryptSpec` and
    `DecryptSpec`. */
module Encryption {
  import opened Bytes
  import opened Foreign

  /** `size_t` on the ESP32 is 32 bits wide. */
  const SIZE_MODULUS: int := U32_MODULUS

  /** The 16-byte AES key: the first min(|key|, 16) key bytes, then zeros. */
  function DerivedKey(key: Bytes): (k: AesKey)
    ensures forall i :: 0 <= i < 16 ==> k[i] == if i < |key| then key[i] else 0
  {
    if |key| >= 16 then key[..16] else key + seq(16 - |key|, _ => 0)
  }

  /** `prepareAESKey`: zero the 16-byte output buffer, then copy at most 16
      key bytes over its front. */
  method PrepareAESKey(key: Bytes, outputKey: array<byte>)
    requires outputKey.Length == 16
    modifies outputKey
    ensures outputKey[..] == DerivedKey(key)
  {
    // memset(outputKey, 0, 16)
    forall i | 0 <= i < 16 {
      outputKey[i] := 0;
    }
    var len := |key|;
    if len > 16 {
      len := 16;
    }
    // memcpy(outputKey, key.c_str(), len)
    forall i | 0 <= i < len {
      outputKey[i] := key[i];
    }
  }

  /** Number of PKCS#7 pad bytes (RFC 5652 section 6.3) for n bytes of data. */
  function PadCount(n: nat): (pad: nat)
    ensures 1 <= pad <= 16
    ensures (n + pad) % 16 == 0
  {
    16 - n % 16
  }

  /** The PKCS#7-padded buffer: the input, then `pad` copies of `pad`. */
  function Padded(input: Bytes): (r: Bytes)
    ensures |r| % 16 == 0
    ensures |input| < |r| <= |input| + 16
    ensures r[..|input|] == input
    ensures forall i :: |input| <= i < |r| ==> r[i] == |r| - |input|
  {
    var pad := PadCount(|input|);
    input + seq(pad, _ => pad)
  }

  /** `pkcs7_pad`: a new buffer of `paddedLen` bytes filled with the input
      and then with the pad value. */
  method Pkcs7Pad(input: Bytes) returns (buffer: array<byte>, paddedLen: nat)
    ensures fresh(buffer)
    ensures buffer.Length == paddedLen
    ensures buffer[..] == Padded(input)
  {
    var inputLen := |input|;
    var pad := PadCount(inputLen);
    paddedLen := inputLen + pad;
    buffer := new byte[paddedLen];
    // memcpy(buffer, input, inputLen)
    forall i | 0 <= i < inputLen {
      buffer[i] := input[i];
    }
    var i := inputLen;
    while i < paddedLen
      invariant inputLen <= i <= paddedLen
      invariant buffer[..inputLen] == input
      invariant forall k :: inputLen <= k < i ==> buffer[k] == pad
    {
      buffer[i] := pad;
      i := i + 1;
    }
    assert buffer[..] == Padded(input) by {
      var p := Padded(input);
      forall k | 0 <= k < paddedLen ensures buffer[k] == p[k] {
        if k < inputLen {
          assert buffer[k] == buffer[..inputLen][k];
        }
      }
    }
  }

  /** `pkcs7_unpad`: the length left after removing the padding. It is 0
      for an empty buffer; a last byte above 16 means "no padding"; a last
      byte of 0 removes nothing; the other pad bytes are not checked. The
      subtraction is in `size_t` and wraps when the last byte exceeds the
      buffer length. */
  function UnpadLen(input: Bytes): (n: nat)
    ensures |input| == 0 ==> n == 0
    ensures |input| > 0 && input[|input| - 1] > 16 ==> n == |input|
    ensures |input| > 0 && input[|input| - 1] <= 16 && input[|input| - 1] <= |input| ==>
      n == |input| - input[|input| - 1]
    ensures |input| % 16 == 0 ==> n <= |input|
  {
    if |input| == 0 then 0
    else
      var pad := input[|input| - 1];
      if pad > 16 then |input|
      else if pad <= |input| then |input| - pad
      else |input| - pad + SIZE_MODULUS
  }

  /** Removing the padding of a padded buffer gives the original length. */
  lemma UnpadLenOfPadded(input: Bytes)
    ensures UnpadLen(Padded(input)) == |input|
  {
    var p := Padded(input);
    assert p[|p| - 1] == |p| - |input|;
  }

  /** The capacity `((paddedLen + 2) / 3) * 4 + 1` given to the base64
      encoder. */
  function Base64BufLen(paddedLen: nat): (n: nat)
    ensures n == Base64Len(paddedLen) + 1
  {
    ((paddedLen + 2) / 3) * 4 + 1
  }

  /** `encryptMessage` as a function of the libraries, the key and the
      plaintext: the identity for an empty key, "" when any library call
      fails, the base64 text of the CBC ciphertext of the padded plaintext
      otherwise. */
  function EncryptSpec(aes: Aes, b64: Base64, key: Bytes, plaintext: Bytes): Bytes
  {
    if |key| == 0 then plaintext
    else
      var k := DerivedKey(key);
      if !aes.setKeyEnc(k) then []
      else
        var padded := Padded(plaintext);
        match aes.encryptCbc(k, padded)
        case None => []
        case Some(ct) =>
          match b64.encode(Base64BufLen(|padded|), ct)
          case None => []
          case Some(text) => text
  }

  /** `decryptMessage` as a function: the identity for an empty key, ""
      when any library call fails, otherwise the first `UnpadLen` bytes of
      the CBC plaintext of the base64-decoded input. */
  function DecryptSpec(aes: Aes, b64: Base64, key: Bytes, ciphertext: Bytes): Bytes
    requires aes.Valid()
  {
    if |key| == 0 then ciphertext
    else
      var k := DerivedKey(key);
      if !aes.setKeyDec(k) then []
      else
        match b64.decode(|ciphertext|, ciphertext)
        case None => []
        case Some(decoded) =>
          match aes.decryptCbc(k, decoded)
          case None => []
          // CBC output is whole blocks, so the unpadded length is within it
          case Some(out) => out[..UnpadLen(out)]
  }

  /** `encryptMessage`: derive the key, pad, encrypt in CBC mode with a zero
      IV, base64-encode into a buffer of `Base64BufLen` bytes. */
  method EncryptMessage(aes: Aes, b64: Base64, key: Bytes, plaintext: Bytes) returns (r: Bytes)
    ensures r == EncryptSpec(aes, b64, key, plaintext)
  {
    if |key| == 0 {
      return plaintext;
    }
    var aesKey := new byte[16];
    PrepareAESKey(key, aesKey);
    var k: AesKey := aesKey[..];
    if !aes.setKeyEnc(k) {
      return [];
    }
    var paddedInput, paddedLen := Pkcs7Pad(plaintext);
    var outputBuf := aes.encryptCbc(k, paddedInput[..]);
    if outputBuf.None? {
      return [];
    }
    var b64Len := ((paddedLen + 2) / 3) * 4 + 1;
    var b64Buf := b64.encode(b64Len, outputBuf.value);
    if b64Buf.None? {
      return [];
    }
    r := b64Buf.value;
  }

  /** `decryptMessage`: derive the key, base64-decode into a buffer as long
      as the input, decrypt in CBC mode with a zero IV, drop the padding. */
  method DecryptMessage(aes: Aes, b64: Base64, key: Bytes, ciphertext: Bytes) returns (r: Bytes)
    requires aes.Valid()
    ensures r == DecryptSpec(aes, b64, key, ciphertext)
  {
    if |key| == 0 {
      return ciphertext;
    }
    var aesKey := new byte[16];
    PrepareAESKey(key, aesKey);
    var k: AesKey := aesKey[..];
    if !aes.setKeyDec(k) {
      return [];
    }
    var decodedBuf := b64.decode(|ciphertext|, ciphertext);
    if decodedBuf.None? {
      return [];
    }
    var outputBuf := aes.decryptCbc(k, decodedBuf.value);
    if outputBuf.None? {
      return [];
    }
    var out := outputBuf.value;
    var unpaddedLen := UnpadLen(out);
    r := out[..unpaddedLen];
  }

  /** An empty key turns both directions into the identity. */
  lemma EmptyKeyIsIdentity(aes: Aes, b64: Base64, text: Bytes)
    requires aes.Valid()
    ensures EncryptSpec(aes, b64, [], text) == text
    ensures DecryptSpec(aes, b64, [], text) == text
  {
  }

  /** With a key, encryption fails ("") exactly when a library call fails;
      the base64 step cannot fail for lack of room, because the buffer size
      `Base64BufLen` covers the RFC 4648 length and the NUL. On success the
      text is the base64 length of the padded plaintext. */
  lemma EncryptFailsOnlyInCipher(aes: Aes, b64: Base64, key: Bytes, plaintext: Bytes)
    requires aes.Valid() && b64.Valid()
    requires |key| > 0
    ensures var k := DerivedKey(key);
      EncryptSpec(aes, b64, key, plaintext) == [] <==>
        !aes.setKeyEnc(k) || aes.encryptCbc(k, Padded(plaintext)).None?
    ensures EncryptSpec(aes, b64, key, plaintext) != [] ==>
      |EncryptSpec(aes, b64, key, plaintext)| == Base64Len(|Padded(plaintext)|)
  {
    var k := DerivedKey(key);
    var padded := Padded(plaintext);
    if aes.setKeyEnc(k) && aes.encryptCbc(k, padded).Some? {
      var ct := aes.encryptCbc(k, padded).value;
      assert |ct| == |padded|;
      assert b64.encode(Base64BufLen(|padded|), ct).Some?;
      assert Base64Len(|padded|) > 0;
    }
  }

  /** Decryption undoes a successful encryption under the same key. */
  lemma DecryptEncrypt(aes: Aes, b64: Base64, key: Bytes, plaintext: Bytes)
    requires aes.Valid() && b64.Valid()
    requires EncryptSpec(aes, b64, key, plaintext) != []
    ensures DecryptSpec(aes, b64, key, EncryptSpec(aes, b64, key, plaintext)) == plaintext
  {
    if |key| > 0 {
      var k := DerivedKey(key);
      var padded := Padded(plaintext);
      var ct := aes.encryptCbc(k, padded).value;
      var text := b64.encode(Base64BufLen(|padded|), ct).value;
      assert EncryptSpec(aes, b64, key, plaintext) == text;
      assert |text| >= |ct| by {
        assert |text| == Base64Len(|ct|);
      }
      assert b64.decode(|text|, text) == Some(ct);
      assert aes.decryptCbc(k, ct) == Some(padded);
      UnpadLenOfPadded(plaintext);
    }
  }
}
