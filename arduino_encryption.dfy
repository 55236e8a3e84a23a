/** The Arduino `String` copy of the message encryption, src/encryption.cpp.
    Its key, padding and unpadding helpers are the same code as those of
    src/utils/encryption.cpp and are the `Encryption` members here. It
    differs in how it builds its results: the ciphertext is made with the
    C-string constructor `String(const char*)`, which stops at the first
    NUL, and the plaintext is appended one character at a time. */
module ArduinoEncryption {
  import opened Bytes
  import opened Foreign
  import opened Encryption

  /** What `String(const char*)` keeps of a buffer: everything before the
      first NUL byte. */
  function CString(s: Bytes): (r: Bytes)
    ensures 0 !in r
    ensures |r| <= |s| && r == s[..|r|]
    ensures |r| < |s| ==> s[|r|] == 0
  {
    if s == [] || s[0] == 0 then [] else [s[0]] + CString(s[1..])
  }

  /** A buffer without NUL survives the C-string constructor whole. */
  lemma {:induction false} CStringWithoutNul(s: Bytes)
    requires 0 !in s
    ensures CString(s) == s
  {
    if s != [] {
      CStringWithoutNul(s[1..]);
    }
  }

  /** `encryptMessage(const String&, const String&)`: as the std::string
      version, except that the base64 text is turned into a `String` as a
      C string. */
  method EncryptMessage(aes: Aes, b64: Base64, key: Bytes, plaintext: Bytes) returns (r: Bytes)
    ensures |key| == 0 ==> r == plaintext
    ensures |key| > 0 ==> r == CString(EncryptSpec(aes, b64, key, plaintext))
    ensures b64.Valid() ==> r == EncryptSpec(aes, b64, key, plaintext)
  {
    if |key| == 0 {
      return plaintext;
    }
    var aesKey := new byte[16];
    PrepareAESKey(key, aesKey);
    var k: AesKey := aesKey[..];
    if !aes.setKeyEnc(k) {
      return [];
    }
    var paddedInput, paddedLen := Pkcs7Pad(plaintext);
    var outputBuf := aes.encryptCbc(k, paddedInput[..]);
    if outputBuf.None? {
      return [];
    }
    var b64Len := ((paddedLen + 2) / 3) * 4 + 1;
    var b64Buf := b64.encode(b64Len, outputBuf.value);
    if b64Buf.None? {
      return [];
    }
    r := CString(b64Buf.value);
    if b64.Valid() {
      CStringWithoutNul(b64Buf.value);
    }
  }

  /** `decryptMessage(const String&, const String&)`: as the std::string
      version; the unpadded plaintext is copied out byte by byte. */
  method DecryptMessage(aes: Aes, b64: Base64, key: Bytes, ciphertext: Bytes) returns (r: Bytes)
    requires aes.Valid()
    ensures r == DecryptSpec(aes, b64, key, ciphertext)
  {
    if |key| == 0 {
      return ciphertext;
    }
    var aesKey := new byte[16];
    PrepareAESKey(key, aesKey);
    var k: AesKey := aesKey[..];
    if !aes.setKeyDec(k) {
      return [];
    }
    var decodedBuf := b64.decode(|ciphertext|, ciphertext);
    if decodedBuf.None? {
      return [];
    }
    var outputBuf := aes.decryptCbc(k, decodedBuf.value);
    if outputBuf.None? {
      return [];
    }
    var out := outputBuf.value;
    var unpaddedLen := UnpadLen(out);
    var plainText: Bytes := [];
    var i := 0;
    while i < unpaddedLen
      invariant 0 <= i <= unpaddedLen <= |out|
      invariant plainText == out[..i]
    {
      plainText := plainText + [out[i]];
      i := i + 1;
    }
    r := plainText;
  }

  /** The Arduino copy inherits the round trip of the std::string one. */
  lemma DecryptEncrypt(aes: Aes, b64: Base64, key: Bytes, plaintext: Bytes, text: Bytes)
    requires aes.Valid() && b64.Valid()
    requires |key| > 0
    requires text == CString(EncryptSpec(aes, b64, key, plaintext)) && text != []
    ensures DecryptSpec(aes, b64, key, text) == plaintext
  {
    var e := EncryptSpec(aes, b64, key, plaintext);
    EncryptFailsOnlyInCipher(aes, b64, key, plaintext);
    var k := DerivedKey(key);
    var padded := Padded(plaintext);
    var ct := aes.encryptCbc(k, padded).value;
    assert e == b64.encode(Base64BufLen(|padded|), ct).value;
    CStringWithoutNul(e);
    Encryption.DecryptEncrypt(aes, b64, key, plaintext);
  }
}
