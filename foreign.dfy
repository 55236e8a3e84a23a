/** The libraries the envelope codec calls but does not implement: AES-128
    (FIPS 197) in CBC mode (NIST SP 800-38A section 6.2) and base64 (RFC 4648
    section 4) from mbedtls, and the Smaz2 short-string compressor. Each is a
    record of functions passed to the codec as a parameter; `Valid` states
    the library's documented behaviour that the codec's correctness rests
    on. Nothing is assumed: every lemma that needs a library property takes
    `Valid` as a precondition. */
module Foreign {
  import opened Bytes

  /** A 128-bit AES key. */
  type AesKey = k: Bytes | |k| == 16 witness [0, 0, 0, 0, 0, 0, 0, 0, 0, 0, 0, 0, 0, 0, 0, 0]

  /** mbedtls AES: `setKeyEnc`/`setKeyDec` say whether
      `mbedtls_aes_setkey_enc`/`_dec` return 0; `encryptCbc`/`decryptCbc`
      give the output buffer of `mbedtls_aes_crypt_cbc` with an all-zero IV,
      or None when it returns an error. */
  datatype Aes = Aes(
    setKeyEnc: AesKey -> bool,
    setKeyDec: AesKey -> bool,
    encryptCbc: (AesKey, Bytes) -> Option<Bytes>,
    decryptCbc: (AesKey, Bytes) -> Option<Bytes>)
  {
    /** CBC works on whole 16-byte blocks and writes as many bytes as it
        reads; decryption with the same key undoes encryption; a key the
        encryptor accepts is accepted by the decryptor. */
    ghost predicate Valid() {
      && (forall k :: setKeyEnc(k) ==> setKeyDec(k))
      && (forall k, p :: encryptCbc(k, p).Some? ==>
            |p| % 16 == 0 && |encryptCbc(k, p).value| == |p|)
      && (forall k, c :: decryptCbc(k, c).Some? ==>
            |c| % 16 == 0 && |decryptCbc(k, c).value| == |c|)
      && (forall k, p :: encryptCbc(k, p).Some? ==>
            decryptCbc(k, encryptCbc(k, p).value) == Some(p))
    }
  }

  /** Length of the base64 text of n bytes (RFC 4648 section 4): four
      characters per started group of three bytes. */
  function Base64Len(n: nat): nat {
    4 * ((n + 2) / 3)
  }

  /** mbedtls base64: `encode(dlen, src)` and `decode(dlen, src)` give the
      bytes written to a destination buffer of `dlen` bytes, or None when
      the call returns an error. */
  datatype Base64 = Base64(
    encode: (nat, Bytes) -> Option<Bytes>,
    decode: (nat, Bytes) -> Option<Bytes>)
  {
    /** Encoding succeeds when the buffer has room for the text and its
        terminating NUL; the text has the RFC 4648 length and holds no NUL;
        decoding it into a buffer large enough for the data gives the data
        back; decoding never writes past the buffer. */
    ghost predicate Valid() {
      && (forall dlen, s :: dlen >= Base64Len(|s|) + 1 ==> encode(dlen, s).Some?)
      && (forall dlen, s :: encode(dlen, s).Some? ==>
            |encode(dlen, s).value| == Base64Len(|s|) && 0 !in encode(dlen, s).value)
      && (forall dlen, s, dlen' :: encode(dlen, s).Some? && dlen' >= |s| ==>
            decode(dlen', encode(dlen, s).value) == Some(s))
      && (forall dlen, t :: decode(dlen, t).Some? ==> |decode(dlen, t).value| <= dlen)
    }
  }

  /** Smaz2: `compress(cap, s)` and `decompress(cap, c)` give the bytes
      written to an output buffer of `cap` bytes; an empty result is the
      library's "0 bytes" failure report. */
  datatype Smaz2 = Smaz2(
    compress: (nat, Bytes) -> Bytes,
    decompress: (nat, Bytes) -> Bytes)
  {
    /** Neither direction writes past its buffer, and decompressing a
        successful compression into a buffer large enough gives the input. */
    ghost predicate Valid() {
      && (forall cap, s :: |compress(cap, s)| <= cap)
      && (forall cap, c :: |decompress(cap, c)| <= cap)
      && (forall cap, s, cap' :: compress(cap, s) != [] && cap' >= |s| ==>
            decompress(cap', compress(cap, s)) == s)
    }
  }

  /** The three libraries together. */
  datatype Libs = Libs(aes: Aes, b64: Base64, smaz: Smaz2) {
    ghost predicate Valid() {
      aes.Valid() && b64.Valid() && smaz.Valid()
    }
  }
}
