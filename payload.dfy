/** The envelope codec of src/objects/payload.cpp. A payload travels as
    base64(AES-128-CBC(PKCS#7(header ++ Smaz2(record)))) where the record is
    `publicWord|epoch|type|content`, with the epoch and the type written as
    decimal numbers, and the header is the record length as a 4-byte
    big-endian unsigned integer. */
module Payloads {
  import opened Bytes
  import opened Streams
  import opened Foreign
  import opened Encryption
  import opened Records

  /** The payload type enumeration; its definition and its conversions
      `toUint`/`toPayloadType` are not part of this model, so the codec
      takes the conversions as parameters. */
  type PayloadType(==)

  /** The fields of a `Payload` object. */
  datatype Payload = Payload(publicWord: Bytes, epoch: u32, content: Bytes, ptype: PayloadType)

  // ---------------------------------------------------------------------
  // Size header
  // ---------------------------------------------------------------------

  /** The four header bytes `(n >> 24) & 0xFF`, `(n >> 16) & 0xFF`,
      `(n >> 8) & 0xFF`, `n & 0xFF`. */
  function Be32(n: u32): (r: Bytes)
    ensures |r| == 4
  {
    [n / 0x100_0000, (n / 0x1_0000) % 0x100, (n / 0x100) % 0x100, n % 0x100]
  }

  /** The unsigned 32-bit number in the first four bytes, most significant
      byte first. */
  function ReadBe32(b: Bytes): (n: u32)
    requires |b| >= 4
    ensures Be32(n) == b[..4]
  {
    var n := b[0] as int * 0x100_0000 + b[1] as int * 0x1_0000 + b[2] as int * 0x100 + b[3];
    HeaderDigits(b, n);
    n
  }

  /** The header reads back as the number it encodes. */
  lemma ReadBe32OfBe32(n: u32, rest: Bytes)
    ensures ReadBe32(Be32(n) + rest) == n
  {
    var q1 := n / 0x100;
    var q2 := q1 / 0x100;
    var q3 := q2 / 0x100;
    assert n == q1 * 0x100 + n % 0x100;
    assert q1 == q2 * 0x100 + q1 % 0x100;
    assert q2 == q3 * 0x100 + q2 % 0x100;
    assert q2 == n / 0x1_0000;
    assert q3 == n / 0x100_0000;
    assert q3 < 0x100;
  }

  /** The four bytes are the header of the number they spell, most
      significant first. */
  lemma HeaderDigits(b: Bytes, n: int)
    requires |b| >= 4
    requires n == b[0] as int * 0x100_0000 + b[1] as int * 0x1_0000 + b[2] as int * 0x100 + b[3]
    ensures 0 <= n < U32_MODULUS && Be32(n) == b[..4]
  {
    var b0, b1, b2, b3: int := b[0], b[1], b[2], b[3];
    var lo := b1 * 0x1_0000 + b2 * 0x100 + b3;
    assert n == b0 * 0x100_0000 + lo && lo < 0x100_0000;
    assert n / 0x100_0000 == b0;
    var mid := b2 * 0x100 + b3;
    assert n == (b0 * 0x100 + b1) * 0x1_0000 + mid && mid < 0x1_0000;
    assert n / 0x1_0000 == b0 * 0x100 + b1;
    assert n == (b0 * 0x1_0000 + b1 * 0x100 + b2) * 0x100 + b3;
    assert n / 0x100 == b0 * 0x1_0000 + b1 * 0x100 + b2;
  }

  // ---------------------------------------------------------------------
  // Compression with a size header
  // ---------------------------------------------------------------------

  /** What `compressWithHeader` returns: "" when Smaz2 reports 0 bytes
      into its buffer of twice the input size (a `size_t`, 32 bits wide),
      otherwise the header of the input length truncated to `uint32_t`,
      then the compressed bytes. */
  function Compressed(smaz: Smaz2, input: Bytes): Bytes
  {
    var c := smaz.compress(ToU32(|input| * 2), input);
    if c == [] then [] else Be32(ToU32(|input|)) + c
  }

  /** `compressWithHeader`: compress, then write the header byte by byte
      and copy the compressed bytes behind it. */
  method CompressWithHeader(smaz: Smaz2, input: Bytes) returns (r: Bytes)
    ensures r == Compressed(smaz, input)
  {
    var origSize := ToU32(|input|);
    var outBufSize := ToU32(|input| * 2);
    var outBuf := smaz.compress(outBufSize, input);
    var compressedSize := |outBuf|;
    if compressedSize == 0 {
      return [];
    }
    var compressed := new byte[4 + compressedSize];
    compressed[0] := origSize / 0x100_0000;
    compressed[1] := (origSize / 0x1_0000) % 0x100;
    compressed[2] := (origSize / 0x100) % 0x100;
    compressed[3] := origSize % 0x100;
    // memcpy(&compressed[4], out_buf.data(), compressedSize)
    forall i | 0 <= i < compressedSize {
      compressed[4 + i] := outBuf[i];
    }
    r := compressed[..];
    assert r == Be32(origSize) + outBuf;
  }

  /** `compressWithHeader` fails ("") exactly when the compressor writes
      nothing; otherwise its result is 4 bytes longer than the compressor's
      output and starts with the input length, truncated to 32 bits. */
  lemma CompressedShape(smaz: Smaz2, input: Bytes)
    ensures var c := smaz.compress(ToU32(|input| * 2), input);
      && (Compressed(smaz, input) == [] <==> c == [])
      && (c != [] ==>
            && |Compressed(smaz, input)| == 4 + |c|
            && Compressed(smaz, input)[4..] == c
            && ReadBe32(Compressed(smaz, input)) == |input| % U32_MODULUS)
  {
    var c := smaz.compress(ToU32(|input| * 2), input);
    if c != [] {
      ReadBe32OfBe32(ToU32(|input|), c);
    }
  }

  /** What `decompressWithHeader` returns: "" for less than 4 bytes or
      when Smaz2 reports 0 bytes; otherwise the decompressed bytes, the
      output buffer holding the header size plus one (in `uint32_t`, so
      0 bytes when the header is 0xFFFFFFFF). */
  function Decompressed(smaz: Smaz2, input: Bytes): (r: Bytes)
    ensures |input| < 4 ==> r == []
    ensures smaz.Valid() && |input| >= 4 ==> |r| <= (ReadBe32(input) + 1) % U32_MODULUS
  {
    if |input| < 4 then []
    else
      var origSize := ReadBe32(input);
      smaz.decompress(ToU32(origSize + 1), input[4..])
  }

  /** Decompression fails on input shorter than the header. */
  lemma DecompressedNeedsHeader(smaz: Smaz2, input: Bytes)
    requires |input| < 4
    ensures Decompressed(smaz, input) == []
  {
  }

  /** Decompressing what compression produced gives the input back, as long
      as the input length fits the header with room for the `+ 1`. */
  lemma DecompressCompress(smaz: Smaz2, input: Bytes)
    requires smaz.Valid()
    requires |input| < U32_MAX
    requires Compressed(smaz, input) != []
    ensures Decompressed(smaz, Compressed(smaz, input)) == input
  {
    var c := smaz.compress(ToU32(|input| * 2), input);
    var h := Compressed(smaz, input);
    ReadBe32OfBe32(ToU32(|input|), c);
    assert h[4..] == c;
    assert ToU32(ReadBe32(h) + 1) == |input| + 1;
  }

  // ---------------------------------------------------------------------
  // Encryption, with the padding written out inline
  // ---------------------------------------------------------------------

  /** `encryptMessageInternal`: the same pipeline as `encryptMessage`, with
      the PKCS#7 padding filled in place. */
  method EncryptMessageInternal(aes: Aes, b64: Base64, key: Bytes, plaintext: Bytes) returns (r: Bytes)
    ensures r == EncryptSpec(aes, b64, key, plaintext)
  {
    if |key| == 0 {
      return plaintext;
    }
    var aesKey := new byte[16];
    PrepareAESKey(key, aesKey);
    var k: AesKey := aesKey[..];
    if !aes.setKeyEnc(k) {
      return [];
    }
    var ptLen := |plaintext|;
    var pad := 16 - ptLen % 16;
    var paddedLen := ptLen + pad;
    var paddedInput := new byte[paddedLen];
    forall i | 0 <= i < ptLen {
      paddedInput[i] := plaintext[i];
    }
    var i := ptLen;
    while i < paddedLen
      invariant ptLen <= i <= paddedLen
      invariant paddedInput[..ptLen] == plaintext
      invariant forall j :: ptLen <= j < i ==> paddedInput[j] == pad
    {
      paddedInput[i] := pad;
      i := i + 1;
    }
    assert paddedInput[..] == Padded(plaintext) by {
      var p := Padded(plaintext);
      forall j | 0 <= j < paddedLen ensures paddedInput[j] == p[j] {
        if j < ptLen {
          assert paddedInput[j] == paddedInput[..ptLen][j];
        }
      }
    }
    var outputBuf := aes.encryptCbc(k, paddedInput[..]);
    if outputBuf.None? {
      return [];
    }
    var b64Len := ((paddedLen + 2) / 3) * 4 + 1;
    var b64Buf := b64.encode(b64Len, outputBuf.value);
    if b64Buf.None? {
      return [];
    }
    r := b64Buf.value;
  }

  /** `decryptMessageInternal`: the same pipeline as `decryptMessage`, with
      the unpadding written out inline. */
  method DecryptMessageInternal(aes: Aes, b64: Base64, key: Bytes, ciphertext: Bytes) returns (r: Bytes)
    requires aes.Valid()
    ensures r == DecryptSpec(aes, b64, key, ciphertext)
  {
    if |key| == 0 {
      return ciphertext;
    }
    var aesKey := new byte[16];
    PrepareAESKey(key, aesKey);
    var k: AesKey := aesKey[..];
    if !aes.setKeyDec(k) {
      return [];
    }
    var decodedBuf := b64.decode(|ciphertext|, ciphertext);
    if decodedBuf.None? {
      return [];
    }
    var outputBuf := aes.decryptCbc(k, decodedBuf.value);
    if outputBuf.None? {
      return [];
    }
    var out := outputBuf.value;
    var decodedLen := |out|;
    var unpaddedLen := decodedLen;
    if decodedLen > 0 {
      var pad := out[decodedLen - 1];
      if pad <= 16 {
        // a non-empty CBC output is at least one 16-byte block
        unpaddedLen := decodedLen - pad;
      }
    }
    r := out[..unpaddedLen];
  }

  // ---------------------------------------------------------------------
  // The record
  // ---------------------------------------------------------------------

  /** The record `encode` writes into its `ostringstream`:
      `publicWord|epoch|type|content`, the epoch and `toUint(type)` in
      decimal. When the public word holds no '|', splitting it at its first
      three '|' gives back the four fields, whatever the content holds. */
  function Record(p: Payload, toUint: PayloadType -> u32): (r: Bytes)
    ensures PIPE !in p.publicWord ==>
      SplitRecord(r) == Some(Fields(p.publicWord, Decimal(p.epoch), Decimal(toUint(p.ptype)), p.content))
  {
    var f := Fields(p.publicWord, Decimal(p.epoch), Decimal(toUint(p.ptype)), p.content);
    if PIPE in p.publicWord then Join(f)
    else
      SplitJoin(f);
      Join(f)
  }

  /** The numeric fields of a split record: the epoch through `>>` into a
      `uint32_t`, the type through `>>` into a `uint8_t` (one character),
      then converted with `toPayloadType`. */
  function ParseRecord(s: Bytes, toPayloadType: byte -> PayloadType): (r: Option<Payload>)
    ensures r.Some? ==> SplitRecord(s).Some?
    ensures r.Some? ==> var f := SplitRecord(s).value;
      && r.value.publicWord == f.publicWord
      && r.value.content == f.content
      && Some(r.value.epoch) == ExtractU32(f.epoch)
      && ExtractChar(f.ptype).Some?
      && r.value.ptype == toPayloadType(ExtractChar(f.ptype).value)
  {
    match SplitRecord(s)
    case None => None
    case Some(f) =>
      match ExtractU32(f.epoch)
      case None => None
      case Some(ep) =>
        match ExtractChar(f.ptype)
        case None => None
        case Some(typeVal) => Some(Payload(f.publicWord, ep, f.content, toPayloadType(typeVal)))
  }

  // ---------------------------------------------------------------------
  // encode / decode
  // ---------------------------------------------------------------------

  /** `Payload::encode`: build the record, compress it with its header,
      encrypt. `encodedOut` is the caller's string, left alone when
      compression fails and overwritten with the ciphertext otherwise; the
      result is true when that ciphertext is not empty. */
  method Encode(libs: Libs, p: Payload, toUint: PayloadType -> u32, encryptionKey: Bytes, encodedIn: Bytes)
    returns (ok: bool, encodedOut: Bytes)
    ensures var c := Compressed(libs.smaz, Record(p, toUint));
      && (c == [] ==> !ok && encodedOut == encodedIn)
      && (c != [] ==>
            && encodedOut == EncryptSpec(libs.aes, libs.b64, encryptionKey, c)
            && ok == (encodedOut != []))
  {
    var payloadStr := Record(p, toUint);
    var compressed := CompressWithHeader(libs.smaz, payloadStr);
    if |compressed| == 0 {
      return false, encodedIn;
    }
    encodedOut := EncryptMessageInternal(libs.aes, libs.b64, encryptionKey, compressed);
    ok := |encodedOut| != 0;
  }

  /** What `Payload::decode` makes of its input: None when decryption or
      decompression gives "", when there are fewer than three '|', or when
      a numeric field does not parse. */
  function DecodeSpec(libs: Libs, data: Bytes, key: Bytes, toPayloadType: byte -> PayloadType): Option<Payload>
    requires libs.aes.Valid()
  {
    var decrypted := DecryptSpec(libs.aes, libs.b64, key, data);
    if decrypted == [] then None
    else
      var text := Decompressed(libs.smaz, decrypted);
      if text == [] then None else ParseRecord(text, toPayloadType)
  }

  /** `Payload::decode`: on success `pOut` receives the four fields; on any
      failure it is returned as it came in. */
  method Decode(libs: Libs, data: Bytes, key: Bytes, toPayloadType: byte -> PayloadType, pIn: Payload)
    returns (ok: bool, pOut: Payload)
    requires libs.aes.Valid()
    ensures ok <==> DecodeSpec(libs, data, key, toPayloadType).Some?
    ensures ok ==> pOut == DecodeSpec(libs, data, key, toPayloadType).value
    ensures !ok ==> pOut == pIn
  {
    var decryptedCompressed := DecryptMessageInternal(libs.aes, libs.b64, key, data);
    if |decryptedCompressed| == 0 {
      return false, pIn;
    }
    var decompressedPayload := Decompressed(libs.smaz, decryptedCompressed);
    if |decompressedPayload| == 0 {
      return false, pIn;
    }
    var fields := SplitRecord(decompressedPayload);
    if fields.None? {
      return false, pIn;
    }
    var ep := ExtractU32(fields.value.epoch);
    if ep.None? {
      return false, pIn;
    }
    var typeVal := ExtractChar(fields.value.ptype);
    if typeVal.None? {
      return false, pIn;
    }
    ok := true;
    pOut := pIn.(publicWord := fields.value.publicWord, epoch := ep.value,
                 ptype := toPayloadType(typeVal.value), content := fields.value.content);
  }

  /** The envelope round trip. When `encode` succeeds, the public word has
      no '|' and the record length leaves room in the 32-bit header,
      `decode` gives back the public word, the epoch and the content. The
      type comes back as `toPayloadType` of the ASCII code of the first
      decimal digit of `toUint(type)`, not of the number itself: type 0
      comes back as `toPayloadType(48)`. */
  lemma DecodeEncode(libs: Libs, p: Payload, toUint: PayloadType -> u32,
                     toPayloadType: byte -> PayloadType, key: Bytes)
    requires libs.Valid()
    requires PIPE !in p.publicWord
    requires |Record(p, toUint)| < U32_MAX
    requires Compressed(libs.smaz, Record(p, toUint)) != []
    requires EncryptSpec(libs.aes, libs.b64, key, Compressed(libs.smaz, Record(p, toUint))) != []
    ensures DecodeSpec(libs, EncryptSpec(libs.aes, libs.b64, key, Compressed(libs.smaz, Record(p, toUint))), key, toPayloadType)
      == Some(Payload(p.publicWord, p.epoch, p.content, toPayloadType(Decimal(toUint(p.ptype))[0])))
    ensures toUint(p.ptype) < 10 ==> Decimal(toUint(p.ptype))[0] == ZERO + toUint(p.ptype)
  {
    var record := Record(p, toUint);
    var c := Compressed(libs.smaz, record);
    DecryptEncrypt(libs.aes, libs.b64, key, c);
    DecompressCompress(libs.smaz, record);
    var f := Fields(p.publicWord, Decimal(p.epoch), Decimal(toUint(p.ptype)), p.content);
    SplitJoin(f);
    ExtractU32OfDecimal(p.epoch, []);
    assert Decimal(p.epoch) + [] == Decimal(p.epoch);
    ExtractCharOfDecimal(toUint(p.ptype));
    assert record != [] by {
      assert |record| >= 3;
    }
  }
}
