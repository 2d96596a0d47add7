/**
 The pure glue around the cipher in the file-encryption module: the key fingerprint, the
 byte <-> binary-string loops around Base64, the metadata record written on encryption,
 the fingerprint check and zero-padding trim on decryption, and the random key generator.

 SHA-256, the IDEA cipher, `btoa` and `atob` are foreign code. They enter as the fields of
 a `Primitives` value, so every property below holds for whatever those functions are.
 */
module Crypto {
  import opened Optional

  newtype byte = x: int | 0 <= x < 0x100

  /** The record `encryptFile` produces: Base64 ciphertext plus metadata. */
  datatype EncryptedFile = EncryptedFile(
    filename: string,
    encryptedData: string,
    fileSize: nat,
    mimeType: string,
    encryptionKeyHash: string)

  /** A browser `File`: its name, its MIME type (possibly empty) and its bytes; `size` is their count. */
  datatype PlainFile = PlainFile(name: string, mimeType: string, contents: seq<byte>)

  /** The `Blob` `decryptFile` returns. */
  datatype Blob = Blob(bytes: seq<byte>, mimeType: string)

  datatype DecryptError =
    | InvalidDecryptionKey  // the thrown 'Invalid decryption key'
    | InvalidBase64         // `atob` throws on text that is not Base64

  datatype DecryptResult = Decrypted(blob: Blob) | Failed(error: DecryptError)

  /** The foreign functions the module calls. */
  datatype Primitives = Primitives(
    sha256: string -> seq<byte>,                   // SHA-256 of the UTF-8 bytes of a key
    ideaEncrypt: (string, seq<byte>) -> seq<byte>, // the bytes of the whole buffer behind `new IDEA(key).encrypt(bytes)`
    ideaDecrypt: (string, seq<byte>) -> seq<byte>, // `new IDEA(key).decrypt(bytes)`
    btoa: string -> string,                        // binary string to Base64
    atob: string -> Option<string>)                // Base64 to binary string; None when it throws

  const DefaultMimeType: string := "application/octet-stream"

  /** The 70 characters a generated key is drawn from. */
  const KeyAlphabet: string := "ABCDEFGHIJKLMNOPQRSTUVWXYZabcdefghijklmnopqrstuvwxyz0123456789!@#$%^&*"

  // ---------------------------------------------------------------------------
  // Byte <-> binary string

  /** The loop of `arrayBufferToBase64`: each byte appended as the character with that code. */
  function BytesToBinary(bytes: seq<byte>): (binary: string)
    ensures |binary| == |bytes|
    ensures forall i :: 0 <= i < |bytes| ==> binary[i] as int == bytes[i] as int
    ensures forall i :: 0 <= i < |binary| ==> binary[i] as int < 0x100
  {
    if bytes == [] then ""
    else BytesToBinary(bytes[..|bytes| - 1]) + [bytes[|bytes| - 1] as int as char]
  }

  /**
   The loop of `base64ToArrayBuffer`: each character code is stored into a `Uint8Array`,
   which keeps it modulo 256.
   */
  function BinaryToBytes(binary: string): (bytes: seq<byte>)
    ensures |bytes| == |binary|
    ensures forall i :: 0 <= i < |binary| ==> bytes[i] as int == binary[i] as int % 0x100
  {
    if binary == [] then []
    else BinaryToBytes(binary[..|binary| - 1]) + [(binary[|binary| - 1] as int % 0x100) as byte]
  }

  /** Bytes survive the trip through a binary string. */
  lemma BytesBinaryRoundTrip(bytes: seq<byte>)
    ensures BinaryToBytes(BytesToBinary(bytes)) == bytes
  {
    var back := BinaryToBytes(BytesToBinary(bytes));
    assert forall i :: 0 <= i < |bytes| ==> back[i] == bytes[i];
  }

  /** A code below 256 is what a `Uint8Array` stores for it. */
  lemma ByteCodeKeptModulo(code: int)
    requires 0 <= code < 0x100
    ensures code % 0x100 == code
  {
  }

  /** A binary string (every code below 256, as `atob` produces) survives the trip through bytes. */
  lemma BinaryBytesRoundTrip(binary: string)
    requires forall i :: 0 <= i < |binary| ==> binary[i] as int < 0x100
    ensures BytesToBinary(BinaryToBytes(binary)) == binary
  {
    var bytes := BinaryToBytes(binary);
    var back := BytesToBinary(bytes);
    forall i | 0 <= i < |binary|
      ensures back[i] == binary[i]
    {
      var code := binary[i] as int;
      ByteCodeKeptModulo(code);
      assert bytes[i] as int == code;
      assert back[i] as int == bytes[i] as int;
    }
  }

  // ---------------------------------------------------------------------------
  // Key fingerprint and the encrypted record

  /** `hashKey`: the Base64 text of the SHA-256 digest of the key. */
  function HashKey(p: Primitives, key: string): string {
    p.btoa(BytesToBinary(p.sha256(key)))
  }

  /**
   The fingerprint is `btoa` of the binary string whose character codes are the bytes of the
   key's SHA-256 digest: it depends on the key only through that digest.
   */
  lemma HashKeyEncodesDigest(p: Primitives, key: string, binary: string)
    requires |binary| == |p.sha256(key)|
    requires forall i :: 0 <= i < |binary| ==> binary[i] as int == p.sha256(key)[i] as int
    ensures HashKey(p, key) == p.btoa(binary)
  {
    var digest := BytesToBinary(p.sha256(key));
    forall i | 0 <= i < |binary|
      ensures digest[i] == binary[i]
    {
      assert digest[i] as int == binary[i] as int;
    }
    assert digest == binary;
  }

  /** `encryptFile`: the ciphertext plus the metadata the decryptor and the catalog need. */
  function EncryptFile(p: Primitives, file: PlainFile, key: string): (e: EncryptedFile)
    ensures e.filename == file.name
    ensures e.fileSize == |file.contents|
    ensures e.encryptionKeyHash == HashKey(p, key)
    ensures file.mimeType == "" ==> e.mimeType == DefaultMimeType
    ensures file.mimeType != "" ==> e.mimeType == file.mimeType
  {
    var ciphertext := p.ideaEncrypt(key, file.contents);
    EncryptedFile(
      file.name,
      p.btoa(BytesToBinary(ciphertext)),
      |file.contents|,
      if file.mimeType == "" then DefaultMimeType else file.mimeType,
      HashKey(p, key))
  }

  // ---------------------------------------------------------------------------
  // Trimming the zero padding

  /**
   `trimmed` is what is left of `decrypted` once its trailing zero bytes are cut: a prefix
   that is empty or ends in a non-zero byte, and everything cut is zero.
   */
  ghost predicate IsZeroTrim(decrypted: seq<byte>, trimmed: seq<byte>) {
    && trimmed <= decrypted
    && (trimmed == [] || trimmed[|trimmed| - 1] != 0)
    && forall k :: |trimmed| <= k < |decrypted| ==> decrypted[k] == 0
  }

  /** At most one prefix is a zero trim of a given byte sequence. */
  lemma ZeroTrimUnique(decrypted: seq<byte>, t1: seq<byte>, t2: seq<byte>)
    requires IsZeroTrim(decrypted, t1) && IsZeroTrim(decrypted, t2)
    ensures t1 == t2
  {
  }

  function TrimTrailingZeros(decrypted: seq<byte>): (trimmed: seq<byte>)
    ensures IsZeroTrim(decrypted, trimmed)
  {
    if |decrypted| > 0 && decrypted[|decrypted| - 1] == 0 then
      TrimTrailingZeros(decrypted[..|decrypted| - 1])
    else decrypted
  }

  /** The `actualSize` loop of `decryptFile`, which never reads outside the decrypted bytes. */
  method TrimPadding(decrypted: seq<byte>) returns (trimmed: seq<byte>)
    ensures IsZeroTrim(decrypted, trimmed)
    ensures trimmed == TrimTrailingZeros(decrypted)
  {
    var actualSize := |decrypted|;
    while actualSize > 0 && decrypted[actualSize - 1] == 0
      invariant 0 <= actualSize <= |decrypted|
      invariant forall k :: actualSize <= k < |decrypted| ==> decrypted[k] == 0
    {
      actualSize := actualSize - 1;
    }
    trimmed := decrypted[..actualSize];
    ZeroTrimUnique(decrypted, trimmed, TrimTrailingZeros(decrypted));
  }

  /** Trimming leaves a sequence alone exactly when it is empty or ends in a non-zero byte. */
  lemma TrimFixedPoints(bytes: seq<byte>)
    ensures TrimTrailingZeros(bytes) == bytes <==> (bytes == [] || bytes[|bytes| - 1] != 0)
  {
    if bytes == [] || bytes[|bytes| - 1] != 0 {
      ZeroTrimUnique(bytes, bytes, TrimTrailingZeros(bytes));
    }
  }

  lemma TrimIdempotent(bytes: seq<byte>)
    ensures TrimTrailingZeros(TrimTrailingZeros(bytes)) == TrimTrailingZeros(bytes)
  {
    TrimFixedPoints(TrimTrailingZeros(bytes));
  }

  function Zeros(n: nat): (z: seq<byte>)
    ensures |z| == n
    ensures forall i :: 0 <= i < n ==> z[i] == 0
  {
    seq(n, _ => 0)
  }

  /** Trimming removes zero padding and nothing more from a payload that does not end in zero. */
  lemma TrimRemovesPadding(payload: seq<byte>, padding: nat)
    requires payload == [] || payload[|payload| - 1] != 0
    ensures TrimTrailingZeros(payload + Zeros(padding)) == payload
  {
    var padded := payload + Zeros(padding);
    assert padded[..|payload|] == payload;
    assert IsZeroTrim(padded, payload);
    ZeroTrimUnique(padded, payload, TrimTrailingZeros(padded));
  }

  // ---------------------------------------------------------------------------
  // Decryption

  /**
   `decryptFile`: the key's fingerprint is compared with the stored one first; only on a
   match is the Base64 text decoded, decrypted and its zero padding trimmed.
   */
  function DecryptFile(p: Primitives, e: EncryptedFile, key: string): (r: DecryptResult)
    ensures r == Failed(InvalidDecryptionKey) <==> HashKey(p, key) != e.encryptionKeyHash
    ensures r == Failed(InvalidBase64) <==>
      HashKey(p, key) == e.encryptionKeyHash && p.atob(e.encryptedData).None?
    ensures r.Decrypted? ==>
      && p.atob(e.encryptedData).Some?
      && IsZeroTrim(p.ideaDecrypt(key, BinaryToBytes(p.atob(e.encryptedData).value)), r.blob.bytes)
      && r.blob.mimeType == e.mimeType
  {
    if HashKey(p, key) != e.encryptionKeyHash then Failed(InvalidDecryptionKey)
    else
      match p.atob(e.encryptedData)
      case None => Failed(InvalidBase64)
      case Some(binary) =>
        var decrypted := p.ideaDecrypt(key, BinaryToBytes(binary));
        Decrypted(Blob(TrimTrailingZeros(decrypted), e.mimeType))
  }

  /**
   A wrong key is turned away before the cipher or the Base64 decoder is consulted: whatever
   those two functions are, the outcome is the same failure.
   */
  lemma WrongKeyNeverReachesCipher(
    p: Primitives, e: EncryptedFile, key: string,
    otherDecrypt: (string, seq<byte>) -> seq<byte>, otherAtob: string -> Option<string>)
    requires HashKey(p, key) != e.encryptionKeyHash
    ensures DecryptFile(p.(ideaDecrypt := otherDecrypt, atob := otherAtob), e, key) == Failed(InvalidDecryptionKey)
    ensures DecryptFile(p, e, key) == Failed(InvalidDecryptionKey)
  {
  }

  /** Decrypting with a key whose fingerprint differs from the encrypting key's fails. */
  lemma WrongKeyRejected(p: Primitives, file: PlainFile, key: string, wrongKey: string)
    requires HashKey(p, wrongKey) != HashKey(p, key)
    ensures DecryptFile(p, EncryptFile(p, file, key), wrongKey) == Failed(InvalidDecryptionKey)
  {
  }

  /**
   Round trip, under two explicit assumptions about the foreign code: `atob` undoes `btoa`
   on this ciphertext, and IDEA decryption returns the plaintext followed by zero padding.
   A plaintext that does not end in a zero byte then comes back unchanged.
   */
  lemma EncryptDecryptRoundTrip(p: Primitives, file: PlainFile, key: string, padding: nat)
    requires var binary := BytesToBinary(p.ideaEncrypt(key, file.contents));
      p.atob(p.btoa(binary)) == Some(binary)
    requires p.ideaDecrypt(key, p.ideaEncrypt(key, file.contents)) == file.contents + Zeros(padding)
    requires file.contents == [] || file.contents[|file.contents| - 1] != 0
    ensures DecryptFile(p, EncryptFile(p, file, key), key)
         == Decrypted(Blob(file.contents, EncryptFile(p, file, key).mimeType))
  {
    BytesBinaryRoundTrip(p.ideaEncrypt(key, file.contents));
    TrimRemovesPadding(file.contents, padding);
  }

  /**
   The trim is lossy: under the same assumptions, a plaintext that ends in a zero byte comes
   back shorter than it went in.
   */
  lemma TrailingZerosAreLost(p: Primitives, file: PlainFile, key: string, padding: nat)
    requires var binary := BytesToBinary(p.ideaEncrypt(key, file.contents));
      p.atob(p.btoa(binary)) == Some(binary)
    requires p.ideaDecrypt(key, p.ideaEncrypt(key, file.contents)) == file.contents + Zeros(padding)
    requires |file.contents| > 0 && file.contents[|file.contents| - 1] == 0
    ensures DecryptFile(p, EncryptFile(p, file, key), key).Decrypted?
    ensures |DecryptFile(p, EncryptFile(p, file, key), key).blob.bytes| < |file.contents|
  {
    var ciphertext := p.ideaEncrypt(key, file.contents);
    BytesBinaryRoundTrip(ciphertext);
    var padded := file.contents + Zeros(padding);
    var trimmed := DecryptFile(p, EncryptFile(p, file, key), key).blob.bytes;
    assert IsZeroTrim(padded, trimmed);
  }

  // ---------------------------------------------------------------------------
  // Key generation

  /** The most bytes `crypto.getRandomValues` fills in one call; a larger array is refused. */
  const MaxRandomBytes: nat := 0x10000

  /**
   `generateRandomKey`: character i of the key is the alphabet entry at the i-th random
   byte modulo 70. The random bytes (`crypto.getRandomValues`) are a parameter; a length
   above `MaxRandomBytes` makes that call throw, which is `None` here.
   */
  method GenerateRandomKey(length: nat, randomValues: seq<byte>) returns (key: Option<string>)
    requires |randomValues| == length
    ensures key.None? <==> length > MaxRandomBytes
    ensures key.Some? ==> |key.value| == length
    ensures key.Some? ==> forall i :: 0 <= i < length ==> key.value[i] == KeyAlphabet[randomValues[i] as int % 70]
    ensures key.Some? ==> forall i :: 0 <= i < length ==> key.value[i] in KeyAlphabet
  {
    if length > MaxRandomBytes {
      return None;
    }
    var k := "";
    var i := 0;
    while i < length
      invariant 0 <= i <= length
      invariant |k| == i
      invariant forall j :: 0 <= j < i ==> k[j] == KeyAlphabet[randomValues[j] as int % 70]
    {
      k := k + [KeyAlphabet[randomValues[i] as int % |KeyAlphabet|]];
      i := i + 1;
    }
    key := Some(k);
  }
}
