/** xferry/encrypted_transfer.py: the EUF v1 manifest, its fixed-width contexts and nonces (IV
    construction as in section 8.2.1 of NIST SP 800-38D), and chunked encryption over an
    abstract authenticated cipher. */
module EncryptedTransfer {
  import opened Wrappers
  import opened ByteStrings

  const CHUNK_SIZE := 8 * 1024 * 1024
  const MAX_CHUNK_COUNT := 4096
  const MAX_FILE_SIZE := MAX_CHUNK_COUNT * CHUNK_SIZE
  const TAG_SIZE := 16
  const MAX_METADATA_SIZE := 4096
  const METADATA_INDEX := 0xFFFFFFFF
  const KEY_SIZE := 32

  // ----- fixed-width integers and file IDs

  function Pow256(width: nat): nat {
    if width == 0 then 1 else 256 * Pow256(width - 1)
  }

  /** struct.pack of one unsigned big-endian integer; None where it raises. */
  function Pack(value: int, width: nat): Option<Bytes> {
    if 0 <= value < Pow256(width) then Some(BigEndian(value, width)) else None
  }

  function BigEndian(value: nat, width: nat): (b: Bytes)
    ensures |b| == width
  {
    if width == 0 then [] else BigEndian(value / 256, width - 1) + [value % 256]
  }

  function Number(b: Bytes): nat {
    if b == [] then 0 else Number(b[..|b| - 1]) * 256 + b[|b| - 1]
  }

  lemma {:induction false} BigEndianRoundTrip(value: nat, width: nat)
    requires value < Pow256(width)
    ensures Number(BigEndian(value, width)) == value
  {
    if width > 0 {
      BigEndianRoundTrip(value / 256, width - 1);
      assert BigEndian(value, width)[..width - 1] == BigEndian(value / 256, width - 1);
    }
  }

  predicate IsHexChar(c: char) {
    '0' <= c <= '9' || 'a' <= c <= 'f'
  }

  function HexValue(c: char): (v: nat)
    requires IsHexChar(c)
    ensures v < 16
  {
    if c <= '9' then (c - '0') as int else (c - 'a') as int + 10
  }

  predicate IsFileId(s: string) {
    |s| == 32 && forall i | 0 <= i < 32 :: IsHexChar(s[i])
  }

  /** file_id_bytes, for a canonical ID. */
  function FileIdBytes(s: string): (b: Bytes)
    requires IsFileId(s)
    ensures |b| == 16
  {
    seq(16, i requires 0 <= i < 16 => HexValue(s[2 * i]) * 16 + HexValue(s[2 * i + 1]))
  }

  lemma FileIdInjective(s: string, t: string)
    requires IsFileId(s) && IsFileId(t) && FileIdBytes(s) == FileIdBytes(t)
    ensures s == t
  {
    forall i | 0 <= i < 32 ensures s[i] == t[i] {
      var k := i / 2;
      assert FileIdBytes(s)[k] == FileIdBytes(t)[k];
      assert HexValue(s[2 * k]) == HexValue(t[2 * k]) && HexValue(s[2 * k + 1]) == HexValue(t[2 * k + 1]);
    }
  }

  // ----- manifests

  datatype Manifest = Manifest(
    fileId: string, plaintextSize: int, chunkSize: int, chunkCount: int,
    salt: Bytes, noncePrefix: Bytes, encryptedMetadata: Bytes, version: int)

  /** The checks of EncryptedTransferManifest. */
  predicate ManifestOk(m: Manifest) {
    && IsFileId(m.fileId)
    && m.version == 1
    && 0 <= m.plaintextSize <= MAX_FILE_SIZE
    && m.chunkSize == CHUNK_SIZE
    && m.chunkCount == (m.plaintextSize + CHUNK_SIZE - 1) / CHUNK_SIZE
    && |m.salt| == 16
    && |m.noncePrefix| == 8
    && TAG_SIZE <= |m.encryptedMetadata| <= MAX_METADATA_SIZE + TAG_SIZE
  }

  function CiphertextSize(m: Manifest): int {
    m.plaintextSize + m.chunkCount * TAG_SIZE
  }

  function ExpectedLength(m: Manifest, index: int): int {
    Min(m.chunkSize, m.plaintextSize - index * m.chunkSize)
  }

  const METADATA_PREFIX := Ascii("XFERRY-EUF1-META") + [0]
  const CHUNK_PREFIX := Ascii("XFERRY-EUF1-CHUNK") + [0]
  const RESUME_PREFIX := Ascii("XFERRY-EUF1-RESUME") + [0]

  /** metadata_aad */
  function MetadataContext(m: Manifest): Option<Bytes>
    requires IsFileId(m.fileId)
  {
    var size :- Pack(m.plaintextSize, 8);
    var chunk :- Pack(m.chunkSize, 4);
    var count :- Pack(m.chunkCount, 4);
    Some(METADATA_PREFIX + FileIdBytes(m.fileId) + (size + chunk + count))
  }

  /** chunk_aad */
  function ChunkContext(m: Manifest, index: int, plaintextLength: int): Option<Bytes>
    requires IsFileId(m.fileId)
  {
    if !(0 <= index < m.chunkCount) || plaintextLength != ExpectedLength(m, index) then None else
    var size :- Pack(m.plaintextSize, 8);
    var chunk :- Pack(m.chunkSize, 4);
    var count :- Pack(m.chunkCount, 4);
    var i :- Pack(index, 4);
    var length :- Pack(plaintextLength, 4);
    Some(CHUNK_PREFIX + FileIdBytes(m.fileId) + (size + chunk + count + i + length))
  }

  /** _nonce */
  function Nonce(m: Manifest, index: int): Option<Bytes> {
    var i :- Pack(index, 4);
    Some(m.noncePrefix + i)
  }

  /** The message compute_resume_mac authenticates. */
  function ResumeMessage(m: Manifest, index: int, plaintext: Bytes): Option<Bytes>
    requires IsFileId(m.fileId)
  {
    var _ :- ChunkContext(m, index, |plaintext|);
    var i :- Pack(index, 4);
    var length :- Pack(|plaintext|, 4);
    Some(RESUME_PREFIX + FileIdBytes(m.fileId) + (i + length) + plaintext)
  }

  // ----- the cipher

  /** An authenticated cipher: encryption of (key, nonce, plaintext, context) and its inverse,
      which is None where authentication fails. */
  datatype Cipher = Cipher(
    enc: (Bytes, Bytes, Bytes, Bytes) -> Bytes,
    dec: (Bytes, Bytes, Bytes, Bytes) -> Option<Bytes>)

  ghost predicate Lawful(a: Cipher) {
    forall k, n, p, c ::
      a.dec(k, n, a.enc(k, n, p, c), c) == Some(p) && |a.enc(k, n, p, c)| == |p| + TAG_SIZE
  }

  /** encrypt_chunk */
  function EncryptChunk(a: Cipher, plaintext: Bytes, key: Bytes, m: Manifest, index: int): Option<Bytes>
    requires IsFileId(m.fileId)
  {
    if |key| != KEY_SIZE then None else
    var context :- ChunkContext(m, index, |plaintext|);
    var nonce :- Nonce(m, index);
    Some(a.enc(key, nonce, plaintext, context))
  }

  /** decrypt_chunk: it raises (outer None), reports failure (inner None) or returns a chunk. */
  function DecryptChunk(a: Cipher, ciphertext: Bytes, key: Bytes, m: Manifest, index: int): Option<Option<Bytes>>
    requires IsFileId(m.fileId)
  {
    if |key| != KEY_SIZE then None else
    var length := ExpectedLength(m, index);
    var context :- ChunkContext(m, index, length);
    if |ciphertext| != length + TAG_SIZE then Some(None) else
    var nonce :- Nonce(m, index);
    Some(a.dec(key, nonce, ciphertext, context))
  }

  // ----- splitting, encrypting and restoring a file

  /** The chunk of a file at an index, as slicing cuts it. */
  function Chunk(plaintext: Bytes, index: nat): Bytes {
    var from := index * CHUNK_SIZE;
    if from > |plaintext| then [] else plaintext[from..Min(from + CHUNK_SIZE, |plaintext|)]
  }

  function EncryptAll(a: Cipher, plaintext: Bytes, key: Bytes, m: Manifest, count: nat): Option<seq<Bytes>>
    requires IsFileId(m.fileId)
  {
    if count == 0 then Some([]) else
    var before :- EncryptAll(a, plaintext, key, m, count - 1);
    var last :- EncryptChunk(a, Chunk(plaintext, count - 1), key, m, count - 1);
    Some(before + [last])
  }

  /** Decrypting chunks 0, 1, ... in order and joining them; None when any fails. */
  function DecryptAll(a: Cipher, chunks: seq<Bytes>, key: Bytes, m: Manifest): Option<Bytes>
    requires IsFileId(m.fileId)
  {
    if chunks == [] then Some([]) else
    var before :- DecryptAll(a, chunks[..|chunks| - 1], key, m);
    var decrypted :- DecryptChunk(a, chunks[|chunks| - 1], key, m, |chunks| - 1);
    var last :- decrypted;
    Some(before + last)
  }

  function TotalLength(chunks: seq<Bytes>): nat {
    if chunks == [] then 0 else TotalLength(chunks[..|chunks| - 1]) + |chunks[|chunks| - 1]|
  }

  /** Every chunk of a file is full but the last, none is empty, and each has exactly the length
      its index prescribes; together they cover the file. */
  lemma ChunkLengths(plaintext: Bytes, m: Manifest, index: nat)
    requires ManifestOk(m) && m.plaintextSize == |plaintext| && index < m.chunkCount
    ensures |Chunk(plaintext, index)| == ExpectedLength(m, index)
    ensures 1 <= |Chunk(plaintext, index)| <= CHUNK_SIZE
    ensures index < m.chunkCount - 1 ==> |Chunk(plaintext, index)| == CHUNK_SIZE
    ensures plaintext[..index * CHUNK_SIZE] + Chunk(plaintext, index) ==
            plaintext[..Min((index + 1) * CHUNK_SIZE, |plaintext|)]
    ensures index == m.chunkCount - 1 ==> Min((index + 1) * CHUNK_SIZE, |plaintext|) == |plaintext|
  {
  }

  lemma {:induction false} PowersOf256()
    ensures Pow256(4) == 0x1_0000_0000 && Pow256(8) == 0x1_0000_0000_0000_0000
  {
    assert Pow256(1) == 256 && Pow256(2) == 0x1_0000 && Pow256(3) == 0x100_0000;
    assert Pow256(5) == 0x100_0000_0000 && Pow256(6) == 0x1_0000_0000_0000 && Pow256(7) == 0x100_0000_0000_0000;
  }

  /** No field of a valid manifest overflows its fixed width. */
  lemma ChunkContextExists(m: Manifest, index: nat)
    requires ManifestOk(m) && index < m.chunkCount
    ensures ChunkContext(m, index, ExpectedLength(m, index)).Some? && Nonce(m, index).Some?
  {
    PowersOf256();
    hide BigEndian, FileIdBytes, Pow256;
  }

  /** One chunk of the prescribed length survives encryption and decryption at its index. */
  lemma ChunkRoundTrip(a: Cipher, block: Bytes, key: Bytes, m: Manifest, index: nat)
    requires Lawful(a) && ManifestOk(m) && index < m.chunkCount && |key| == KEY_SIZE
    requires |block| == ExpectedLength(m, index)
    ensures EncryptChunk(a, block, key, m, index).Some?
    ensures var ciphertext := EncryptChunk(a, block, key, m, index).value;
            && |ciphertext| == |block| + TAG_SIZE
            && DecryptChunk(a, ciphertext, key, m, index) == Some(Some(block))
  {
    hide ChunkContext, Nonce, ExpectedLength;
    ChunkContextExists(m, index);
  }

  /** How much of a file its first chunks cover. */
  function Covered(plaintext: Bytes, count: nat): (n: nat)
    ensures n <= |plaintext|
  {
    Min(count * CHUNK_SIZE, |plaintext|)
  }

  lemma CoversOneMore(plaintext: Bytes, m: Manifest, count: nat)
    requires ManifestOk(m) && m.plaintextSize == |plaintext| && 0 < count <= m.chunkCount
    ensures |Chunk(plaintext, count - 1)| == ExpectedLength(m, count - 1)
    ensures plaintext[..Covered(plaintext, count - 1)] + Chunk(plaintext, count - 1) ==
            plaintext[..Covered(plaintext, count)]
    ensures Covered(plaintext, count) == Covered(plaintext, count - 1) + |Chunk(plaintext, count - 1)|
  {
    ChunkLengths(plaintext, m, count - 1);
  }

  lemma CoversAll(plaintext: Bytes, m: Manifest)
    requires ManifestOk(m) && m.plaintextSize == |plaintext|
    ensures Covered(plaintext, m.chunkCount) == |plaintext| && Covered(plaintext, 0) == 0
  {
  }

  lemma {:induction false} EncryptsPrefix(a: Cipher, plaintext: Bytes, key: Bytes, m: Manifest, count: nat)
    requires Lawful(a) && ManifestOk(m) && m.plaintextSize == |plaintext| && |key| == KEY_SIZE && count <= m.chunkCount
    ensures EncryptAll(a, plaintext, key, m, count).Some?
    ensures var chunks := EncryptAll(a, plaintext, key, m, count).value;
            && |chunks| == count
            && TotalLength(chunks) == Covered(plaintext, count) + count * TAG_SIZE
            && DecryptAll(a, chunks, key, m) == Some(plaintext[..Covered(plaintext, count)])
  {
    assert IsFileId(m.fileId);
    NoChunks(a, key, m);
    CoversAll(plaintext, m);
    hide EncryptChunk, DecryptChunk, Chunk, ManifestOk, Lawful, ExpectedLength, DecryptAll, TotalLength, Covered;
    if count > 0 {
      EncryptsPrefix(a, plaintext, key, m, count - 1);
      CoversOneMore(plaintext, m, count);
      ChunkRoundTrip(a, Chunk(plaintext, count - 1), key, m, count - 1);
      var before := EncryptAll(a, plaintext, key, m, count - 1).value;
      OneMoreChunk(a, before, EncryptChunk(a, Chunk(plaintext, count - 1), key, m, count - 1).value, key, m);
    }
  }

  lemma NoChunks(a: Cipher, key: Bytes, m: Manifest)
    requires IsFileId(m.fileId)
    ensures TotalLength([]) == 0 && DecryptAll(a, [], key, m) == Some([])
  {
  }

  lemma OneMoreChunk(a: Cipher, before: seq<Bytes>, last: Bytes, key: Bytes, m: Manifest)
    requires IsFileId(m.fileId)
    requires DecryptAll(a, before, key, m).Some?
    requires DecryptChunk(a, last, key, m, |before|).Some? && DecryptChunk(a, last, key, m, |before|).value.Some?
    ensures TotalLength(before + [last]) == TotalLength(before) + |last|
    ensures DecryptAll(a, before + [last], key, m) ==
            Some(DecryptAll(a, before, key, m).value + DecryptChunk(a, last, key, m, |before|).value.value)
  {
    hide DecryptChunk;
    assert (before + [last])[..|before|] == before;
  }

  /** Main result: any file of admissible size, split into chunks, encrypted chunk by chunk and
      decrypted in order, comes back as it was, and the ciphertext has exactly the size the
      manifest announces. */
  lemma FileRoundTrip(a: Cipher, plaintext: Bytes, key: Bytes, m: Manifest)
    requires Lawful(a) && ManifestOk(m) && m.plaintextSize == |plaintext| && |key| == KEY_SIZE
    ensures EncryptAll(a, plaintext, key, m, m.chunkCount).Some?
    ensures var chunks := EncryptAll(a, plaintext, key, m, m.chunkCount).value;
            && DecryptAll(a, chunks, key, m) == Some(plaintext)
            && TotalLength(chunks) == CiphertextSize(m)
  {
    assert IsFileId(m.fileId) && m.chunkCount >= 0;
    assert plaintext[..|plaintext|] == plaintext;
    CoversAll(plaintext, m);
    hide Covered, EncryptAll, DecryptAll, ManifestOk, TotalLength, Lawful, IsFileId, Min, Chunk, EncryptChunk,
         DecryptChunk;
    EncryptsPrefix(a, plaintext, key, m, m.chunkCount);
  }

  // ----- no two contexts, nonces or messages collide

  lemma PackInjective(a: int, b: int, width: nat)
    requires Pack(a, width).Some? && Pack(a, width) == Pack(b, width)
    ensures a == b
  {
    BigEndianRoundTrip(a, width);
    BigEndianRoundTrip(b, width);
  }

  /** Cutting equal concatenations at equal lengths. */
  lemma SplitEqual(a: Bytes, b: Bytes, c: Bytes, d: Bytes)
    requires a + b == c + d && |a| == |c|
    ensures a == c && b == d
  {
    assert a == (a + b)[..|a|] && c == (c + d)[..|c|];
    assert b == (a + b)[|a|..] && d == (c + d)[|c|..];
  }

  /** One manifest never uses a nonce twice: chunk indices and the metadata index, which no chunk
      reaches, all give different nonces. */
  lemma NoncesDistinct(m: Manifest, i: int, j: int)
    requires ManifestOk(m) && i != j
    requires (0 <= i < m.chunkCount || i == METADATA_INDEX) && (0 <= j < m.chunkCount || j == METADATA_INDEX)
    ensures Nonce(m, i).Some? && Nonce(m, j).Some? && Nonce(m, i) != Nonce(m, j)
    ensures |Nonce(m, i).value| == 12
  {
    PowersOf256();
    if Nonce(m, i) == Nonce(m, j) {
      SplitEqual(m.noncePrefix, Pack(i, 4).value, m.noncePrefix, Pack(j, 4).value);
      PackInjective(i, j, 4);
    }
  }

  /** A chunk's context determines the file, all its sizes, the position and the chunk length. */
  lemma ChunkContextInjective(m: Manifest, i: int, p: int, n: Manifest, j: int, q: int)
    requires IsFileId(m.fileId) && IsFileId(n.fileId)
    requires ChunkContext(m, i, p).Some? && ChunkContext(m, i, p) == ChunkContext(n, j, q)
    ensures m.fileId == n.fileId && m.plaintextSize == n.plaintextSize && m.chunkSize == n.chunkSize
            && m.chunkCount == n.chunkCount && i == j && p == q
  {
    hide BigEndian, Pow256, FileIdBytes, ExpectedLength;
    var (a, b) := (ChunkFields(m, i, p), ChunkFields(n, j, q));
    SplitEqual(CHUNK_PREFIX + FileIdBytes(m.fileId), a, CHUNK_PREFIX + FileIdBytes(n.fileId), b);
    SplitEqual(CHUNK_PREFIX, FileIdBytes(m.fileId), CHUNK_PREFIX, FileIdBytes(n.fileId));
    FileIdInjective(m.fileId, n.fileId);
    var s, t := Pack(m.plaintextSize, 8).value, Pack(n.plaintextSize, 8).value;
    var c, d := Pack(m.chunkSize, 4).value, Pack(n.chunkSize, 4).value;
    var k, l := Pack(m.chunkCount, 4).value, Pack(n.chunkCount, 4).value;
    var x, y := Pack(i, 4).value, Pack(j, 4).value;
    SplitEqual(s + c + k + x, Pack(p, 4).value, t + d + l + y, Pack(q, 4).value);
    SplitEqual(s + c + k, x, t + d + l, y);
    SplitEqual(s + c, k, t + d, l);
    SplitEqual(s, c, t, d);
    PackInjective(m.plaintextSize, n.plaintextSize, 8);
    PackInjective(m.chunkSize, n.chunkSize, 4);
    PackInjective(m.chunkCount, n.chunkCount, 4);
    PackInjective(i, j, 4);
    PackInjective(p, q, 4);
  }

  function ChunkFields(m: Manifest, i: int, p: int): Bytes
    requires Pack(m.plaintextSize, 8).Some? && Pack(m.chunkSize, 4).Some? && Pack(m.chunkCount, 4).Some?
    requires Pack(i, 4).Some? && Pack(p, 4).Some?
  {
    Pack(m.plaintextSize, 8).value + Pack(m.chunkSize, 4).value + Pack(m.chunkCount, 4).value
    + Pack(i, 4).value + Pack(p, 4).value
  }

  /** The metadata context determines the file and all its sizes. */
  lemma MetadataContextInjective(m: Manifest, n: Manifest)
    requires IsFileId(m.fileId) && IsFileId(n.fileId)
    requires MetadataContext(m).Some? && MetadataContext(m) == MetadataContext(n)
    ensures m.fileId == n.fileId && m.plaintextSize == n.plaintextSize && m.chunkSize == n.chunkSize
            && m.chunkCount == n.chunkCount
  {
    hide BigEndian, Pow256, FileIdBytes;
    var s, t := Pack(m.plaintextSize, 8).value, Pack(n.plaintextSize, 8).value;
    var c, d := Pack(m.chunkSize, 4).value, Pack(n.chunkSize, 4).value;
    var k, l := Pack(m.chunkCount, 4).value, Pack(n.chunkCount, 4).value;
    SplitEqual(METADATA_PREFIX + FileIdBytes(m.fileId), s + c + k, METADATA_PREFIX + FileIdBytes(n.fileId), t + d + l);
    SplitEqual(METADATA_PREFIX, FileIdBytes(m.fileId), METADATA_PREFIX, FileIdBytes(n.fileId));
    FileIdInjective(m.fileId, n.fileId);
    SplitEqual(s + c, k, t + d, l);
    SplitEqual(s, c, t, d);
    PackInjective(m.plaintextSize, n.plaintextSize, 8);
    PackInjective(m.chunkSize, n.chunkSize, 4);
    PackInjective(m.chunkCount, n.chunkCount, 4);
  }

  /** A resume message determines the file, the position and the plaintext. */
  lemma ResumeMessageInjective(m: Manifest, i: int, p: Bytes, n: Manifest, j: int, q: Bytes)
    requires IsFileId(m.fileId) && IsFileId(n.fileId)
    requires ResumeMessage(m, i, p).Some? && ResumeMessage(m, i, p) == ResumeMessage(n, j, q)
    ensures m.fileId == n.fileId && i == j && p == q
  {
    hide BigEndian, Pow256, FileIdBytes, ChunkContext;
    var x, y := Pack(i, 4).value + Pack(|p|, 4).value, Pack(j, 4).value + Pack(|q|, 4).value;
    SplitEqual(RESUME_PREFIX + FileIdBytes(m.fileId) + x, p, RESUME_PREFIX + FileIdBytes(n.fileId) + y, q);
    SplitEqual(RESUME_PREFIX + FileIdBytes(m.fileId), x, RESUME_PREFIX + FileIdBytes(n.fileId), y);
    SplitEqual(RESUME_PREFIX, FileIdBytes(m.fileId), RESUME_PREFIX, FileIdBytes(n.fileId));
    FileIdInjective(m.fileId, n.fileId);
    SplitEqual(Pack(i, 4).value, Pack(|p|, 4).value, Pack(j, 4).value, Pack(|q|, 4).value);
    PackInjective(i, j, 4);
  }

  /** The three kinds of authenticated bytes never coincide. */
  lemma DomainsSeparate(m: Manifest, n: Manifest, k: Manifest, i: int, p: int, j: int, q: Bytes)
    requires IsFileId(m.fileId) && IsFileId(n.fileId) && IsFileId(k.fileId)
    requires MetadataContext(m).Some? && ChunkContext(n, i, p).Some? && ResumeMessage(k, j, q).Some?
    ensures MetadataContext(m) != ChunkContext(n, i, p)
    ensures MetadataContext(m) != ResumeMessage(k, j, q)
    ensures ChunkContext(n, i, p) != ResumeMessage(k, j, q)
  {
    hide BigEndian, Pow256, FileIdBytes, ExpectedLength, Pack;
    assert MetadataContext(m).value[12] == METADATA_PREFIX[12] == 77;
    assert ChunkContext(n, i, p).value[12] == CHUNK_PREFIX[12] == 67;
    assert ResumeMessage(k, j, q).value[12] == RESUME_PREFIX[12] == 82;
  }
}
