/** What xferry/encrypted_transfer.py hands to its cipher and its MAC, byte by byte, and what an
    observer who sees only nonces or only contexts can tell apart. */
module EncryptedContexts {
  import opened Wrappers
  import opened ByteStrings
  import opened EncryptedTransfer

  const HEX := "0123456789abcdef"

  /** The bytes at a position, read as one unsigned big-endian integer. */
  predicate Field(b: Bytes, from: nat, width: nat, value: int) {
    from + width <= |b| && Number(b[from..from + width]) == value
  }

  /** Sixteen bytes whose hexadecimal digits spell the ID. */
  predicate Spells(b: Bytes, id: string) {
    && |id| == 2 * |b| == 32
    && forall i | 0 <= i < 16 :: id[2 * i] == HEX[b[i] / 16] && id[2 * i + 1] == HEX[b[i] % 16]
  }

  /** The nonce of one index: the file's prefix and then the index. */
  predicate NonceFor(n: Bytes, m: Manifest, index: int) {
    |n| == 12 && n[..8] == m.noncePrefix && Field(n, 8, 4, index)
  }

  /** The authenticated context of one chunk. */
  predicate ChunkContextFor(c: Bytes, m: Manifest, index: int, length: int) {
    && |c| == 58
    && c[..18] == Ascii("XFERRY-EUF1-CHUNK") + [0]
    && Spells(c[18..34], m.fileId)
    && Field(c, 34, 8, m.plaintextSize) && Field(c, 42, 4, m.chunkSize) && Field(c, 46, 4, m.chunkCount)
    && Field(c, 50, 4, index) && Field(c, 54, 4, length)
  }

  lemma HexSpells(id: string)
    requires IsFileId(id)
    ensures Spells(FileIdBytes(id), id)
  {
    forall i | 0 <= i < 16
      ensures id[2 * i] == HEX[FileIdBytes(id)[i] / 16] && id[2 * i + 1] == HEX[FileIdBytes(id)[i] % 16]
    {
      HexByte(id[2 * i], id[2 * i + 1], FileIdBytes(id)[i]);
    }
  }

  lemma HexByte(high: char, low: char, b: Byte)
    requires IsHexChar(high) && IsHexChar(low) && b == HexValue(high) * 16 + HexValue(low)
    ensures high == HEX[b / 16] && low == HEX[b % 16]
  {
    hide HexValue;
    HexPair(HexValue(high), HexValue(low));
    HexDigit(high);
    HexDigit(low);
  }

  lemma HexPair(high: nat, low: nat)
    requires low < 16
    ensures (high * 16 + low) / 16 == high && (high * 16 + low) % 16 == low
  {
  }

  lemma HexDigit(c: char)
    requires IsHexChar(c)
    ensures HEX[HexValue(c)] == c
  {
  }

  /** One field in the middle of a longer text. */
  lemma FieldInside(a: Bytes, value: int, width: nat, b: Bytes)
    requires Pack(value, width).Some?
    ensures |a + Pack(value, width).value + b| == |a| + width + |b|
    ensures Field(a + Pack(value, width).value + b, |a|, width, value)
  {
    hide BigEndian, Number;
    var f := Pack(value, width).value;
    BigEndianRoundTrip(value, width);
    assert (a + f + b)[|a|..|a| + width] == f;
  }

  lemma NonceIs(m: Manifest, index: int)
    requires |m.noncePrefix| == 8 && Nonce(m, index).Some?
    ensures NonceFor(Nonce(m, index).value, m, index)
  {
    FieldInside(m.noncePrefix, index, 4, []);
    assert Nonce(m, index).value == m.noncePrefix + Pack(index, 4).value + [];
    assert Nonce(m, index).value[..8] == m.noncePrefix;
  }

  /** A domain prefix, the file ID, and the fields that follow. */
  lemma Header(prefix: Bytes, id: string, fields: Bytes)
    requires IsFileId(id)
    ensures var c := prefix + FileIdBytes(id) + fields;
            && c[..|prefix|] == prefix && Spells(c[|prefix|..|prefix| + 16], id) && c[|prefix| + 16..] == fields
  {
    hide FileIdBytes, Spells;
    HexSpells(id);
    var c := prefix + FileIdBytes(id) + fields;
    assert c[|prefix|..|prefix| + 16] == FileIdBytes(id);
  }

  /** Five fields in a row, of eight, four, four, four and four bytes. */
  lemma FiveFields(head: Bytes, v: int, w: int, x: int, y: int, z: int)
    requires Pack(v, 8).Some? && Pack(w, 4).Some? && Pack(x, 4).Some? && Pack(y, 4).Some? && Pack(z, 4).Some?
    ensures var s := Pack(v, 8).value + Pack(w, 4).value + Pack(x, 4).value + Pack(y, 4).value + Pack(z, 4).value;
            var c := head + s;
            && |c| == |head| + 24
            && Field(c, |head|, 8, v) && Field(c, |head| + 8, 4, w) && Field(c, |head| + 12, 4, x)
            && Field(c, |head| + 16, 4, y) && Field(c, |head| + 20, 4, z)
  {
    hide BigEndian, Number, Pow256, Field;
    var a, b, c, d, e := Pack(v, 8).value, Pack(w, 4).value, Pack(x, 4).value, Pack(y, 4).value, Pack(z, 4).value;
    var all := head + (a + b + c + d + e);
    FieldInside(head, v, 8, b + c + d + e);
    assert all == head + a + (b + c + d + e);
    FieldInside(head + a, w, 4, c + d + e);
    assert all == (head + a) + b + (c + d + e);
    FieldInside(head + a + b, x, 4, d + e);
    assert all == (head + a + b) + c + (d + e);
    FieldInside(head + a + b + c, y, 4, e);
    assert all == (head + a + b + c) + d + e;
    FieldInside(head + a + b + c + d, z, 4, []);
    assert all == (head + a + b + c + d) + e + [];
  }

  lemma PrefixLengths()
    ensures |CHUNK_PREFIX| == 18 && |METADATA_PREFIX| == 17 && |RESUME_PREFIX| == 19
  {
  }

  lemma ChunkContextIs(m: Manifest, index: int, length: int)
    requires IsFileId(m.fileId) && ChunkContext(m, index, length).Some?
    ensures ChunkContextFor(ChunkContext(m, index, length).value, m, index, length)
  {
    PrefixLengths();
    hide BigEndian, Number, Pow256, Field, FileIdBytes, Spells, ExpectedLength;
    Header(CHUNK_PREFIX, m.fileId, ChunkFields(m, index, length));
    FiveFields(CHUNK_PREFIX + FileIdBytes(m.fileId), m.plaintextSize, m.chunkSize, m.chunkCount, index, length);
  }

  /** A manifest is valid exactly when it is EUF version 1 for a file of at most 32 GiB in the least
      number of 8 MiB chunks, with a 32-digit ID, 16 bytes of salt, 8 of nonce prefix and between 16
      and 4112 of encrypted metadata. */
  lemma ManifestIsOkExactly(m: Manifest)
    ensures ManifestOk(m) <==>
            && |m.fileId| == 32 && (forall i | 0 <= i < 32 :: m.fileId[i] in "0123456789abcdef")
            && m.version == 1 && m.plaintextSize <= 34359738368 && m.chunkSize == 8388608
            && 8388608 * (m.chunkCount - 1) < m.plaintextSize <= 8388608 * m.chunkCount
            && m.plaintextSize >= 0
            && |m.salt| == 16 && |m.noncePrefix| == 8 && 16 <= |m.encryptedMetadata| <= 4112
  {
    forall c: char ensures c in "0123456789abcdef" <==> '0' <= c <= '9' || 'a' <= c <= 'f' {
      HexDigitIs(c);
    }
    assert (m.plaintextSize + 8388607) / 8388608 == m.chunkCount <==>
           8388608 * (m.chunkCount - 1) < m.plaintextSize <= 8388608 * m.chunkCount;
  }

  lemma HexDigitIs(c: char)
    ensures c in "0123456789abcdef" <==> '0' <= c <= '9' || 'a' <= c <= 'f'
  {
    var digits := "0123456789abcdef";
    if '0' <= c <= '9' {
      assert digits[c as int - '0' as int] == c;
    } else if 'a' <= c <= 'f' {
      assert digits[c as int - 'a' as int + 10] == c;
    }
  }

  /** Main result: encrypting a chunk is one call of the cipher, on the chunk itself, under the
      caller's key, the nonce of this index and the context of this file, position and length,
      whatever cipher it is. */
  lemma ChunkEncryption(m: Manifest, index: int, plaintext: Bytes, key: Bytes) returns (nonce: Bytes, context: Bytes)
    requires ManifestOk(m) && 0 <= index < m.chunkCount && |plaintext| == ExpectedLength(m, index) && |key| == 32
    ensures NonceFor(nonce, m, index) && ChunkContextFor(context, m, index, |plaintext|)
    ensures forall a: Cipher :: EncryptChunk(a, plaintext, key, m, index) == Some(a.enc(key, nonce, plaintext, context))
    ensures forall a: Cipher, ciphertext: Bytes | |ciphertext| == |plaintext| + 16 ::
              DecryptChunk(a, ciphertext, key, m, index) == Some(a.dec(key, nonce, ciphertext, context))
  {
    ChunkContextExists(m, index);
    hide ChunkContext, Nonce, ExpectedLength;
    nonce, context := Nonce(m, index).value, ChunkContext(m, index, |plaintext|).value;
    NonceIs(m, index);
    ChunkContextIs(m, index, |plaintext|);
  }

  /** Nothing but a chunk of the prescribed length at an index of the file, under a 32-byte key, is
      ever encrypted. */
  lemma OnlyChunksAreEncrypted(a: Cipher, plaintext: Bytes, key: Bytes, m: Manifest, index: int)
    requires ManifestOk(m)
    ensures EncryptChunk(a, plaintext, key, m, index).Some? <==>
            && |key| == 32 && 0 <= index < m.chunkCount
            && |plaintext| == if index < m.chunkCount - 1 then 8388608 else m.plaintextSize - 8388608 * index
  {
    if |key| == 32 && 0 <= index < m.chunkCount && |plaintext| == ExpectedLength(m, index) {
      ChunkContextExists(m, index);
    }
  }

  /** A cipher whose ciphertexts differ wherever nonces do shows that no two chunks of a file are
      encrypted under one nonce. */
  lemma NoNonceIsReused(a: Cipher, m: Manifest, i: int, p: Bytes, j: int, q: Bytes, key: Bytes, other: Bytes)
    requires forall k, n, x, c, k', n', x', c' :: a.enc(k, n, x, c) == a.enc(k', n', x', c') ==> n == n'
    requires ManifestOk(m)
    requires EncryptChunk(a, p, key, m, i).Some? && EncryptChunk(a, p, key, m, i) == EncryptChunk(a, q, other, m, j)
    ensures i == j
  {
    OnlyChunksAreEncrypted(a, p, key, m, i);
    OnlyChunksAreEncrypted(a, q, other, m, j);
    hide EncryptChunk, DecryptChunk, ManifestOk, ChunkContextFor;
    var n, c := ChunkEncryption(m, i, p, key);
    var n', c' := ChunkEncryption(m, j, q, other);
    assert n == n';
  }

  /** A cipher that shows only its context shows that ciphertexts are bound to their file, its
      sizes, their position and their length. */
  lemma CiphertextsAreBound(a: Cipher, m: Manifest, i: int, p: Bytes, key: Bytes, n: Manifest, j: int, q: Bytes,
                            other: Bytes)
    requires forall k, x, y, c, k', x', y', c' :: a.enc(k, x, y, c) == a.enc(k', x', y', c') ==> c == c'
    requires ManifestOk(m) && ManifestOk(n)
    requires EncryptChunk(a, p, key, m, i).Some? && EncryptChunk(a, p, key, m, i) == EncryptChunk(a, q, other, n, j)
    ensures m.fileId == n.fileId && m.plaintextSize == n.plaintextSize && i == j && |p| == |q|
  {
    OnlyChunksAreEncrypted(a, p, key, m, i);
    OnlyChunksAreEncrypted(a, q, other, n, j);
    hide EncryptChunk, DecryptChunk, ManifestOk, NonceFor, Number;
    var x, c := ChunkEncryption(m, i, p, key);
    var x', c' := ChunkEncryption(n, j, q, other);
    assert c == c';
    SpelledOnce(c[18..34], m.fileId, n.fileId);
  }

  lemma SpelledOnce(b: Bytes, s: string, t: string)
    requires Spells(b, s) && Spells(b, t)
    ensures s == t
  {
    forall i | 0 <= i < 32 ensures s[i] == t[i] {
      var k := i / 2;
      assert s[2 * k] == t[2 * k] && s[2 * k + 1] == t[2 * k + 1];
    }
  }

  /** Three fields in a row, of eight, four and four bytes. */
  lemma ThreeFields(head: Bytes, v: int, w: int, x: int)
    requires Pack(v, 8).Some? && Pack(w, 4).Some? && Pack(x, 4).Some?
    ensures var c := head + (Pack(v, 8).value + Pack(w, 4).value + Pack(x, 4).value);
            && |c| == |head| + 16
            && Field(c, |head|, 8, v) && Field(c, |head| + 8, 4, w) && Field(c, |head| + 12, 4, x)
  {
    hide BigEndian, Number, Pow256, Field;
    var a, b, d := Pack(v, 8).value, Pack(w, 4).value, Pack(x, 4).value;
    var all := head + (a + b + d);
    FieldInside(head, v, 8, b + d);
    assert all == head + a + (b + d);
    FieldInside(head + a, w, 4, d);
    assert all == (head + a) + b + d;
    FieldInside(head + a + b, x, 4, []);
    assert all == (head + a + b) + d + [];
  }

  /** The authenticated context of the metadata. */
  predicate MetadataContextFor(c: Bytes, m: Manifest) {
    && |c| == 49
    && c[..17] == Ascii("XFERRY-EUF1-META") + [0]
    && Spells(c[17..33], m.fileId)
    && Field(c, 33, 8, m.plaintextSize) && Field(c, 41, 4, m.chunkSize) && Field(c, 45, 4, m.chunkCount)
  }

  /** The metadata's nonce and context. */
  lemma MetadataEncryption(m: Manifest)
    requires ManifestOk(m)
    ensures MetadataContext(m).Some? && Nonce(m, METADATA_INDEX).Some?
    ensures NonceFor(Nonce(m, METADATA_INDEX).value, m, 4294967295)
    ensures MetadataContextFor(MetadataContext(m).value, m)
  {
    PowersOf256();
    PrefixLengths();
    NonceIs(m, METADATA_INDEX);
    hide BigEndian, Number, Pow256, Field, FileIdBytes, Spells, NonceFor, IsFileId;
    Header(METADATA_PREFIX, m.fileId,
           Pack(m.plaintextSize, 8).value + Pack(m.chunkSize, 4).value + Pack(m.chunkCount, 4).value);
    ThreeFields(METADATA_PREFIX + FileIdBytes(m.fileId), m.plaintextSize, m.chunkSize, m.chunkCount);
  }

  /** The message a resume MAC authenticates. */
  lemma ResumeMessageIs(m: Manifest, index: int, plaintext: Bytes)
    requires IsFileId(m.fileId) && ResumeMessage(m, index, plaintext).Some?
    ensures var c := ResumeMessage(m, index, plaintext).value;
            && |c| == 43 + |plaintext|
            && c[..19] == Ascii("XFERRY-EUF1-RESUME") + [0]
            && Spells(c[19..35], m.fileId)
            && Field(c, 35, 4, index) && Field(c, 39, 4, |plaintext|)
            && c[43..] == plaintext
  {
    PrefixLengths();
    hide BigEndian, Number, Pow256, Field, FileIdBytes, Spells, ChunkContext;
    var i, k := Pack(index, 4).value, Pack(|plaintext|, 4).value;
    Header(RESUME_PREFIX, m.fileId, i + k + plaintext);
    var head := RESUME_PREFIX + FileIdBytes(m.fileId);
    var c := ResumeMessage(m, index, plaintext).value;
    assert c == head + (i + k + plaintext);
    FieldInside(head, index, 4, k + plaintext);
    assert c == head + i + (k + plaintext);
    FieldInside(head + i, |plaintext|, 4, plaintext);
    assert c == (head + i) + k + plaintext;
  }
}
