/** Canonical unpadded base64url (sections 3.5 and 5 of RFC 4648), as
    xferry/encrypted_transfer.py and the session tokens use it. */
module Base64Url {
  import opened Wrappers
  import opened ByteStrings

  type Sextet = x: int | 0 <= x < 64

  function CharOf(x: Sextet): char {
    if x < 26 then 'A' + x as char
    else if x < 52 then 'a' + (x - 26) as char
    else if x < 62 then '0' + (x - 52) as char
    else if x == 62 then '-'
    else '_'
  }

  predicate InAlphabet(c: char) {
    'A' <= c <= 'Z' || 'a' <= c <= 'z' || '0' <= c <= '9' || c == '-' || c == '_'
  }

  function SextetOf(c: char): Sextet
    requires InAlphabet(c)
  {
    if 'A' <= c <= 'Z' then (c - 'A') as int
    else if 'a' <= c <= 'z' then (c - 'a') as int + 26
    else if '0' <= c <= '9' then (c - '0') as int + 52
    else if c == '-' then 62
    else 63
  }

  /** The four sextets of three bytes; missing bytes read as zero. */
  function Split(a: int, b: int, c: int): (int, int, int, int) {
    (a / 4, a % 4 * 16 + b / 16, b % 16 * 4 + c / 64, c % 64)
  }

  /** The three bytes of four sextets. */
  function Join(p: int, q: int, r: int, s: int): (int, int, int) {
    (p * 4 + q / 16, q % 16 * 16 + r / 4, r % 4 * 64 + s)
  }

  function Sextets(data: Bytes): seq<Sextet> {
    if |data| == 0 then []
    else if |data| == 1 then var (p, q, _, _) := Split(data[0], 0, 0); [p, q]
    else if |data| == 2 then var (p, q, r, _) := Split(data[0], data[1], 0); [p, q, r]
    else var (p, q, r, s) := Split(data[0], data[1], data[2]); [p, q, r, s] + Sextets(data[3..])
  }

  /** Decoding as base64.b64decode does it: bits left over in the last sextet are dropped. */
  function BytesOf(s: seq<Sextet>): Bytes {
    if |s| < 2 then []
    else if |s| == 2 then [Join(s[0], s[1], 0, 0).0]
    else if |s| == 3 then var (a, b, _) := Join(s[0], s[1], s[2], 0); [a, b]
    else var (a, b, c) := Join(s[0], s[1], s[2], s[3]); [a, b, c] + BytesOf(s[4..])
  }

  function Chars(s: seq<Sextet>): string {
    seq(|s|, i requires 0 <= i < |s| => CharOf(s[i]))
  }

  predicate AlphabetOnly(value: string) {
    forall i | 0 <= i < |value| :: InAlphabet(value[i])
  }

  function Values(value: string): seq<Sextet>
    requires AlphabetOnly(value)
  {
    seq(|value|, i requires 0 <= i < |value| => SextetOf(value[i]))
  }

  /** b64url_encode */
  function Encode(data: Bytes): string {
    Chars(Sextets(data))
  }

  /** b64url_decode: decode leniently, then accept only what encoding gives back. */
  function Decode(value: string): Option<Bytes> {
    if !AlphabetOnly(value) || |value| % 4 == 1 then None else
    var decoded := BytesOf(Values(value));
    if Encode(decoded) != value then None else Some(decoded)
  }

  /** The text that encoding can produce: no character outside the alphabet, no length that
      leaves six bits over, and no unused bit set in the last sextet. */
  predicate Canonical(value: string) {
    && AlphabetOnly(value)
    && |value| % 4 != 1
    && (|value| % 4 == 2 ==> SextetOf(value[|value| - 1]) % 16 == 0)
    && (|value| % 4 == 3 ==> SextetOf(value[|value| - 1]) % 4 == 0)
  }

  // ----- characters

  lemma CharRoundTrip(x: Sextet)
    ensures InAlphabet(CharOf(x)) && SextetOf(CharOf(x)) == x
  {
  }

  lemma SextetRoundTrip(c: char)
    requires InAlphabet(c)
    ensures CharOf(SextetOf(c)) == c
  {
  }

  lemma CharsRoundTrip(s: seq<Sextet>)
    ensures AlphabetOnly(Chars(s)) && Values(Chars(s)) == s
  {
    forall i | 0 <= i < |s| ensures InAlphabet(Chars(s)[i]) && SextetOf(Chars(s)[i]) == s[i] {
      CharRoundTrip(s[i]);
    }
  }

  lemma ValuesRoundTrip(value: string)
    requires AlphabetOnly(value)
    ensures Chars(Values(value)) == value
  {
    forall i | 0 <= i < |value| ensures Chars(Values(value))[i] == value[i] {
      SextetRoundTrip(value[i]);
    }
  }

  // ----- groups

  function EncodedLength(n: nat): nat {
    n / 3 * 4 + (if n % 3 == 0 then 0 else n % 3 + 1)
  }

  /** Digits come apart as they were put together, in the three bases the grouping uses. */
  lemma Digits(high: int, low: nat)
    ensures low < 4 ==> (high * 4 + low) / 4 == high && (high * 4 + low) % 4 == low
    ensures low < 16 ==> (high * 16 + low) / 16 == high && (high * 16 + low) % 16 == low
    ensures low < 64 ==> (high * 64 + low) / 64 == high && (high * 64 + low) % 64 == low
  {
  }

  lemma JoinSplit(a: Byte, b: Byte, c: Byte)
    ensures var (p, q, r, s) := Split(a, b, c); Join(p, q, r, s) == (a, b, c)
  {
    Digits(a % 4, b / 16);
    Digits(b % 16, c / 64);
  }

  lemma SplitJoin(p: Sextet, q: Sextet, r: Sextet, s: Sextet)
    ensures var (a, b, c) := Join(p, q, r, s);
            && Split(a, b, c) == (p, q, r, s)
            && Split(a, b, 0) == (p, q, r / 4 * 4, 0)
            && Split(a, 0, 0) == (p, q / 16 * 16, 0, 0)
  {
    Digits(p, q / 16);
    Digits(q % 16, r / 4);
    Digits(r % 4, s);
  }

  lemma {:induction false} GroupsRoundTrip(data: Bytes)
    ensures BytesOf(Sextets(data)) == data
    ensures |Sextets(data)| == EncodedLength(|data|)
  {
    if |data| == 1 {
      JoinSplit(data[0], 0, 0);
    } else if |data| == 2 {
      JoinSplit(data[0], data[1], 0);
    } else if |data| >= 3 {
      JoinSplit(data[0], data[1], data[2]);
      GroupsRoundTrip(data[3..]);
      assert Sextets(data)[4..] == Sextets(data[3..]);
      assert data == [data[0], data[1], data[2]] + data[3..];
    }
  }

  predicate UnusedBitsZero(s: seq<Sextet>) {
    && |s| % 4 != 1
    && (|s| % 4 == 2 ==> s[|s| - 1] % 16 == 0)
    && (|s| % 4 == 3 ==> s[|s| - 1] % 4 == 0)
  }

  lemma BytesUnfold(s: seq<Sextet>)
    requires |s| >= 4
    ensures var (a, b, c) := Join(s[0], s[1], s[2], s[3]); BytesOf(s) == [a, b, c] + BytesOf(s[4..])
  {
  }

  lemma SextetsUnfold(data: Bytes)
    requires |data| >= 3
    ensures var (p, q, r, s) := Split(data[0], data[1], data[2]); Sextets(data) == [p, q, r, s] + Sextets(data[3..])
  {
  }

  lemma SextetsStep(s: seq<Sextet>)
    requires |s| >= 4
    ensures Sextets(BytesOf(s)) == s[..4] + Sextets(BytesOf(s[4..]))
  {
    hide Split, Join, Sextets, BytesOf;
    var (a, b, c) := Join(s[0], s[1], s[2], s[3]);
    GroupRoundTrip(s[0], s[1], s[2], s[3]);
    BytesUnfold(s);
    var data := BytesOf(s);
    assert data[0] == a && data[1] == b && data[2] == c && data[3..] == BytesOf(s[4..]);
    SextetsUnfold(data);
    FirstFour(s);
  }

  lemma FirstFour<T>(s: seq<T>)
    requires |s| >= 4
    ensures s[..4] == [s[0], s[1], s[2], s[3]]
  {
  }

  lemma GroupRoundTrip(p: Sextet, q: Sextet, r: Sextet, s: Sextet)
    ensures var (a, b, c) := Join(p, q, r, s); Split(a, b, c) == (p, q, r, s)
  {
    SplitJoin(p, q, r, s);
    hide Split, Join;
  }

  lemma UnusedBitsStep(s: seq<Sextet>)
    requires |s| > 4
    ensures UnusedBitsZero(s) <==> UnusedBitsZero(s[4..])
  {
    assert s[4..][|s| - 5] == s[|s| - 1];
  }

  /** Re-encoding gives the sextets back exactly when no unused bit is set. */
  lemma {:induction false} SextetsRoundTrip(s: seq<Sextet>)
    requires |s| % 4 != 1
    ensures Sextets(BytesOf(s)) == s <==> UnusedBitsZero(s)
    ensures |Sextets(BytesOf(s))| == |s|
  {
    if |s| < 4 {
      ShortRoundTrip(s);
    } else {
      hide Sextets, BytesOf, UnusedBitsZero;
      SextetsRoundTrip(s[4..]);
      SextetsStep(s);
      assert s == s[..4] + s[4..];
      if |s| == 4 {
        NoBitsUnused(s);
        ShortRoundTrip(s[4..]);
      } else {
        UnusedBitsStep(s);
      }
    }
  }

  lemma NoBitsUnused(s: seq<Sextet>)
    requires |s| % 4 == 0
    ensures UnusedBitsZero(s)
  {
  }

  lemma ShortRoundTrip(s: seq<Sextet>)
    requires |s| < 4 && |s| != 1
    ensures Sextets(BytesOf(s)) == s <==> UnusedBitsZero(s)
    ensures |Sextets(BytesOf(s))| == |s|
  {
    hide Split, Join;
    if |s| == 2 {
      SplitJoin(s[0], s[1], 0, 0);
      assert Sextets(BytesOf(s)) == [s[0], s[1] / 16 * 16];
    } else if |s| == 3 {
      SplitJoin(s[0], s[1], s[2], 0);
      assert Sextets(BytesOf(s)) == [s[0], s[1], s[2] / 4 * 4];
    }
  }

  // ----- the codec

  /** Decoding inverts encoding on all byte strings. */
  lemma DecodeInvertsEncode(data: Bytes)
    ensures Decode(Encode(data)) == Some(data)
  {
    hide Sextets, BytesOf, SextetOf, CharOf;
    assert EncodedLength(|data|) % 4 != 1;
    GroupsRoundTrip(data);
    CharsRoundTrip(Sextets(data));
  }

  /** Decoding accepts exactly the canonical texts, and each is the encoding of what it decodes to. */
  lemma DecodeAcceptsCanonical(value: string)
    ensures Decode(value).Some? <==> Canonical(value)
    ensures Decode(value).Some? ==> Encode(Decode(value).value) == value
  {
    if AlphabetOnly(value) && |value| % 4 != 1 {
      var s := Values(value);
      SextetsRoundTrip(s);
      ValuesRoundTrip(value);
      CharsRoundTrip(Sextets(BytesOf(s)));
      assert Encode(BytesOf(s)) == value <==> Sextets(BytesOf(s)) == s;
    }
  }

  lemma EncodeInjective(a: Bytes, b: Bytes)
    requires Encode(a) == Encode(b)
    ensures a == b
  {
    DecodeInvertsEncode(a);
    DecodeInvertsEncode(b);
  }

  lemma DecodeInjective(v: string, w: string)
    requires Decode(v).Some? && Decode(v) == Decode(w)
    ensures v == w
  {
    DecodeAcceptsCanonical(v);
    DecodeAcceptsCanonical(w);
  }

  /** 32 random bytes make a 43-character session token. */
  lemma TokenLength(data: Bytes)
    requires |data| == 32
    ensures |Encode(data)| == 43
  {
    GroupsRoundTrip(data);
  }

  // ----- what the text denotes

  const UPPER := "ABCDEFGHIJKLMNOPQRSTUVWXYZ"
  const LOWER := "abcdefghijklmnopqrstuvwxyz"
  const ALPHABET := UPPER + LOWER + "0123456789" + "-_"

  lemma AlphabetIs(x: Sextet)
    ensures CharOf(x) == ALPHABET[x]
  {
    if x < 26 {
      assert CharOf(x) == UPPER[x];
    } else if x < 52 {
      assert CharOf(x) == LOWER[x - 26];
    } else if x < 62 {
      assert CharOf(x) == "0123456789"[x - 52];
    }
  }

  /** The bit of weight 2 to the k. */
  function Bit(x: nat, k: nat): nat {
    if k == 0 then x % 2 else Bit(x / 2, k - 1)
  }

  lemma JoinedBit(high: nat, low: nat, k: nat)
    requires low < 2
    ensures Bit(high * 2 + low, k) == if k == 0 then low else Bit(high, k - 1)
  {
    assert (high * 2 + low) / 2 == high;
  }

  /** The bits of a number whose last two, four or six are `low`. */
  lemma JoinedBits4(high: nat, low: nat, k: nat)
    requires low < 4
    ensures Bit(high * 4 + low, k) == if k < 2 then Bit(low, k) else Bit(high, k - 2)
  {
    hide Bit;
    JoinedBit(high * 2 + low / 2, low % 2, k);
    JoinedBit(low / 2, low % 2, k);
    if k > 0 {
      JoinedBit(high, low / 2, k - 1);
      JoinedBit(0, low / 2, k - 1);
    }
    assert high * 4 + low == (high * 2 + low / 2) * 2 + low % 2;
  }

  lemma JoinedBits16(high: nat, low: nat, k: nat)
    requires low < 16
    ensures Bit(high * 16 + low, k) == if k < 4 then Bit(low, k) else Bit(high, k - 4)
  {
    hide Bit;
    JoinedBits4(high * 4 + low / 4, low % 4, k);
    JoinedBits4(low / 4, low % 4, k);
    if k >= 2 {
      JoinedBits4(high, low / 4, k - 2);
      JoinedBits4(0, low / 4, k - 2);
    }
    assert high * 16 + low == (high * 4 + low / 4) * 4 + low % 4;
  }

  lemma JoinedBits64(high: nat, low: nat, k: nat)
    requires low < 64
    ensures Bit(high * 64 + low, k) == if k < 6 then Bit(low, k) else Bit(high, k - 6)
  {
    hide Bit;
    JoinedBits16(high * 4 + low / 16, low % 16, k);
    JoinedBits16(low / 16, low % 16, k);
    if k >= 4 {
      JoinedBits4(high, low / 16, k - 4);
      JoinedBits4(0, low / 16, k - 4);
    }
    assert high * 64 + low == (high * 4 + low / 16) * 16 + low % 16;
  }

  /** Twenty-four bits keep their order when they are cut into sextets. */
  lemma SplitKeepsBits(a: Byte, b: Byte, c: Byte, j: nat)
    requires j < 24
    ensures var (p, q, r, s) := Split(a, b, c);
            Bit([p, q, r, s][j / 6], 5 - j % 6) == Bit([a, b, c][j / 8], 7 - j % 8)
  {
    hide Bit;
    var k := 5 - j % 6;
    if j < 6 {
      JoinedBits4(a / 4, a % 4, k + 2);
    } else if j < 12 {
      JoinedBits16(a % 4, b / 16, k);
      if k < 4 {
        JoinedBits16(b / 16, b % 16, k + 4);
      } else {
        JoinedBits4(a / 4, a % 4, k - 4);
      }
    } else if j < 18 {
      JoinedBits4(b % 16, c / 64, k);
      if k < 2 {
        JoinedBits64(c / 64, c % 64, k + 6);
      } else {
        JoinedBits16(b / 16, b % 16, k - 2);
      }
    } else {
      JoinedBits64(c / 64, c % 64, k);
    }
  }

  /** The sextets hold the bits of the bytes in order, and zeros after them. */
  lemma {:induction false} SextetsKeepBits(data: Bytes, j: nat)
    requires j < 6 * |Sextets(data)|
    ensures Bit(Sextets(data)[j / 6], 5 - j % 6) == if j < 8 * |data| then Bit(data[j / 8], 7 - j % 8) else 0
  {
    hide Bit, Split;
    NoBits();
    if |data| == 1 {
      SplitKeepsBits(data[0], 0, 0, j);
    } else if |data| == 2 {
      SplitKeepsBits(data[0], data[1], 0, j);
    } else if j < 24 {
      SplitKeepsBits(data[0], data[1], data[2], j);
    } else {
      SextetsKeepBits(data[3..], j - 24);
    }
  }

  lemma NoBits()
    ensures forall k: nat :: Bit(0, k) == 0
  {
    forall k: nat ensures Bit(0, k) == 0 {
      NoBit(k);
    }
  }

  lemma {:induction false} NoBit(k: nat)
    ensures Bit(0, k) == 0
  {
    if k > 0 {
      NoBit(k - 1);
    }
  }

  /** Main result: read in the alphabet of RFC 4648, an encoding is the bits of the bytes in order,
      cut into sixes and filled up with zeros, and no character more. */
  lemma EncodeKeepsBits(data: Bytes, j: nat)
    requires j < 6 * |Encode(data)|
    ensures 8 * |data| <= 6 * |Encode(data)| < 8 * |data| + 6
    ensures exists x: Sextet :: ALPHABET[x] == Encode(data)[j / 6] &&
              Bit(x, 5 - j % 6) == if j < 8 * |data| then Bit(data[j / 8], 7 - j % 8) else 0
  {
    hide Bit, Sextets, CharOf;
    GroupsRoundTrip(data);
    SextetsKeepBits(data, j);
    AlphabetIs(Sextets(data)[j / 6]);
  }
}
