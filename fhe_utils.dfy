/**
 * The value codec of `FHEUtils` (src/lib/fhe-utils.ts). Despite the name it
 * is a plain hex encoding: the "encrypted data" is the value as four
 * big-endian bytes written as `0x` and eight lower-case hex digits, and the
 * "proof" is the value's hex zero-padded to 64 digits.
 */
module FheUtils {
  import opened Wrappers
  import opened JsBuiltins

  type Byte = b: int | 0 <= b < 256

  const TwoTo32: nat := 0x1_0000_0000

  /** The pair every `encrypt*` method returns. */
  datatype EncryptedInput = EncryptedInput(encryptedData: string, inputProof: string)

  /** Why `simulateDecryption` throws. */
  datatype DecodeError =
    | NoPairs     // `match` found no pair and returned null, so `.map` throws a TypeError
    | OutOfRange  // fewer than four bytes, so `getUint32(0)` throws a RangeError

  // ---------------------------------------------------------------------
  // Bytes
  // ---------------------------------------------------------------------

  /** The number a byte sequence denotes, first byte most significant. */
  function BigEndian(bs: seq<Byte>): nat
  {
    if bs == [] then 0 else BigEndian(bs[..|bs| - 1]) * 256 + bs[|bs| - 1]
  }

  lemma BigEndianFour(bs: seq<Byte>)
    requires |bs| == 4
    ensures BigEndian(bs) == bs[0] as int * 0x100_0000 + bs[1] as int * 0x1_0000 + bs[2] as int * 0x100 + bs[3] as int
    ensures BigEndian(bs) < TwoTo32
  {
    assert bs[..1][..0] == [];
    assert bs[..2][..1] == bs[..1];
    assert bs[..3][..2] == bs[..2];
    assert bs[..4][..3] == bs[..3];
    assert bs[..4] == bs;
    assert BigEndian(bs[..1]) == bs[0];
    assert BigEndian(bs[..2]) == bs[0] as int * 256 + bs[1] as int;
    assert BigEndian(bs[..3]) == (bs[0] as int * 256 + bs[1] as int) * 256 + bs[2] as int;
  }

  /**
   * `view.setUint32(0, value, false)` on a fresh 4-byte buffer: the value
   * taken modulo 2^32, most significant byte first.
   */
  function Uint32Bytes(v: nat): (bs: seq<Byte>)
    ensures |bs| == 4 && BigEndian(bs) == v % TwoTo32
  {
    var w := v % TwoTo32;
    var q3 := w / 256;
    var q2 := q3 / 256;
    var q1 := q2 / 256;
    var bs: seq<Byte> := [q1, q2 % 256, q3 % 256, w % 256];
    BigEndianFour(bs);
    bs
  }

  /** The first byte written is `v / 2^24` and the last `v % 256`. */
  lemma Uint32BytesBigEndian(v: nat)
    requires v < TwoTo32
    ensures Uint32Bytes(v)[0] == v / 0x100_0000
    ensures Uint32Bytes(v)[3] == v % 256
  {
    var bs := Uint32Bytes(v);
    BigEndianFour(bs);
    var rest := bs[1] as int * 0x1_0000 + bs[2] as int * 0x100 + bs[3] as int;
    assert v == bs[0] as int * 0x100_0000 + rest && 0 <= rest < 0x100_0000;
  }

  // ---------------------------------------------------------------------
  // simulateEncryption
  // ---------------------------------------------------------------------

  /** The two lower-case digits of a byte, high digit first. */
  function ByteHex(b: Byte): (s: string)
    ensures |s| == 2 && AllLowerHex(s) && HexValue(s) == b
  {
    var s := [HexDigit(b / 16), HexDigit(b % 16)];
    TwoDigitValue(s);
    s
  }

  lemma TwoDigitValue(s: string)
    requires |s| == 2 && AllHex(s)
    ensures HexValue(s) == DigitValue(s[0]) * 16 + DigitValue(s[1])
  {
    var head := s[..1];
    assert head[..0] == [] && head[0] == s[0];
    assert HexValue(head) == DigitValue(s[0]);
    assert s[..|s| - 1] == head;
  }

  /** `b.toString(16).padStart(2, '0')` is exactly the byte's two digits. */
  lemma ByteHexIsPadded(b: Byte)
    ensures PadStart(ToHex(b), 2, '0') == ByteHex(b)
  {
    assert Pow16(2) == 256;
    ToHexLength(b, 2);
    ZeroPadValue(ToHex(b), 2);
    HexUnique(PadStart(ToHex(b), 2, '0'), ByteHex(b));
  }

  /** `.map(b => b.toString(16).padStart(2, '0')).join('')`: two digits per byte. */
  function HexJoin(bs: seq<Byte>): (s: string)
    ensures |s| == 2 * |bs|
  {
    if bs == [] then "" else HexJoin(bs[..|bs| - 1]) + ByteHex(bs[|bs| - 1])
  }

  /** The joined text is made of lower-case hex digits only. */
  lemma {:induction false} HexJoinLowerHex(bs: seq<Byte>)
    ensures AllLowerHex(HexJoin(bs))
  {
    if bs != [] {
      var init := bs[..|bs| - 1];
      HexJoinLowerHex(init);
      LowerHexConcat(HexJoin(init), ByteHex(bs[|bs| - 1]));
    }
  }

  /** The joined digits denote the buffer read big-endian. */
  lemma {:induction false} HexJoinValue(bs: seq<Byte>)
    ensures AllHex(HexJoin(bs)) && HexValue(HexJoin(bs)) == BigEndian(bs)
  {
    if bs != [] {
      var init := bs[..|bs| - 1];
      HexJoinValue(init);
      AppendByteHex(HexJoin(init), bs[|bs| - 1], BigEndian(init));
    }
  }

  /** Two more digits for one byte shift the value by a byte and add the byte. */
  lemma AppendByteHex(front: string, b: Byte, value: nat)
    requires AllHex(front) && HexValue(front) == value
    ensures AllHex(front + ByteHex(b))
    ensures HexValue(front + ByteHex(b)) == value * 256 + b
  {
    var piece := ByteHex(b);
    HexValueAppend(front, piece);
    ShiftByByte(HexValue(front), |piece|);
  }

  lemma ShiftByByte(x: nat, n: nat)
    requires n == 2
    ensures x * Pow16(n) == x * 256
  {
    assert Pow16(n) == 256;
  }

  /** `simulateEncryption(value)`. */
  function SimulateEncryption(v: nat): (s: string)
    ensures |s| == 10 && s[..2] == "0x" && AllLowerHex(s[2..])
  {
    var s := "0x" + HexJoin(Uint32Bytes(v));
    HexJoinLowerHex(Uint32Bytes(v));
    assert s[2..] == HexJoin(Uint32Bytes(v));
    s
  }

  /** The eight digits after `0x` denote the value modulo 2^32. */
  lemma EncryptionValue(v: nat)
    ensures HexValue(SimulateEncryption(v)[2..]) == v % TwoTo32
  {
    var bs := Uint32Bytes(v);
    HexJoinValue(bs);
    assert SimulateEncryption(v)[2..] == HexJoin(bs);
  }

  /**
   * The encoding is big-endian: digits 1-2 after `0x` spell the top byte
   * `v / 2^24` and digits 7-8 the low byte `v % 256`.
   */
  lemma EncryptionIsBigEndian(v: nat)
    requires v < TwoTo32
    ensures SimulateEncryption(v)[2..4] == ByteHex(v / 0x100_0000)
    ensures SimulateEncryption(v)[8..10] == ByteHex(v % 256)
  {
    EncryptionTopPair(v);
    EncryptionLowPair(v);
  }

  lemma EncryptionTopPair(v: nat)
    requires v < TwoTo32
    ensures SimulateEncryption(v)[2..4] == ByteHex(v / 0x100_0000)
  {
    EncryptionDigitPairs(v);
    Uint32BytesBigEndian(v);
    assert SimulateEncryption(v)[2 + 2 * 0..4 + 2 * 0] == ByteHex(Uint32Bytes(v)[0]);
  }

  lemma EncryptionLowPair(v: nat)
    requires v < TwoTo32
    ensures SimulateEncryption(v)[8..10] == ByteHex(v % 256)
  {
    EncryptionDigitPairs(v);
    Uint32BytesBigEndian(v);
    assert SimulateEncryption(v)[2 + 2 * 3..4 + 2 * 3] == ByteHex(Uint32Bytes(v)[3]);
  }

  /** Each byte of the buffer becomes two digits, in buffer order: byte `k` is digits `2k + 1` and `2k + 2` after `0x`. */
  lemma EncryptionDigitPairs(v: nat)
    ensures forall k :: 0 <= k < 4 ==>
      SimulateEncryption(v)[2 + 2 * k..4 + 2 * k] == ByteHex(Uint32Bytes(v)[k])
  {
    var bs := Uint32Bytes(v);
    PrefixedPairs(bs);
    assert SimulateEncryption(v) == "0x" + HexJoin(bs);
  }

  lemma PrefixedPairs(bs: seq<Byte>)
    requires |bs| == 4
    ensures forall k :: 0 <= k < 4 ==> ("0x" + HexJoin(bs))[2 + 2 * k..4 + 2 * k] == ByteHex(bs[k])
  {
    var joined := HexJoin(bs);
    HexJoinPairs(bs);
    forall k | 0 <= k < 4
      ensures ("0x" + joined)[2 + 2 * k..4 + 2 * k] == ByteHex(bs[k])
    {
      assert ("0x" + joined)[2 + 2 * k..4 + 2 * k] == joined[2 * k..2 * k + 2];
    }
  }

  /** Byte `k` of the buffer is digits `2k` and `2k + 1` of the joined text. */
  lemma {:induction false} HexJoinPairs(bs: seq<Byte>)
    ensures forall k :: 0 <= k < |bs| ==> HexJoin(bs)[2 * k..2 * k + 2] == ByteHex(bs[k])
  {
    if bs != [] {
      var n := |bs|;
      var init := bs[..n - 1];
      HexJoinPairs(init);
      HexJoinSnoc(bs);
      var front, last := HexJoin(init), ByteHex(bs[n - 1]);
      forall k | 0 <= k < n
        ensures HexJoin(bs)[2 * k..2 * k + 2] == ByteHex(bs[k])
      {
        if k < n - 1 {
          assert init[k] == bs[k];
          PairOfConcat(front, last, k, ByteHex(bs[k]));
        } else {
          PairOfConcat(front, last, k, last);
        }
      }
    }
  }

  /** The joined text is the text of all but the last byte followed by the last byte's digits. */
  lemma HexJoinSnoc(bs: seq<Byte>)
    requires bs != []
    ensures HexJoin(bs) == HexJoin(bs[..|bs| - 1]) + ByteHex(bs[|bs| - 1])
  {
  }

  /** Pair `k` of a text extended by one two-character piece. */
  lemma PairOfConcat(front: string, last: string, k: nat, piece: string)
    requires |last| == 2 && 2 * k <= |front|
    requires 2 * k + 2 <= |front| ==> front[2 * k..2 * k + 2] == piece
    requires 2 * k + 2 > |front| ==> 2 * k == |front| && last == piece
    ensures (front + last)[2 * k..2 * k + 2] == piece
  {
    if 2 * k + 2 <= |front| {
      SliceOfFront(front, last, 2 * k, 2 * k + 2);
    } else {
      SliceOfBack(front, last);
    }
  }

  lemma SliceOfFront(a: string, b: string, i: nat, j: nat)
    requires i <= j <= |a|
    ensures (a + b)[i..j] == a[i..j]
  {
  }

  lemma SliceOfBack(a: string, b: string)
    ensures (a + b)[|a|..|a| + |b|] == b
  {
  }

  // ---------------------------------------------------------------------
  // simulateDecryption
  // ---------------------------------------------------------------------

  /**
   * One element of `new Uint8Array(pairs.map(p => parseInt(p, 16)))`: NaN
   * becomes 0, the rest is taken modulo 256, so two hex digits give their value.
   */
  function PairByte(p: string): (b: Byte)
    ensures ParseInt16(p).None? ==> b == 0
    ensures |p| == 2 && AllHex(p) ==> b == HexValue(p)
  {
    HexPairParses(p);
    match ParseInt16(p)
    case None => 0
    case Some(n) => n % 256
  }

  /** A pair of hex digits parses to its value, which fits in a byte. */
  lemma HexPairParses(p: string)
    ensures |p| == 2 && AllHex(p) ==> ParseInt16(p) == Some(HexValue(p)) && HexValue(p) % 256 == HexValue(p)
  {
    if |p| == 2 && AllHex(p) {
      ParseHexPair(p);
      PairValueBound(p);
      ByteModulo(HexValue(p));
    }
  }

  lemma ByteModulo(n: nat)
    requires n < 256
    ensures n % 256 == n
  {
  }

  /** `new Uint8Array(pairs.map(p => parseInt(p, 16)))`, element by element. */
  function PairBytes(ps: seq<string>): (bs: seq<Byte>)
    ensures |bs| == |ps| && forall k :: 0 <= k < |ps| ==> bs[k] == PairByte(ps[k])
  {
    if ps == [] then [] else [PairByte(ps[0])] + PairBytes(ps[1..])
  }

  /** `simulateDecryption(encryptedData)`; a thrown error is an `Err`. */
  function SimulateDecryption(data: string): (r: Result<nat, DecodeError>)
    ensures r.Ok? ==> r.value < TwoTo32
  {
    var hex := ReplaceFirst(data, "0x", "");
    var pairs := MatchPairs(hex);
    if pairs == [] then Err(NoPairs)
    else
      var bytes := PairBytes(pairs);
      if |bytes| < 4 then Err(OutOfRange)
      else
        BigEndianFour(bytes[..4]);
        Ok(BigEndian(bytes[..4]))
  }

  /** The first `n` bytes of `bs` are the first `2 * n` digits of `h`, read two by two. */
  ghost predicate BytesOfHex(bs: seq<Byte>, h: string, n: nat)
  {
    n <= |bs| && 2 * n <= |h| && AllHex(h) &&
    forall k :: 0 <= k < n ==> bs[k] == HexValue(h[2 * k..2 * k + 2])
  }

  lemma {:induction false} BigEndianOfHex(bs: seq<Byte>, h: string, n: nat)
    requires BytesOfHex(bs, h, n)
    ensures BigEndian(bs[..n]) == HexValue(h[..2 * n])
  {
    if n == 0 {
      assert bs[..n] == [] && h[..2 * n] == [];
    } else {
      BigEndianOfHex(bs, h, n - 1);
      BigEndianSnoc(bs, n);
      HexPairSnoc(h, n);
      assert bs[n - 1] == HexValue(h[2 * (n - 1)..2 * (n - 1) + 2]);
    }
  }

  lemma BigEndianSnoc(bs: seq<Byte>, n: nat)
    requires 1 <= n <= |bs|
    ensures BigEndian(bs[..n]) == BigEndian(bs[..n - 1]) * 256 + bs[n - 1]
  {
    assert bs[..n][..n - 1] == bs[..n - 1];
  }

  lemma HexPairSnoc(h: string, n: nat)
    requires AllHex(h) && 1 <= n && 2 * n <= |h|
    ensures AllHex(h[..2 * n - 2]) && AllHex(h[2 * n - 2..2 * n])
    ensures HexValue(h[..2 * n]) == HexValue(h[..2 * n - 2]) * 256 + HexValue(h[2 * n - 2..2 * n])
  {
    var front, last := h[..2 * n - 2], h[2 * n - 2..2 * n];
    assert h[..2 * n] == front + last;
    HexValueAppend(front, last);
    ShiftByByte(HexValue(front), |last|);
  }

  /**
   * Decoding `0x` (or nothing) followed by hex digits reads the first eight
   * digits as a big-endian 32-bit value: later digits, and a trailing odd
   * digit, are ignored.
   */
  lemma DecryptionReadsFirstFourBytes(prefix: string, h: string)
    requires prefix == "0x" || prefix == ""
    requires AllHex(h) && |h| >= 8
    ensures SimulateDecryption(prefix + h) == Ok(HexValue(h[..8]))
  {
    StripPrefix(prefix, h);
    FirstFourPairs(h);
    BigEndianOfHex(PairBytes(MatchPairs(h)), h, 4);
  }

  lemma StripPrefix(prefix: string, h: string)
    requires prefix == "0x" || prefix == ""
    requires AllHex(h)
    ensures ReplaceFirst(prefix + h, "0x", "") == h
  {
    if prefix == "0x" {
      ReplaceLeadingPrefix(h);
    } else {
      assert prefix + h == h;
      ReplaceInHex(h);
    }
  }

  /** The first four bytes parsed from hex digits are the first eight digits, two by two. */
  lemma FirstFourPairs(h: string)
    requires AllHex(h) && |h| >= 8
    ensures |MatchPairs(h)| >= 4
    ensures BytesOfHex(PairBytes(MatchPairs(h)), h, 4)
  {
    forall k | 0 <= k < 4
      ensures k < |MatchPairs(h)|
      ensures PairBytes(MatchPairs(h))[k] == HexValue(h[2 * k..2 * k + 2])
    {
      PairOfHex(h, k);
    }
    PairOfHex(h, 3);
  }

  lemma PairOfHex(h: string, k: nat)
    requires AllHex(h) && 2 * k + 2 <= |h|
    ensures k < |MatchPairs(h)|
    ensures PairBytes(MatchPairs(h))[k] == HexValue(h[2 * k..2 * k + 2])
  {
    MatchPairsOfHex(h);
    var p := h[2 * k..2 * k + 2];
    assert MatchPairs(h)[k] == p;
    assert AllHex(p) && PairByte(p) == HexValue(p);
  }

  lemma PairValueBound(p: string)
    requires |p| == 2 && AllHex(p)
    ensures HexValue(p) < 256
  {
    HexValueBound(p);
    assert Pow16(2) == 256;
  }

  /** Fewer than eight hex digits are rejected: no pair at all, or too few bytes. */
  lemma ShortInputRejected(prefix: string, h: string)
    requires prefix == "0x" || prefix == ""
    requires AllHex(h) && |h| < 8
    ensures SimulateDecryption(prefix + h) == if |h| < 2 then Err(NoPairs) else Err(OutOfRange)
  {
    StripPrefix(prefix, h);
    MatchPairsOfHex(h);
  }

  /** Round trip: decoding the encrypted data gives back the value modulo 2^32. */
  lemma DecryptEncrypt(v: nat)
    ensures SimulateDecryption(SimulateEncryption(v)) == Ok(v % TwoTo32)
  {
    var s := SimulateEncryption(v);
    var h := s[2..];
    EncryptionValue(v);
    assert s == "0x" + h;
    DecryptionReadsFirstFourBytes("0x", h);
    assert h[..8] == h;
  }

  /** For a value that fits in 32 bits the round trip is exact. */
  lemma DecryptEncryptInRange(v: nat)
    requires v < TwoTo32
    ensures SimulateDecryption(SimulateEncryption(v)) == Ok(v)
  {
    DecryptEncrypt(v);
    InRangeUnwrapped(v);
  }

  // ---------------------------------------------------------------------
  // generateProof, formatEncryptedValue, parseEncryptedValue
  // ---------------------------------------------------------------------

  /** `generateProof(value)`: `0x` and the value's hex, zero-padded to 64 digits. */
  function GenerateProof(v: nat): (r: string)
    ensures |r| >= 66 && r[..2] == "0x" && AllLowerHex(r[2..])
    ensures HexValue(r[2..]) == v
    ensures v < Pow16(64) ==> |r| == 66
  {
    var digits := PadStart(ToHex(v), 64, '0');
    ZeroPadValue(ToHex(v), 64);
    ToHexLength(v, 64);
    var r := "0x" + digits;
    assert r[2..] == digits;
    r
  }

  /** `formatEncryptedValue(value)`: the same text as the proof. */
  function FormatEncryptedValue(v: nat): (r: string)
    ensures r == GenerateProof(v)
  {
    "0x" + PadStart(ToHex(v), 64, '0')
  }

  /** `parseEncryptedValue(hexValue)`: `parseInt(hexValue, 16)`; `None` is NaN. */
  function ParseEncryptedValue(hexValue: string): (r: Option<int>)
    ensures |hexValue| > 2 && hexValue[..2] == "0x" && AllHex(hexValue[2..]) ==>
      r == Some(HexValue(hexValue[2..]))
  {
    if |hexValue| > 2 && hexValue[..2] == "0x" && AllHex(hexValue[2..]) then
      assert hexValue == "0x" + hexValue[2..];
      ParsePrefixedHex(hexValue[2..]);
      ParseInt16(hexValue)
    else
      ParseInt16(hexValue)
  }

  /** Parsing the formatted value gives the value back, whatever its size. */
  lemma ParseFormatRoundTrip(v: nat)
    ensures ParseEncryptedValue(FormatEncryptedValue(v)) == Some(v)
  {
    var r := FormatEncryptedValue(v);
    assert r == "0x" + r[2..];
    ParsePrefixedHex(r[2..]);
  }

  /** The encrypted data also parses back to the (wrapped) value. */
  lemma ParseEncryptedData(v: nat)
    ensures ParseEncryptedValue(SimulateEncryption(v)) == Some(v % TwoTo32)
  {
    var s := SimulateEncryption(v);
    assert s == "0x" + s[2..];
    ParsePrefixedHex(s[2..]);
    EncryptionValue(v);
  }

  /**
   * For a 32-bit value the proof's 64 digits are the encrypted data's eight
   * digits preceded by 56 zeros.
   */
  lemma ProofExtendsEncryption(v: nat)
    requires v < TwoTo32
    ensures |GenerateProof(v)| == 66
    ensures forall i :: 2 <= i < 58 ==> GenerateProof(v)[i] == '0'
    ensures GenerateProof(v)[58..] == SimulateEncryption(v)[2..]
  {
    var hex := ToHex(v);
    EightDigitsOfValue(v);
    WidenPadding(hex, 56, 8);
    var proof := GenerateProof(v);
    var wide := PadStart(hex, 64, '0');
    assert proof == "0x" + wide;
    assert proof[58..] == wide[56..];
  }

  /** The eight digits of the encrypted data are `toString(16)` padded to eight. */
  lemma EightDigitsOfValue(v: nat)
    requires v < TwoTo32
    ensures |ToHex(v)| <= 8
    ensures PadStart(ToHex(v), 8, '0') == SimulateEncryption(v)[2..]
  {
    Pow16Eight();
    ToHexLength(v, 8);
    InRangeUnwrapped(v);
    EncryptionValue(v);
    PaddedUnique(ToHex(v), SimulateEncryption(v)[2..]);
  }

  lemma InRangeUnwrapped(v: nat)
    requires v < TwoTo32
    ensures v % TwoTo32 == v
  {
  }

  /** Zero-padding lower-case digits to the width of another digit string of the same value gives that string. */
  lemma PaddedUnique(t: string, e: string)
    requires AllLowerHex(t) && AllLowerHex(e) && |t| <= |e|
    requires HexValue(t) == HexValue(e)
    ensures PadStart(t, |e|, '0') == e
  {
    ZeroPadValue(t, |e|);
    HexUnique(PadStart(t, |e|, '0'), e);
  }

  /** Padding to `m + n` puts `m` more zeros in front of the padding to `n`. */
  lemma WidenPadding(t: string, m: nat, n: nat)
    requires |t| <= n
    ensures PadStart(t, m + n, '0')[m..] == PadStart(t, n, '0')
    ensures forall i :: 0 <= i < m ==> Repeat('0', m)[i] == PadStart(t, m + n, '0')[i]
  {
    RepeatSplit('0', m, n - |t|);
    assert PadStart(t, m + n, '0') == Repeat('0', m) + PadStart(t, n, '0');
  }

  lemma Pow16Eight()
    ensures Pow16(8) == TwoTo32
  {
    assert Pow16(2) == 256;
    assert Pow16(4) == 256 * 256;
    assert Pow16(6) == 256 * 256 * 256;
  }

  // ---------------------------------------------------------------------
  // The public wrappers
  // ---------------------------------------------------------------------

  /**
   * The body shared by the five `encrypt*` methods: the encrypted data and
   * the proof for one value. The data carries the value modulo 2^32, the
   * proof carries it whole.
   */
  function EncryptValue(v: nat): (r: EncryptedInput)
    ensures SimulateDecryption(r.encryptedData) == Ok(v % TwoTo32)
    ensures ParseEncryptedValue(r.inputProof) == Some(v)
  {
    DecryptEncrypt(v);
    ParseFormatRoundTrip(v);
    EncryptedInput(SimulateEncryption(v), GenerateProof(v))
  }

  /** `encryptSkillPoints(value)`: `decryptValue` recovers the value modulo 2^32, `parseEncryptedValue` the whole value from the proof. */
  function EncryptSkillPoints(v: nat): (r: EncryptedInput)
    ensures DecryptValue(r.encryptedData) == Ok(v % TwoTo32)
    ensures ParseEncryptedValue(r.inputProof) == Some(v)
  {
    EncryptValue(v)
  }

  /** `encryptCost(value)`: `decryptValue` recovers the value modulo 2^32, `parseEncryptedValue` the whole value from the proof. */
  function EncryptCost(v: nat): (r: EncryptedInput)
    ensures DecryptValue(r.encryptedData) == Ok(v % TwoTo32)
    ensures ParseEncryptedValue(r.inputProof) == Some(v)
  {
    EncryptValue(v)
  }

  /** `encryptEntryFee(value)`: `decryptValue` recovers the value modulo 2^32, `parseEncryptedValue` the whole value from the proof. */
  function EncryptEntryFee(v: nat): (r: EncryptedInput)
    ensures DecryptValue(r.encryptedData) == Ok(v % TwoTo32)
    ensures ParseEncryptedValue(r.inputProof) == Some(v)
  {
    EncryptValue(v)
  }

  /** `encryptPrizePool(value)`: `decryptValue` recovers the value modulo 2^32, `parseEncryptedValue` the whole value from the proof. */
  function EncryptPrizePool(v: nat): (r: EncryptedInput)
    ensures DecryptValue(r.encryptedData) == Ok(v % TwoTo32)
    ensures ParseEncryptedValue(r.inputProof) == Some(v)
  {
    EncryptValue(v)
  }

  /** `encryptReputation(value)`: `decryptValue` recovers the value modulo 2^32, `parseEncryptedValue` the whole value from the proof. */
  function EncryptReputation(v: nat): (r: EncryptedInput)
    ensures DecryptValue(r.encryptedData) == Ok(v % TwoTo32)
    ensures ParseEncryptedValue(r.inputProof) == Some(v)
  {
    EncryptValue(v)
  }

  /**
   * `decryptValue(encryptedData)`: a decoded value fits in 32 bits, and
   * `0x` followed by eight hex digits decodes to the value of those digits.
   */
  function DecryptValue(encryptedData: string): (r: Result<nat, DecodeError>)
    ensures r.Ok? ==> r.value < TwoTo32
    ensures |encryptedData| == 10 && encryptedData[..2] == "0x" && AllHex(encryptedData[2..]) ==>
      r == Ok(HexValue(encryptedData[2..]))
  {
    if |encryptedData| == 10 && encryptedData[..2] == "0x" && AllHex(encryptedData[2..]) then
      var h := encryptedData[2..];
      assert encryptedData == "0x" + h && h[..8] == h;
      DecryptionReadsFirstFourBytes("0x", h);
      SimulateDecryption(encryptedData)
    else
      SimulateDecryption(encryptedData)
  }

  /** The five `encrypt*` methods agree on every value, and `decryptValue` is `simulateDecryption`. */
  lemma WrappersAgree(v: nat, encryptedData: string)
    ensures EncryptSkillPoints(v) == EncryptCost(v) == EncryptEntryFee(v)
         == EncryptPrizePool(v) == EncryptReputation(v)
         == EncryptedInput(SimulateEncryption(v), GenerateProof(v))
    ensures DecryptValue(encryptedData) == SimulateDecryption(encryptedData)
  {
  }
}
