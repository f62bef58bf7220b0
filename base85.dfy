/** The base-85 codec of kevlar.client.transport.js (lines 17-29): two 16-bit
    characters make one 32-bit block, written as five digits `33 + d` with
    `d` in 0..84, most significant first. An odd-length input is padded with
    one `\0` and the last two digits of the output dropped; the decoder puts
    back two `u` characters (digit 84) in their place and drops the extra
    character. */
module Base85 {
  import opened Wrappers
  import opened JsNumbers

  /** `powers_of_85`: 85^0 .. 85^4. */
  const Powers: seq<nat> := [1, 85, 7225, 614125, 52200625]

  /** 85^5, the first value five digits cannot hold; it is above 2^32. */
  const Limit85 := 4437053125

  /** `String.fromCharCode(33 + n / powers_of_85[4 - k] % 85)`: digit `k` of
      a block, computed with double division and remainder. */
  function JsDigit(n: int, k: nat): CodeUnit
    requires k < 5
  {
    FromCharCode(33.0 + JsRem(n as real / Powers[4 - k] as real, 85.0))
  }

  /** On a non-negative block value the double arithmetic yields the integer
      base-85 digit. */
  lemma JsDigitOfNat(n: int, k: nat)
    requires 0 <= n && k < 5
    ensures JsDigit(n, k) == 33 + n / Powers[4 - k] % 85
  {
    var p := Powers[4 - k];
    var q := n as real / p as real;
    RealQuotientFloor(n, p);
    assert q / 85.0 == n as real / (p * 85) as real;
    RealQuotientFloor(n, p * 85);
    DivDiv(n, p, 85);
    var m := n / p / 85;
    assert JsRem(q, 85.0) == q - 85.0 * m as real;
    assert (33.0 + (q - 85.0 * m as real)).Floor == 33 + n / p - 85 * m;
  }

  /** `encode_block(n)`. */
  function EncodeBlock(n: int): (b: seq<CodeUnit>)
    ensures |b| == 5
  {
    seq(5, k requires 0 <= k < 5 => JsDigit(n, k))
  }

  /** On a non-negative block value, the digits are the integer base-85
      digits, most significant first. */
  lemma EncodeBlockDigits(n: int)
    requires 0 <= n
    ensures forall k | 0 <= k < 5 :: EncodeBlock(n)[k] == 33 + n / Powers[4 - k] % 85
  {
    forall k | 0 <= k < 5
      ensures EncodeBlock(n)[k] == 33 + n / Powers[4 - k] % 85
    {
      JsDigitOfNat(n, k);
    }
  }

  /** Read back by Horner's rule, the digits of a block value in
      0..2^32-1 give the value, and the first three give `n / 85^2`. */
  lemma EncodeBlockValue(n: int)
    requires 0 <= n < TwoTo32
    ensures Horner(EncodeBlock(n)[..3]) == n / 7225
    ensures Horner(EncodeBlock(n)) == n
  {
    EncodeBlockDigits(n);
    HornerOfDigits(EncodeBlock(n), n);
  }

  /** Every digit of a non-negative block value lies in the alphabet 33..117. */
  lemma EncodeBlockAlphabet(n: int)
    requires 0 <= n
    ensures forall k | 0 <= k < 5 :: 33 <= EncodeBlock(n)[k] <= 117
  {
    forall k | 0 <= k < 5
      ensures 33 <= EncodeBlock(n)[k] <= 117
    {
      JsDigitOfNat(n, k);
    }
  }

  /** Horner's rule inverts the digit expansion of a value below 2^32. */
  lemma HornerOfDigits(b: seq<CodeUnit>, n: int)
    requires 0 <= n < TwoTo32 && |b| == 5
    requires forall k | 0 <= k < 5 :: b[k] == 33 + n / Powers[4 - k] % 85
    ensures Horner(b[..3]) == n / 7225
    ensures Horner(b) == n
  {
    assert b[0] == 33 + n / 52200625 % 85;
    assert b[..1][..0] == [];
    assert n / 52200625 < 85;
    assert Horner(b[..1]) == n / 52200625;
    HornerStep(b, 1, n, 614125);
    HornerStep(b, 2, n, 7225);
    HornerStep(b, 3, n, 85);
    HornerStep(b, 4, n, 1);
    assert b[..5] == b;
  }

  /** One step of Horner's rule over the digits of `n`: if the first `j`
      digits read as `n / (85 p)`, the first `j + 1` read as `n / p`. */
  lemma HornerStep(b: seq<CodeUnit>, j: nat, n: int, p: int)
    requires j < |b| && 0 <= n && 0 < p
    requires b[j] == 33 + n / p % 85
    requires Horner(b[..j]) == n / (p * 85)
    ensures Horner(b[..j + 1]) == n / p
  {
    assert b[..j + 1][..j] == b[..j];
    DivDiv(n, p, 85);
  }

  /** `block_value(s)`'s fold for a block of five: Horner's rule over the
      digits `c - 33`. */
  function Horner(b: seq<CodeUnit>): int
  {
    if b == [] then 0 else Horner(b[..|b| - 1]) * 85 + b[|b| - 1] - 33
  }

  /** `block_value(s)`: a block shorter than five characters reads a
      missing character as NaN, so it has no value. */
  function BlockValue(b: seq<CodeUnit>): Option<int>
  {
    if |b| < 5 then None else Some(Horner(b[..5]))
  }

  /** `decode_block(n)`: the high and low 16 bits of the value taken modulo
      2^32; NaN becomes 0 in both. */
  function DecodeBlock(v: Option<int>): (r: seq<CodeUnit>)
    ensures |r| == 2
    ensures v.Some? ==> r[0] as int * 0x1_0000 + r[1] == ToUint32(v.value)
    ensures v.None? ==> r == [0, 0]
  {
    match v
    case None => [0, 0]
    case Some(n) =>
      var u := ToUint32(n);
      [u / 0x1_0000, u % 0x1_0000]
  }

  /** `(hi << 16 | lo) >>> 0`: two code units as one unsigned block value. */
  function Pair(hi: CodeUnit, lo: CodeUnit): (n: int)
    ensures 0 <= n < TwoTo32
    ensures n / 0x1_0000 == hi && n % 0x1_0000 == lo
  {
    hi as int * 0x1_0000 + lo
  }

  /** `encoded_string` of an even-length string: one block per pair of
      characters, in order. */
  function EncodeBlocks(p: seq<CodeUnit>): (r: seq<CodeUnit>)
    requires |p| % 2 == 0
    ensures |r| == 5 * (|p| / 2)
    ensures forall i | 0 <= i < |r| :: 33 <= r[i] <= 117
    decreases |p|
  {
    if p == [] then []
    else
      var b := EncodeBlock(Pair(p[0], p[1]));
      EncodeBlockAlphabet(Pair(p[0], p[1]));
      b + EncodeBlocks(p[2..])
  }

  /** `encode85(s)`: the output has five characters per pair of input
      characters, three for a final odd one, all in the alphabet 33..117. */
  function Encode85(s: seq<CodeUnit>): (r: seq<CodeUnit>)
    ensures |r| == 5 * ((|s| + 1) / 2) - 2 * (|s| % 2)
    ensures forall i | 0 <= i < |r| :: 33 <= r[i] <= 117
  {
    var padded := if |s| % 2 == 1 then s + [0] else s;
    var encoded := EncodeBlocks(padded);
    if |s| % 2 == 1 then encoded[..|encoded| - 2] else encoded
  }

  /** `decoded_string`: one pair of characters per block of five, the last
      block possibly short. */
  function DecodeBlocks(t: seq<CodeUnit>): (r: seq<CodeUnit>)
    ensures |r| == 2 * ((|t| + 4) / 5)
    decreases |t|
  {
    if t == [] then []
    else
      var w := if |t| < 5 then |t| else 5;
      DecodeBlock(BlockValue(t[..w])) + DecodeBlocks(t[w..])
  }

  /** The number of characters `decode85` pads its input with. */
  function DecodePadding(n: nat): nat
  {
    if n % 5 != 0 then 2 else 0
  }

  /** `decode85(s)`: two characters per block of the `uu`-padded input, one
      fewer when the input length is not a multiple of five. */
  function Decode85(s: seq<CodeUnit>): (r: seq<CodeUnit>)
    ensures |r| == 2 * ((|s| + DecodePadding(|s|) + 4) / 5) - DecodePadding(|s|) / 2
  {
    var padded := if |s| % 5 != 0 then s + [117, 117] else s;
    var decoded := DecodeBlocks(padded);
    if |s| % 5 != 0 then decoded[..|decoded| - 1] else decoded
  }

  /** A full block decodes back to the pair it encodes. */
  lemma DecodeEncodeBlock(hi: CodeUnit, lo: CodeUnit)
    ensures DecodeBlock(BlockValue(EncodeBlock(Pair(hi, lo)))) == [hi, lo]
  {
    var n := Pair(hi, lo);
    var b := EncodeBlock(n);
    EncodeBlockValue(n);
    assert b[..5] == b;
    assert BlockValue(b) == Some(n);
    DecodePair(n, hi, lo);
  }

  lemma DecodePair(n: int, hi: CodeUnit, lo: CodeUnit)
    requires n == Pair(hi, lo)
    ensures DecodeBlock(Some(n)) == [hi, lo]
  {
    Uint32Small(n);
  }

  /** The block of a final odd character, cut to three digits and padded
      with `uu`, still decodes to that character first: the padding adds at
      most 85^2 - 1 to the value, below the low 16 bits' range. */
  lemma DecodeTruncatedBlock(c: CodeUnit)
    ensures DecodeBlock(BlockValue(EncodeBlock(Pair(c, 0))[..3] + [117, 117]))[0] == c
  {
    var n := Pair(c, 0);
    var b := EncodeBlock(n);
    EncodeBlockValue(n);
    var t := b[..3] + [117, 117];
    assert t[..5] == t;
    HornerPadded(b[..3], n / 7225);
    DecodeNear(c, n / 7225 * 7225 + 7224);
  }

  /** Two `u` characters append the digits 84, 84. */
  lemma HornerPadded(d: seq<CodeUnit>, m: int)
    requires Horner(d) == m
    ensures Horner(d + [117, 117]) == m * 7225 + 7224
  {
    var t := d + [117, 117];
    assert t[..|t| - 1] == d + [117];
    assert (d + [117])[..|d|] == d;
  }

  /** A value between `c * 2^16` and 85^2 - 1 above it decodes to `c` first. */
  lemma DecodeNear(c: CodeUnit, v: int)
    requires Pair(c, 0) <= v <= Pair(c, 0) + 7224
    ensures DecodeBlock(Some(v))[0] == c
  {
    Uint32Small(v);
    DivUnique(v, 0x1_0000, c, v - Pair(c, 0));
  }

  lemma {:induction false} EncodeBlocksAppend(p: seq<CodeUnit>, q: seq<CodeUnit>)
    requires |p| % 2 == 0 && |q| % 2 == 0
    ensures EncodeBlocks(p + q) == EncodeBlocks(p) + EncodeBlocks(q)
    decreases |p|
  {
    if p == [] {
      assert p + q == q;
    } else {
      assert (p + q)[2..] == p[2..] + q;
      EncodeBlocksAppend(p[2..], q);
    }
  }

  lemma {:induction false} DecodeBlocksAppend(t: seq<CodeUnit>, u: seq<CodeUnit>)
    requires |t| % 5 == 0
    ensures DecodeBlocks(t + u) == DecodeBlocks(t) + DecodeBlocks(u)
    decreases |t|
  {
    if t == [] {
      assert t + u == u;
    } else {
      assert (t + u)[..5] == t[..5];
      assert (t + u)[5..] == t[5..] + u;
      DecodeBlocksAppend(t[5..], u);
    }
  }

  /** Blocks of an even-length string decode back to it. */
  lemma {:induction false} DecodeEncodeBlocks(p: seq<CodeUnit>)
    requires |p| % 2 == 0
    ensures DecodeBlocks(EncodeBlocks(p)) == p
    decreases |p|
  {
    if p != [] {
      EvenTail(p);
      var b, rest := EncodeBlock(Pair(p[0], p[1])), EncodeBlocks(p[2..]);
      assert EncodeBlocks(p) == b + rest;
      DecodeBlocksAppend(b, rest);
      OneBlock(b);
      DecodeEncodeBlock(p[0], p[1]);
      DecodeEncodeBlocks(p[2..]);
      assert p == [p[0], p[1]] + p[2..];
    }
  }

  /** A non-empty even-length string has a pair in front and an even tail. */
  lemma EvenTail(p: seq<CodeUnit>)
    requires |p| % 2 == 0 && p != []
    ensures |p| >= 2 && |p[2..]| % 2 == 0
  {
    var q := |p| / 2;
    assert |p| == 2 * q;
    assert |p[2..]| == 2 * (q - 1);
  }

  /** The encoding of an odd-length string: the blocks of its even prefix,
      then three digits of the block of the last character padded with 0. */
  lemma EncodeOdd(init: seq<CodeUnit>, c: CodeUnit)
    requires |init| % 2 == 0
    ensures Encode85(init + [c]) == EncodeBlocks(init) + EncodeBlock(Pair(c, 0))[..3]
  {
    PadOdd(init, c);
    EncodeLastPair(init, c);
    DropTwo(EncodeBlocks(init), EncodeBlock(Pair(c, 0)));
  }

  /** An odd-length string padded with `\0`, and its encoding before the cut. */
  lemma PadOdd(init: seq<CodeUnit>, c: CodeUnit)
    requires |init| % 2 == 0
    ensures (init + [c]) + [0] == init + [c, 0]
    ensures Encode85(init + [c])
         == EncodeBlocks((init + [c]) + [0])[..|EncodeBlocks((init + [c]) + [0])| - 2]
  {
  }

  /** The padded last character makes one more block. */
  lemma EncodeLastPair(init: seq<CodeUnit>, c: CodeUnit)
    requires |init| % 2 == 0
    ensures EncodeBlocks(init + [c, 0]) == EncodeBlocks(init) + EncodeBlock(Pair(c, 0))
  {
    EncodeBlocksAppend(init, [c, 0]);
    OnePair(c, 0);
  }

  lemma OnePair(hi: CodeUnit, lo: CodeUnit)
    ensures EncodeBlocks([hi, lo]) == EncodeBlock(Pair(hi, lo))
  {
    assert [hi, lo][2..] == [];
  }

  lemma DropTwo(x: seq<CodeUnit>, b: seq<CodeUnit>)
    requires |b| == 5
    ensures (x + b)[..|x + b| - 2] == x + b[..3]
  {
  }

  /** Decoding whole blocks followed by three digits: the three digits,
      padded with `uu`, contribute the first character of their block. */
  lemma DecodeOdd(head: seq<CodeUnit>, d: seq<CodeUnit>)
    requires |head| % 5 == 0 && |d| == 3
    ensures Decode85(head + d) == DecodeBlocks(head) + [DecodeBlock(BlockValue(d + [117, 117]))[0]]
  {
    PadDecode(head, d);
    DecodeBlocksAppend(head, d + [117, 117]);
    OneBlock(d + [117, 117]);
    DropOne(DecodeBlocks(head), DecodeBlock(BlockValue(d + [117, 117])));
  }

  /** A string three characters past a block boundary, padded with `uu`,
      and its decoding before the cut. */
  lemma PadDecode(head: seq<CodeUnit>, d: seq<CodeUnit>)
    requires |head| % 5 == 0 && |d| == 3
    ensures (head + d) + [117, 117] == head + (d + [117, 117])
    ensures Decode85(head + d)
         == DecodeBlocks((head + d) + [117, 117])[..|DecodeBlocks((head + d) + [117, 117])| - 1]
  {
    var q := |head| / 5;
    assert |head + d| == 5 * q + 3;
    assert |head + d| % 5 == 3;
  }

  lemma OneBlock(t: seq<CodeUnit>)
    requires |t| == 5
    ensures DecodeBlocks(t) == DecodeBlock(BlockValue(t))
  {
    assert t[..5] == t && t[5..] == [];
  }

  lemma DropOne(x: seq<CodeUnit>, y: seq<CodeUnit>)
    requires |y| == 2
    ensures (x + y)[..|x + y| - 1] == x + [y[0]]
  {
  }

  /** The codec's round trip: `decode85(encode85(s)) == s` for every string
      of 16-bit characters. */
  lemma DecodeEncode(s: seq<CodeUnit>)
    ensures Decode85(Encode85(s)) == s
  {
    if |s| % 2 == 0 {
      DecodeEncodeEven(s);
    } else {
      var init := s[..|s| - 1];
      assert s == init + [s[|s| - 1]];
      DecodeEncodeOdd(init, s[|s| - 1]);
    }
  }

  /** The round trip for an even-length string: no padding either way. */
  lemma DecodeEncodeEven(s: seq<CodeUnit>)
    requires |s| % 2 == 0
    ensures Decode85(Encode85(s)) == s
  {
    assert Encode85(s) == EncodeBlocks(s);
    assert |EncodeBlocks(s)| % 5 == 0;
    assert Decode85(EncodeBlocks(s)) == DecodeBlocks(EncodeBlocks(s));
    DecodeEncodeBlocks(s);
  }

  /** The round trip for an odd-length string. */
  lemma DecodeEncodeOdd(init: seq<CodeUnit>, c: CodeUnit)
    requires |init| % 2 == 0
    ensures Decode85(Encode85(init + [c])) == init + [c]
  {
    EncodeOdd(init, c);
    DecodeOdd(EncodeBlocks(init), EncodeBlock(Pair(c, 0))[..3]);
    DecodeEncodeBlocks(init);
    DecodeTruncatedBlock(c);
  }
}
