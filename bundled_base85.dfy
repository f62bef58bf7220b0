/** The copy of `encode85` bundled in kevlar.js (lines 340-344). It differs
    from the transport copy in one place, the block value at line 343:
    `(hi << 16) >>> 0 | lo` applies `| lo` after the unsigned conversion, and
    `|` yields a signed 32-bit result. A pair whose first character is
    0x8000 or more therefore has a negative block value, and the first
    character of its block always leaves the alphabet 33..117. For some of
    these pairs the decoder still gets the pair back; for others, such as
    0xFFFF, 0xFFFF, it does not (`BundledRoundTripFails`). The bundled `decode85` (lines
    346-350) is the transport one, `Base85.Decode85`. */
module BundledBase85 {
  import opened JsNumbers
  import opened Base85

  /** `(hi << 16) >>> 0 | lo`: the two halves are disjoint bit ranges, so
      the `|` is the int32 of `hi * 2^16 + lo`. */
  function SignedPair(hi: CodeUnit, lo: CodeUnit): (n: int)
    ensures hi < 0x8000 ==> n == Pair(hi, lo)
    ensures hi >= 0x8000 ==> n == Pair(hi, lo) - TwoTo32 && n < 0
  {
    ToInt32(hi as int * 0x1_0000 + lo)
  }

  /** `encoded_string` at kevlar.js:343 of an even-length string. */
  function BundledEncodeBlocks(p: seq<CodeUnit>): (r: seq<CodeUnit>)
    requires |p| % 2 == 0
    ensures |r| == 5 * (|p| / 2)
    decreases |p|
  {
    if p == [] then [] else EncodeBlock(SignedPair(p[0], p[1])) + BundledEncodeBlocks(p[2..])
  }

  /** The bundled `encode85(s)`: padding and cut as in the transport copy,
      so the output length is the same. */
  function BundledEncode85(s: seq<CodeUnit>): (r: seq<CodeUnit>)
    ensures |r| == |Encode85(s)|
  {
    var padded := if |s| % 2 == 1 then s + [0] else s;
    var encoded := BundledEncodeBlocks(padded);
    if |s| % 2 == 1 then encoded[..|encoded| - 2] else encoded
  }

  /** Every character at an even position, the high half of a block, is
      below 0x8000. */
  predicate HighHalvesBelowSign(s: seq<CodeUnit>)
  {
    forall i | 0 <= i < |s| && i % 2 == 0 :: s[i] < 0x8000
  }

  lemma {:induction false} BundledBlocksAgree(p: seq<CodeUnit>)
    requires |p| % 2 == 0 && HighHalvesBelowSign(p)
    ensures BundledEncodeBlocks(p) == EncodeBlocks(p)
    decreases |p|
  {
    if p != [] {
      assert HighHalvesBelowSign(p[2..]) by {
        forall i | 0 <= i < |p[2..]| && i % 2 == 0
          ensures p[2..][i] < 0x8000
        {
          assert p[2..][i] == p[i + 2];
        }
      }
      BundledBlocksAgree(p[2..]);
    }
  }

  /** Where every high half is below 0x8000 the two copies agree. */
  lemma BundledAgrees(s: seq<CodeUnit>)
    requires HighHalvesBelowSign(s)
    ensures BundledEncode85(s) == Encode85(s)
  {
    var padded := if |s| % 2 == 1 then s + [0] else s;
    assert HighHalvesBelowSign(padded) by {
      forall i | 0 <= i < |padded| && i % 2 == 0
        ensures padded[i] < 0x8000
      {
        if i < |s| {
          assert padded[i] == s[i];
        }
      }
    }
    BundledBlocksAgree(padded);
  }

  /** On those strings the bundled encoder also round-trips. */
  lemma BundledRoundTrip(s: seq<CodeUnit>)
    requires HighHalvesBelowSign(s)
    ensures Decode85(BundledEncode85(s)) == s
  {
    BundledAgrees(s);
    DecodeEncode(s);
  }

  /** A negative block value, as a high half of 0x8000 or more gives, makes
      a first digit outside the alphabet 33..117: it is 32 or below, or a
      wrapped-around code of 65528 or above. */
  lemma NegativeBlockLeavesAlphabet(n: int)
    requires -0x8000_0000 <= n < 0
    ensures JsDigit(n, 0) <= 32 || JsDigit(n, 0) >= 65528
  {
    var q := n as real / 52200625.0;
    assert -42.0 < q < 0.0;
    SmallNegativeRem(q);
    var t := Trunc(33.0 + q);
    assert -9 <= t <= 32;
  }

  /** On a dividend in -85..0 the double remainder by 85 is the dividend. */
  lemma SmallNegativeRem(q: real)
    requires -85.0 < q < 0.0
    ensures JsRem(q, 85.0) == q
  {
    assert Trunc(q / 85.0) == 0;
  }

  /** Block `j` of the bundled encoding is the encoding of the signed value
      of pair `j`. */
  lemma {:induction false} BundledBlockAt(p: seq<CodeUnit>, j: nat)
    requires |p| % 2 == 0 && j < |p| / 2
    ensures 5 * j + 5 <= |BundledEncodeBlocks(p)|
    ensures BundledEncodeBlocks(p)[5 * j..5 * j + 5] == EncodeBlock(SignedPair(p[2 * j], p[2 * j + 1]))
    decreases j
  {
    var b, rest := EncodeBlock(SignedPair(p[0], p[1])), BundledEncodeBlocks(p[2..]);
    assert BundledEncodeBlocks(p) == b + rest;
    if j > 0 {
      BundledBlockAt(p[2..], j - 1);
      assert p[2..][2 * (j - 1)] == p[2 * j] && p[2..][2 * (j - 1) + 1] == p[2 * j + 1];
      assert (b + rest)[5 * j..5 * j + 5] == rest[5 * (j - 1)..5 * (j - 1) + 5];
    }
  }

  /** Wherever a character of 0x8000 or more starts a pair, the first
      character of that pair's block in the bundled encoding lies outside
      the alphabet 33..117. Whether `decode85` still gives the pair back
      depends on the pair. */
  lemma BundledHighHalfLeavesAlphabet(s: seq<CodeUnit>, i: nat)
    requires i < |s| && i % 2 == 0 && s[i] >= 0x8000
    ensures 5 * (i / 2) < |BundledEncode85(s)|
    ensures BundledEncode85(s)[5 * (i / 2)] <= 32 || BundledEncode85(s)[5 * (i / 2)] >= 65528
  {
    var padded := if |s| % 2 == 1 then s + [0] else s;
    var j := i / 2;
    assert 2 * j == i && padded[i] == s[i];
    BundledBlockAt(padded, j);
    var encoded := BundledEncodeBlocks(padded);
    assert encoded[5 * j] == EncodeBlock(SignedPair(padded[i], padded[i + 1]))[0];
    assert BundledEncode85(s)[5 * j] == encoded[5 * j];
    NegativeBlockLeavesAlphabet(SignedPair(padded[i], padded[i + 1]));
  }

  /** Every digit of the block value -1 is 32: `33 + (-1 / p) % 85`
      truncates to 32. */
  lemma MinusOneDigits(k: nat)
    requires k < 5
    ensures JsDigit(-1, k) == 32
  {
    var p := Powers[4 - k] as real;
    var q := -1.0 / p;
    assert -1.0 <= q < 0.0;
    assert Trunc(q / 85.0) == 0;
    assert JsRem(q, 85.0) == q;
    assert (33.0 + q).Floor == 32;
  }

  /** The pair 0xFFFF, 0xFFFF has block value -1: the bundled copy encodes
      it as five characters 32, outside the alphabet, and these decode to
      64729, 65491 instead. */
  lemma BundledRoundTripFails()
    ensures BundledEncode85([0xFFFF, 0xFFFF]) == [32, 32, 32, 32, 32]
    ensures Decode85(BundledEncode85([0xFFFF, 0xFFFF])) == [64729, 65491]
  {
    EncodeMinusOne();
    DecodeSpaces();
  }

  lemma EncodeMinusOne()
    ensures BundledEncode85([0xFFFF, 0xFFFF]) == [32, 32, 32, 32, 32]
  {
    var s: seq<CodeUnit> := [0xFFFF, 0xFFFF];
    assert SignedPair(0xFFFF, 0xFFFF) == -1;
    assert s[2..] == [];
    var b := EncodeBlock(-1);
    forall k | 0 <= k < 5
      ensures b[k] == 32
    {
      MinusOneDigits(k);
    }
    assert BundledEncode85(s) == b + [];
  }

  /** Five characters 32 are the digits -1 each: the value is
      -(85^4 + 85^3 + 85^2 + 85 + 1), which modulo 2^32 splits into 64729
      and 65491. */
  lemma DecodeSpaces()
    ensures Decode85([32, 32, 32, 32, 32]) == [64729, 65491]
  {
    var t: seq<CodeUnit> := [32, 32, 32, 32, 32];
    assert t[..5] == t && t[5..] == [];
    var t1: seq<CodeUnit>, t2: seq<CodeUnit>, t3: seq<CodeUnit>, t4: seq<CodeUnit> :=
      [32], [32, 32], [32, 32, 32], [32, 32, 32, 32];
    assert t1[..0] == [] && t2[..1] == t1 && t3[..2] == t2 && t4[..3] == t3 && t[..4] == t4;
    assert Horner(t1) == -1;
    assert Horner(t2) == -86;
    assert Horner(t3) == -7311;
    assert Horner(t4) == -621436;
    assert Horner(t) == -52822061;
    assert ToUint32(-52822061) == 4242145235;
  }

  /** Not every negative block is lost: 0xFCE3, 0x7B4F has block value
      -85^4, whose digits are exact quotients. It encodes as 32 followed by
      four 33s, and these decode back to the pair. */
  lemma BundledRoundTripSometimesHolds()
    ensures BundledEncode85([0xFCE3, 0x7B4F]) == [32, 33, 33, 33, 33]
    ensures Decode85(BundledEncode85([0xFCE3, 0x7B4F])) == [0xFCE3, 0x7B4F]
  {
    EncodeMinusPower();
    DecodeMinusPower();
  }

  /** The block value -85^4 has the digits -1, 0, 0, 0, 0. */
  lemma EncodeMinusPower()
    ensures BundledEncode85([0xFCE3, 0x7B4F]) == [32, 33, 33, 33, 33]
  {
    var s: seq<CodeUnit> := [0xFCE3, 0x7B4F];
    assert SignedPair(0xFCE3, 0x7B4F) == -52200625;
    assert s[2..] == [];
    var b := EncodeBlock(-52200625);
    ExactNegativeDigit(0, -1.0);
    ExactNegativeDigit(1, -85.0);
    ExactNegativeDigit(2, -7225.0);
    ExactNegativeDigit(3, -614125.0);
    ExactNegativeDigit(4, -52200625.0);
    assert b == [32, 33, 33, 33, 33];
    assert BundledEncode85(s) == b + [];
  }

  /** 32 and four 33s are the digits -1, 0, 0, 0, 0: the value -85^4, which
      modulo 2^32 splits into 0xFCE3 and 0x7B4F. */
  lemma DecodeMinusPower()
    ensures Decode85([32, 33, 33, 33, 33]) == [0xFCE3, 0x7B4F]
  {
    var t: seq<CodeUnit> := [32, 33, 33, 33, 33];
    assert t[..5] == t && t[5..] == [];
    var t1: seq<CodeUnit>, t2: seq<CodeUnit>, t3: seq<CodeUnit>, t4: seq<CodeUnit> :=
      [32], [32, 33], [32, 33, 33], [32, 33, 33, 33];
    assert t1[..0] == [] && t2[..1] == t1 && t3[..2] == t2 && t4[..3] == t3 && t[..4] == t4;
    assert Horner(t1) == -1;
    assert Horner(t2) == -85;
    assert Horner(t3) == -7225;
    assert Horner(t4) == -614125;
    assert Horner(t) == -52200625;
    assert ToUint32(-52200625) == 4242766671;
  }

  /** Digit `k` of the block value -85^4. The quotient `q` is -85^k: -1 for
      the first digit, which gives 32, and a whole multiple of 85 for the
      others, whose remainder 0 gives 33. */
  lemma ExactNegativeDigit(k: nat, q: real)
    requires k < 5 && q == -52200625.0 / Powers[4 - k] as real
    ensures JsDigit(-52200625, k) == if k == 0 then 32 else 33
  {
    if k == 0 {
      assert q == -1.0;
      SmallNegativeRem(q);
    } else {
      var m := Powers[4 - k] as real;
      assert q * m == -52200625.0;
      assert Trunc(q / 85.0) as real == q / 85.0;
      assert JsRem(q, 85.0) == 0.0;
    }
  }
}
