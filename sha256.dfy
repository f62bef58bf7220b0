/** SHA-256 of kevlar.client.transport.js (lines 38-66), over strings of
    16-bit characters: each character is two bytes, so a 512-bit block is
    32 characters and the message length is counted as 16 bits a character.
    The compression function is that of section 6.2.2 of FIPS 180-4, with
    the constants of section 4.2.2 and the initial hash value of section
    5.3.3; padding follows section 5.1.1 in 16-bit units. JavaScript's
    `>>> 0` after each sum is arithmetic modulo 2^32, which `bv32` gives. */
module Sha256 {
  import opened JsNumbers

  /** `hs`: the initial hash value. */
  const H0: seq<bv32> := [
    0x6a09e667, 0xbb67ae85, 0x3c6ef372, 0xa54ff53a, 0x510e527f, 0x9b05688c, 0x1f83d9ab, 0x5be0cd19]

  /** `ks`: the 64 round constants. */
  const K: seq<bv32> := [
    0x428a2f98, 0x71374491, 0xb5c0fbcf, 0xe9b5dba5, 0x3956c25b, 0x59f111f1, 0x923f82a4, 0xab1c5ed5,
    0xd807aa98, 0x12835b01, 0x243185be, 0x550c7dc3, 0x72be5d74, 0x80deb1fe, 0x9bdc06a7, 0xc19bf174,
    0xe49b69c1, 0xefbe4786, 0x0fc19dc6, 0x240ca1cc, 0x2de92c6f, 0x4a7484aa, 0x5cb0a9dc, 0x76f988da,
    0x983e5152, 0xa831c66d, 0xb00327c8, 0xbf597fc7, 0xc6e00bf3, 0xd5a79147, 0x06ca6351, 0x14292967,
    0x27b70a85, 0x2e1b2138, 0x4d2c6dfc, 0x53380d13, 0x650a7354, 0x766a0abb, 0x81c2c92e, 0x92722c85,
    0xa2bfe8a1, 0xa81a664b, 0xc24b8b70, 0xc76c51a3, 0xd192e819, 0xd6990624, 0xf40e3585, 0x106aa070,
    0x19a4c116, 0x1e376c08, 0x2748774c, 0x34b0bcb5, 0x391c0cb3, 0x4ed8aa4a, 0x5b9cca4f, 0x682e6ff3,
    0x748f82ee, 0x78a5636f, 0x84c87814, 0x8cc70208, 0x90befffa, 0xa4506ceb, 0xbef9a3f7, 0xc67178f2]

  /** `rr(x, bits) = x >>> bits | x << 32 - bits`: rotation to the right. */
  function Rr(x: bv32, bits: nat): (r: bv32)
    requires 0 < bits < 32
    ensures r == x.RotateRight(bits)
  {
    (x >> bits) | (x << (32 - bits))
  }

  function BigSigma0(a: bv32): bv32 { Rr(a, 2) ^ Rr(a, 13) ^ Rr(a, 22) }
  function BigSigma1(e: bv32): bv32 { Rr(e, 6) ^ Rr(e, 11) ^ Rr(e, 25) }
  function SmallSigma0(x: bv32): bv32 { Rr(x, 7) ^ Rr(x, 18) ^ (x >> 3) }
  function SmallSigma1(x: bv32): bv32 { Rr(x, 17) ^ Rr(x, 19) ^ (x >> 10) }
  function Ch(e: bv32, f: bv32, g: bv32): bv32 { (e & f) ^ (!e & g) }
  function Maj(a: bv32, b: bv32, c: bv32): bv32 { (a & b) ^ (a & c) ^ (b & c) }

  /** `s.charCodeAt(x) << 16 | s.charCodeAt(x + 1)`: two characters as one
      big-endian word (the halves are disjoint bit ranges, so `|` adds). */
  function Word(hi: CodeUnit, lo: CodeUnit): bv32
  {
    (hi * 0x1_0000 + lo) as bv32
  }

  /** `String.fromCharCode(x >>> 16) + String.fromCharCode(x & 0xffff)`: a
      word as two characters, high half first. */
  function Halves(x: bv32): (r: seq<CodeUnit>)
    ensures |r| == 2 && r[0] as int * 0x1_0000 + r[1] == x as int
  {
    var n := x as int;
    Split16(n);
    [n / 0x1_0000, n % 0x1_0000]
  }

  lemma Split16(n: int)
    requires 0 <= n < TwoTo32
    ensures 0 <= n / 0x1_0000 < 0x1_0000 && 0 <= n % 0x1_0000 < 0x1_0000
    ensures n / 0x1_0000 * 0x1_0000 + n % 0x1_0000 == n
  {
  }

  // Padding (section 5.1.1 of FIPS 180-4, in 16-bit units).

  /** `padding_characters(n)`: `n` characters 0. */
  function PaddingCharacters(n: nat): (r: seq<CodeUnit>)
    ensures |r| == n && forall i | 0 <= i < n :: r[i] == 0
  {
    seq(n, i => 0)
  }

  /** `big_endian_64(n)`: the bit length as four characters, the top two
      always 0; `n >>> 16` and `n & 0xffff` keep only its low 32 bits. */
  function BigEndian64(n: nat): (r: seq<CodeUnit>)
    ensures |r| == 4 && r[0] == 0 && r[1] == 0
    ensures r[2] as int * 0x1_0000 + r[3] == n % TwoTo32
  {
    var u := ToUint32(n);
    ModOfMod(n, 0x1_0000, 0x1_0000);
    assert u == n % TwoTo32;
    [0, 0, u / 0x1_0000, n % 0x1_0000]
  }

  /** The number of zero characters `pad` inserts. */
  function ZeroCount(len: nat): nat
  {
    (28 + 32 - (len + 1) % 32) % 32
  }

  /** `pad(s)`. */
  function Pad(s: seq<CodeUnit>): seq<CodeUnit>
  {
    s + [0x8000] + PaddingCharacters(ZeroCount(|s|)) + BigEndian64(|s| * 16)
  }

  /** The padded message: the message, a 1 bit (the character 0x8000), the
      fewest zero characters that bring the length to 28 modulo 32, then the
      bit length in the last four characters; a whole number of 32-character
      blocks. */
  lemma PadShape(s: seq<CodeUnit>)
    ensures var p := Pad(s);
      && |p| % 32 == 0
      && |s| + 5 <= |p| <= |s| + 36
      && p[..|s|] == s
      && p[|s|] == 0x8000
      && (forall i | |s| < i < |p| - 4 :: p[i] == 0)
      && p[|p| - 4] == 0 && p[|p| - 3] == 0
      && p[|p| - 2] as int * 0x1_0000 + p[|p| - 1] == (|s| * 16) % TwoTo32
  {
    PadLength(s);
    PadFront(s);
    PadBack(s);
  }

  lemma PadLength(s: seq<CodeUnit>)
    ensures |Pad(s)| == |s| + 1 + ZeroCount(|s|) + 4
    ensures |Pad(s)| % 32 == 0 && ZeroCount(|s|) < 32
  {
    ZeroCountFills(|s|);
  }

  /** The zeros bring the length, with the 1 bit and the four length
      characters, to a whole number of blocks. */
  lemma ZeroCountFills(n: nat)
    ensures ZeroCount(n) < 32 && (n + 5 + ZeroCount(n)) % 32 == 0
  {
    var q, r := (n + 1) / 32, (n + 1) % 32;
    assert n + 1 == 32 * q + r;
    if r <= 28 {
      assert ZeroCount(n) == 28 - r;
      assert n + 5 + ZeroCount(n) == 32 * (q + 1);
    } else {
      assert ZeroCount(n) == 60 - r;
      assert n + 5 + ZeroCount(n) == 32 * (q + 2);
    }
  }

  lemma PadFront(s: seq<CodeUnit>)
    ensures |Pad(s)| == |s| + 1 + ZeroCount(|s|) + 4
    ensures Pad(s)[..|s|] == s && Pad(s)[|s|] == 0x8000
    ensures forall i | |s| < i < |Pad(s)| - 4 :: Pad(s)[i] == 0
  {
    var z := PaddingCharacters(ZeroCount(|s|));
    var p := Pad(s);
    forall i | |s| < i < |p| - 4
      ensures p[i] == 0
    {
      assert p[i] == z[i - |s| - 1];
    }
  }

  lemma PadBack(s: seq<CodeUnit>)
    ensures |Pad(s)| >= 4 && Pad(s)[|Pad(s)| - 4..] == BigEndian64(|s| * 16)
  {
  }

  // The compression function (section 6.2.2 of FIPS 180-4).

  /** The words of a 32-character block, `ws[0..15]`. */
  function BlockWords(block: seq<CodeUnit>): (w: seq<bv32>)
    requires |block| == 32
    ensures |w| == 16
  {
    seq(16, i requires 0 <= i < 16 => Word(block[2 * i], block[2 * i + 1]))
  }

  /** `it[x - 16] + s0 + it[x - 7] + s1 >>> 0`, with `s0` taken of
      `it[x - 15]` and `s1` of `it[x - 2]`. */
  function Expand(w16: bv32, w15: bv32, w7: bv32, w2: bv32): bv32
  {
    w16 + SmallSigma0(w15) + w7 + SmallSigma1(w2)
  }

  /** Schedule word `t`, from the 16 before it. */
  function NextWord(w: seq<bv32>): bv32
    requires |w| >= 16
  {
    var t := |w|;
    Expand(w[t - 16], w[t - 15], w[t - 7], w[t - 2])
  }

  /** The first `n` words of the message schedule. */
  function ScheduleUpTo(w16: seq<bv32>, n: nat): (w: seq<bv32>)
    requires |w16| == 16 && 16 <= n <= 64
    ensures |w| == n
    decreases n
  {
    if n == 16 then w16 else var w := ScheduleUpTo(w16, n - 1); w + [NextWord(w)]
  }

  /** The message schedule of section 6.2.2, step 1: the block's words,
      then each later word from the four it depends on. */
  lemma {:induction false} ScheduleShape(w16: seq<bv32>, n: nat)
    requires |w16| == 16 && 16 <= n <= 64
    ensures var w := ScheduleUpTo(w16, n);
      && w[..16] == w16
      && forall t | 16 <= t < n :: w[t] == NextWord(w[..t])
    decreases n
  {
    if n > 16 {
      ScheduleShape(w16, n - 1);
      var w' := ScheduleUpTo(w16, n - 1);
      var w := ScheduleUpTo(w16, n);
      ScheduleSnoc(w16, n - 1);
      assert w[..n - 1] == w';
      assert w[..16] == w'[..16];
      forall t | 16 <= t < n
        ensures w[t] == NextWord(w[..t])
      {
        if t < n - 1 {
          PrefixAgrees(w, w', t);
        }
      }
    }
  }

  /** Below the last index a sequence and its prefix agree. */
  lemma PrefixAgrees(w: seq<bv32>, w': seq<bv32>, t: nat)
    requires |w| >= 1 && w' == w[..|w| - 1] && t < |w'|
    ensures w[t] == w'[t] && w[..t] == w'[..t]
  {
  }

  /** The working variables a..h. */
  datatype Vars = Vars(a: bv32, b: bv32, c: bv32, d: bv32, e: bv32, f: bv32, g: bv32, h: bv32)

  /** One round: `h = g, g = f, f = e, e = d + t1, d = c, c = b, b = a,
      a = t1 + t2`. */
  function Round(v: Vars, k: bv32, w: bv32): (r: Vars)
    ensures r.b == v.a && r.c == v.b && r.d == v.c && r.f == v.e && r.g == v.f && r.h == v.g
  {
    var t1 := T1(k, w, v.e, v.f, v.g, v.h);
    var t2 := T2(v.a, v.b, v.c);
    Vars(Add(t1, t2), v.a, v.b, v.c, Add(v.d, t1), v.e, v.f, v.g)
  }

  /** `t1 = h + s1 + ch + ks[x] + ws[x] >>> 0`. */
  function T1(k: bv32, w: bv32, e: bv32, f: bv32, g: bv32, h: bv32): bv32
  {
    h + BigSigma1(e) + Ch(e, f, g) + k + w
  }

  /** `t2 = s0 + maj >>> 0`. */
  function T2(a: bv32, b: bv32, c: bv32): bv32
  {
    BigSigma0(a) + Maj(a, b, c)
  }

  /** `x + y >>> 0`. */
  function Add(x: bv32, y: bv32): bv32
  {
    x + y
  }

  function Init(hs: seq<bv32>): Vars
    requires |hs| == 8
  {
    Vars(hs[0], hs[1], hs[2], hs[3], hs[4], hs[5], hs[6], hs[7])
  }

  /** The working variables after the first `n` rounds. */
  function RoundsUpTo(hs: seq<bv32>, w: seq<bv32>, n: nat): Vars
    requires |hs| == 8 && |w| == 64 && n <= 64
  {
    if n == 0 then Init(hs) else Round(RoundsUpTo(hs, w, n - 1), K[n - 1], w[n - 1])
  }

  /** `hash_block(hs, s)`: 64 rounds over the block's schedule, then the
      wordwise sum with the incoming state. */
  function Compress(hs: seq<bv32>, block: seq<CodeUnit>): (r: seq<bv32>)
    requires |hs| == 8 && |block| == 32
    ensures |r| == 8
  {
    AddState(hs, RoundsUpTo(hs, ScheduleUpTo(BlockWords(block), 64), 64))
  }

  /** `hs[i] + a >>> 0` and so on: the new state, word by word. */
  function AddState(hs: seq<bv32>, v: Vars): (r: seq<bv32>)
    requires |hs| == 8
    ensures |r| == 8
  {
    [Add(hs[0], v.a), Add(hs[1], v.b), Add(hs[2], v.c), Add(hs[3], v.d),
     Add(hs[4], v.e), Add(hs[5], v.f), Add(hs[6], v.g), Add(hs[7], v.h)]
  }

  /** The state after hashing the 32-character blocks of `p` in order from
      `h`. The blocks are counted from the end; it is only applied to whole
      blocks, where that is the order of `p`. */
  function HashBlocks(h: seq<bv32>, p: seq<CodeUnit>): (r: seq<bv32>)
    requires |h| == 8
    ensures |r| == 8
    decreases |p|
  {
    if |p| < 32 then h else Compress(HashBlocks(h, p[..|p| - 32]), p[|p| - 32..])
  }

  /** One more block: the state after it is the compression of the state
      before it. */
  lemma HashBlocksSnoc(h: seq<bv32>, p: seq<CodeUnit>, b: seq<CodeUnit>)
    requires |h| == 8 && |b| == 32
    ensures HashBlocks(h, p + b) == Compress(HashBlocks(h, p), b)
  {
    var pb := p + b;
    assert pb[..|pb| - 32] == p;
    assert pb[|pb| - 32..] == b;
  }

  /** Hashing block-aligned pieces one after the other is hashing their
      concatenation: the state is all that carries over between blocks. */
  lemma {:induction false} HashBlocksAppend(h: seq<bv32>, p: seq<CodeUnit>, q: seq<CodeUnit>)
    requires |h| == 8 && |q| % 32 == 0
    ensures HashBlocks(h, p + q) == HashBlocks(HashBlocks(h, p), q)
    decreases |q|
  {
    if q == [] {
      assert p + q == p;
    } else {
      var q', last := q[..|q| - 32], q[|q| - 32..];
      SplitLastBlock(p, q);
      HashBlocksAppend(h, p, q');
      HashBlocksSnoc(h, p + q', last);
      HashBlocksSnoc(HashBlocks(h, p), q', last);
    }
  }

  /** Sequence bookkeeping for `HashBlocksAppend`: the last block of `q`
      is the last block of `p + q`. */
  lemma SplitLastBlock(p: seq<CodeUnit>, q: seq<CodeUnit>)
    requires |q| % 32 == 0 && q != []
    ensures |q| >= 32 && (|q| - 32) % 32 == 0
    ensures p + q == (p + q[..|q| - 32]) + q[|q| - 32..]
    ensures q == q[..|q| - 32] + q[|q| - 32..]
  {
    Aligned(0, |q|);
  }

  lemma Aligned(a: nat, b: nat)
    requires a % 32 == 0 && b % 32 == 0
    ensures (a + b) % 32 == 0
    ensures b > 0 ==> b >= 32 && (b - 32) % 32 == 0
  {
    var i, j := a / 32, b / 32;
    assert a == 32 * i && b == 32 * j;
    assert a + b == 32 * (i + j);
    if b > 0 {
      assert j >= 1;
      assert b - 32 == 32 * (j - 1);
    }
  }

  /** The state as characters, two per word, high half first. */
  function Serialize(h: seq<bv32>): (r: seq<CodeUnit>)
    ensures |r| == 2 * |h|
    ensures forall i | 0 <= i < |h| :: r[2 * i] as int * 0x1_0000 + r[2 * i + 1] == h[i] as int
  {
    if h == [] then []
    else
      var rest := Serialize(h[1..]);
      SerializeStep(h, rest);
      Halves(h[0]) + rest
  }

  /** The words after the first keep their places, two characters on. */
  lemma SerializeStep(h: seq<bv32>, rest: seq<CodeUnit>)
    requires |h| >= 1 && |rest| == 2 * (|h| - 1)
    requires forall i | 0 <= i < |h| - 1 :: rest[2 * i] as int * 0x1_0000 + rest[2 * i + 1] == h[1..][i] as int
    ensures forall i | 0 <= i < |h| ::
      (Halves(h[0]) + rest)[2 * i] as int * 0x1_0000 + (Halves(h[0]) + rest)[2 * i + 1] == h[i] as int
  {
    var r := Halves(h[0]) + rest;
    forall i | 0 <= i < |h|
      ensures r[2 * i] as int * 0x1_0000 + r[2 * i + 1] == h[i] as int
    {
      if i > 0 {
        assert r[2 * i] == rest[2 * (i - 1)] && r[2 * i + 1] == rest[2 * (i - 1) + 1];
        assert h[1..][i - 1] == h[i];
      }
    }
  }

  /** `sha256(s)`: sixteen characters, the eight state words big-endian. */
  function Digest(s: seq<CodeUnit>): (r: seq<CodeUnit>)
    ensures |r| == 16
  {
    PadShape(s);
    Serialize(HashBlocks(H0, Pad(s)))
  }

  /** `hash_block`, as the source runs it: `ws` filled in place, then the
      64 rounds reassigning the working variables, then the wordwise sum. */
  method HashBlock(hs: seq<bv32>, block: seq<CodeUnit>) returns (nhs: seq<bv32>)
    requires |hs| == 8 && |block| == 32
    ensures nhs == Compress(hs, block)
  {
    var ws := MessageSchedule(block);
    var v := RunRounds(hs, ws);
    nhs := [Add(hs[0], v.a), Add(hs[1], v.b), Add(hs[2], v.c), Add(hs[3], v.d),
            Add(hs[4], v.e), Add(hs[5], v.f), Add(hs[6], v.g), Add(hs[7], v.h)];
  }

  /** The `ws` array of `hash_block`: the block's 16 words, then
      `it[x] = it[x - 16] + s0 + it[x - 7] + s1 >>> 0` for x in 16..63. */
  method MessageSchedule(block: seq<CodeUnit>) returns (w: seq<bv32>)
    requires |block| == 32
    ensures w == ScheduleUpTo(BlockWords(block), 64)
  {
    var w16 := BlockWords(block);
    var ws := new bv32[64];
    for i := 0 to 16
      invariant ws[..i] == w16[..i]
    {
      ws[i] := Word(block[2 * i], block[2 * i + 1]);
      assert ws[..i + 1] == ws[..i] + [ws[i]];
    }
    for t := 16 to 64
      invariant ws[..t] == ScheduleUpTo(w16, t)
    {
      ghost var prefix := ws[..t];
      ScheduleSnoc(w16, t);
      ws[t] := NextWord(ws[..t]);
      assert ws[..t + 1] == prefix + [ws[t]];
    }
    w := ws[..];
  }

  /** The schedule grows by the word computed from the words so far. */
  lemma ScheduleSnoc(w16: seq<bv32>, t: nat)
    requires |w16| == 16 && 16 <= t < 64
    ensures ScheduleUpTo(w16, t + 1) == ScheduleUpTo(w16, t) + [NextWord(ScheduleUpTo(w16, t))]
  {
  }

  /** The 64 rounds of `hash_block`, reassigning `a`..`h`. */
  method RunRounds(hs: seq<bv32>, w: seq<bv32>) returns (v: Vars)
    requires |hs| == 8 && |w| == 64
    ensures v == RoundsUpTo(hs, w, 64)
  {
    var a, b, c, d, e, f, g, h := hs[0], hs[1], hs[2], hs[3], hs[4], hs[5], hs[6], hs[7];
    for t := 0 to 64
      invariant Vars(a, b, c, d, e, f, g, h) == RoundsUpTo(hs, w, t)
    {
      var t1 := T1(K[t], w[t], e, f, g, h);
      var t2 := T2(a, b, c);
      h, g, f, e, d, c, b, a := g, f, e, Add(d, t1), c, b, a, Add(t1, t2);
    }
    v := Vars(a, b, c, d, e, f, g, h);
  }

  /** `sha256(s)`, as the source runs it: the state `h` reassigned once per
      32-character block of the padded message. */
  method Hash(s: seq<CodeUnit>) returns (digest: seq<CodeUnit>)
    ensures digest == Digest(s)
  {
    var p := Pad(s);
    BlockCount(s);
    var h := HashPadded(p, |p| / 32);
    digest := Serialize(h);
  }

  /** `n[0, p.length, 32] *![h = hash_block(h, p.substr(x, 32))]`: the
      state reassigned once per block, starting from `hs`. */
  method HashPadded(p: seq<CodeUnit>, blocks: nat) returns (h: seq<bv32>)
    requires |p| == 32 * blocks
    ensures h == HashBlocks(H0, p)
  {
    h := H0;
    for i := 0 to blocks
      invariant h == HashBlocks(H0, p[..32 * i])
    {
      NextBlock(p, i);
      h := HashBlock(h, p[32 * i..32 * i + 32]);
    }
    assert p[..32 * blocks] == p;
  }

  /** The number of 32-character blocks of the padded message. */
  lemma BlockCount(s: seq<CodeUnit>)
    ensures |Pad(s)| == 32 * (|Pad(s)| / 32)
  {
    PadLength(s);
  }

  /** The loop step of `HashPadded`: block `i` extends the hashed prefix by one
      block. */
  lemma NextBlock(p: seq<CodeUnit>, i: nat)
    requires 32 * i + 32 <= |p|
    ensures HashBlocks(H0, p[..32 * i + 32]) == Compress(HashBlocks(H0, p[..32 * i]), p[32 * i..32 * i + 32])
  {
    assert p[..32 * i + 32] == p[..32 * i] + p[32 * i..32 * i + 32];
    HashBlocksSnoc(H0, p[..32 * i], p[32 * i..32 * i + 32]);
  }
}
