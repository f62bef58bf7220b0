/** The keyed hash and the signed messages of kevlar.client.transport.js
    (lines 68-89). `hmac` follows the shape of HMAC but not RFC 2104: the key
    is always hashed first, the pads are as long as a digest (16 characters)
    rather than a 64-byte block, and the byte 0x5c pads the inner hash and
    0x36 the outer one, the other way round from section 2 of RFC 2104.
    `JSON.stringify` and `JSON.parse` are outside the model: a message is
    the text `JSON.stringify` made of it. */
module Hmac {
  import opened JsNumbers
  import opened Base85
  import opened Sha256

  /** `a ^ b` on non-negative integers, bit by bit from the lowest. */
  function BitXor(a: nat, b: nat): nat
    decreases a + b
  {
    if a == 0 && b == 0 then 0
    else 2 * BitXor(a / 2, b / 2) + (if a % 2 == b % 2 then 0 else 1)
  }

  function Pow2(k: nat): (p: nat)
    ensures p >= 1
  {
    if k == 0 then 1 else 2 * Pow2(k - 1)
  }

  lemma Pow2Sixteen()
    ensures Pow2(16) == 0x1_0000
  {
    assert Pow2(4) == 16;
    assert Pow2(8) == 256;
    assert Pow2(12) == 4096;
  }

  /** XOR of two `k`-bit numbers is a `k`-bit number. */
  lemma {:induction false} BitXorBound(a: nat, b: nat, k: nat)
    requires a < Pow2(k) && b < Pow2(k)
    ensures BitXor(a, b) < Pow2(k)
    decreases k
  {
    if k > 0 && !(a == 0 && b == 0) {
      BitXorBound(a / 2, b / 2, k - 1);
    }
  }

  /** XOR with the same mask twice gives the number back. */
  lemma {:induction false} BitXorTwice(a: nat, m: nat)
    ensures BitXor(BitXor(a, m), m) == a
    decreases a + m
  {
    if !(a == 0 && m == 0) {
      var x := BitXor(a, m);
      BitXorTwice(a / 2, m / 2);
      assert x / 2 == BitXor(a / 2, m / 2) && x % 2 == (if a % 2 == m % 2 then 0 else 1);
    }
  }

  /** The lowest bit of `a ^ m`, and the bits above it. */
  lemma BitXorLow(a: nat, m: nat)
    ensures BitXor(a, m) % 2 == (if a % 2 == m % 2 then 0 else 1)
    ensures BitXor(a, m) / 2 == BitXor(a / 2, m / 2)
  {
  }

  /** `String.fromCharCode(c ^ m)` for a 16-bit character and a mask below
      0x10000. */
  function Xor(c: CodeUnit, m: CodeUnit): (r: CodeUnit)
  {
    Pow2Sixteen();
    BitXorBound(c, m, 16);
    BitXor(c, m)
  }

  /** `n[16] *[String.fromCharCode(kp.charCodeAt(x) ^ m)]`: the key digest
      masked character by character. */
  function Masked(kp: seq<CodeUnit>, m: CodeUnit): (r: seq<CodeUnit>)
    ensures |r| == |kp|
  {
    seq(|kp|, i requires 0 <= i < |kp| => Xor(kp[i], m))
  }

  /** Masking with the same byte twice gives the key digest back. */
  lemma MaskedTwice(kp: seq<CodeUnit>, m: CodeUnit)
    ensures Masked(Masked(kp, m), m) == kp
  {
    forall i | 0 <= i < |kp|
      ensures Masked(Masked(kp, m), m)[i] == kp[i]
    {
      BitXorTwice(kp[i], m);
    }
  }

  /** The inner pad `ik` and the outer pad `ok` differ in every character. */
  lemma PadsDiffer(kp: seq<CodeUnit>, i: nat)
    requires i < |kp|
    ensures Masked(kp, 0x5c)[i] != Masked(kp, 0x36)[i]
  {
    var c := kp[i];
    BitXorLow(c, 0x5c);
    BitXorLow(c, 0x36);
    BitXorLow(c / 2, 0x2e);
    BitXorLow(c / 2, 0x1b);
  }

  /** `hmac(k, s) = hash(ok + hash(ik + s))` with `kp = hash(k)`,
      `ik = kp ^ 0x5c`, `ok = kp ^ 0x36`. */
  function Hmac(k: seq<CodeUnit>, s: seq<CodeUnit>): (r: seq<CodeUnit>)
    ensures |r| == 16
  {
    var kp := Digest(k);
    Digest(Masked(kp, 0x36) + Digest(Masked(kp, 0x5c) + s))
  }

  /** The key enters only through its digest: keys with the same digest
      sign every text alike. */
  lemma HmacThroughDigest(k1: seq<CodeUnit>, k2: seq<CodeUnit>, s: seq<CodeUnit>)
    requires Digest(k1) == Digest(k2)
    ensures Hmac(k1, s) == Hmac(k2, s)
  {
  }

  /** `{user: username, message: text, signature: ...}`. */
  datatype Signed = Signed(user: string, message: seq<CodeUnit>, signature: seq<CodeUnit>)

  /** `signature_generator(username, derived)(message)`, where `text` is
      `JSON.stringify(message)`. */
  function SignatureGenerator(username: string, derived: seq<CodeUnit>, text: seq<CodeUnit>): (m: Signed)
    ensures m.user == username && m.message == text
    ensures Decode85(m.signature) == Hmac(derived, text)
    ensures |m.signature| == 40
  {
    var h := Hmac(derived, text);
    SignatureOf(h);
    Signed(username, text, Encode85(h))
  }

  /** A digest encodes to 40 characters that decode back to it. */
  lemma SignatureOf(h: seq<CodeUnit>)
    requires |h| == 16
    ensures |Encode85(h)| == 40 && Decode85(Encode85(h)) == h
  {
    DecodeEncode(h);
  }

  /** What `signature_verifier(derived_keys)(message)` comes to: the message
      text (which it then hands to `JSON.parse`), `undefined`, or a
      `TypeError` when the user has no key, since `hmac` then hashes
      `undefined` and reads its `length`. User names that are properties of
      `Object.prototype` are outside the model. */
  datatype Verdict = Accepted(text: seq<CodeUnit>) | Rejected | Thrown

  function SignatureVerifier(derivedKeys: map<string, seq<CodeUnit>>, m: Signed): (r: Verdict)
    ensures r.Thrown? <==> m.user !in derivedKeys
    ensures r.Accepted? <==>
      m.user in derivedKeys && Decode85(m.signature) == Hmac(derivedKeys[m.user], m.message)
    ensures r.Accepted? ==> r.text == m.message
  {
    if m.user !in derivedKeys then Thrown
    else if Decode85(m.signature) == Hmac(derivedKeys[m.user], m.message) then Accepted(m.message)
    else Rejected
  }

  /** A message signed with the key the verifier holds for its user passes,
      and the verifier yields the signed text. */
  lemma GeneratedVerifies(derivedKeys: map<string, seq<CodeUnit>>, username: string,
                          derived: seq<CodeUnit>, text: seq<CodeUnit>)
    requires username in derivedKeys && derivedKeys[username] == derived
    ensures SignatureVerifier(derivedKeys, SignatureGenerator(username, derived, text)) == Accepted(text)
  {
  }

  /** A message signed under a key whose digest differs from the user's key
      digest, so that the two HMACs differ, is refused. */
  lemma ForeignKeyRejected(derivedKeys: map<string, seq<CodeUnit>>, username: string,
                           derived: seq<CodeUnit>, text: seq<CodeUnit>)
    requires username in derivedKeys
    requires Hmac(derived, text) != Hmac(derivedKeys[username], text)
    ensures SignatureVerifier(derivedKeys, SignatureGenerator(username, derived, text)) == Rejected
  {
  }

  /** Changing the text of a signed message makes it fail unless the HMAC
      of the new text happens to equal the old one. */
  lemma AlteredTextRejected(derivedKeys: map<string, seq<CodeUnit>>, username: string,
                            text: seq<CodeUnit>, forged: seq<CodeUnit>)
    requires username in derivedKeys
    requires Hmac(derivedKeys[username], forged) != Hmac(derivedKeys[username], text)
    ensures var m := SignatureGenerator(username, derivedKeys[username], text);
      SignatureVerifier(derivedKeys, m.(message := forged)) == Rejected
  {
  }
}
