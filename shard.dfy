/** The directory resolver of the associative table: `djb2_hash` and
    `prefix_directory_for` (kevlar.db.js:70-71, repeated at kevlar.js:252-253).

    The hash is modelled as the code computes it, not as its name suggests.
    The loop visits each character `x` of the key and computes
    `x.charAt(0) * 33 + h`, where `x.charAt(0)` is the character itself and
    `*` coerces that one-character string to a number: a decimal digit gives
    its value, a whitespace character gives 0, and anything else gives NaN,
    which `>>> 0` turns into 0 for the whole accumulator. */
module Shard {
  import opened Wrappers
  import opened Radix
  import opened JsNumbers

  /** The characters ECMAScript's `Number(string)` skips as white space
      (white space and line terminators). */
  predicate IsJsWhitespace(c: char)
  {
    var u := c as int;
    (0x09 <= u <= 0x0D) || u == 0x20 || u == 0xA0 || u == 0x1680
    || (0x2000 <= u <= 0x200A) || u == 0x2028 || u == 0x2029 || u == 0x202F
    || u == 0x205F || u == 0x3000 || u == 0xFEFF
  }

  /** `Number(c)` for a one-character string: None stands for NaN. */
  function CharToNumber(c: char): (r: Option<nat>)
    ensures r.Some? <==> ('0' <= c <= '9' || IsJsWhitespace(c))
    ensures r.Some? ==> r.value <= 9
  {
    if '0' <= c <= '9' then Some(c as int - '0' as int)
    else if IsJsWhitespace(c) then Some(0)
    else None
  }

  /** One iteration of the hash loop: `h = (x.charAt(0) * 33 + h) >>> 0`.
      `NaN >>> 0` is 0, so a character that is neither a digit nor white
      space resets the accumulator. */
  function HashStep(h: nat, c: char): nat
  {
    match CharToNumber(c)
    case None => 0
    case Some(v) => (v * 33 + h) % TwoTo32
  }

  /** The value of `djb2_hash(s)`: the steps folded over the key from the
      left, starting at 5381. The result is a 32-bit unsigned integer. */
  function Djb2(s: string): (h: nat)
    ensures h < TwoTo32
  {
    if s == [] then 5381 else HashStep(Djb2(s[..|s| - 1]), s[|s| - 1])
  }

  /** `djb2_hash`, the loop that reassigns `h` once per character. */
  method Djb2Hash(s: string) returns (h: nat)
    ensures h == Djb2(s)
    ensures h < TwoTo32
  {
    h := 5381;
    for i := 0 to |s|
      invariant h == Djb2(s[..i])
    {
      assert s[..i + 1][..i] == s[..i];
      h := HashStep(h, s[i]);
    }
    assert s[..|s|] == s;
  }

  /** A key whose last character is neither a digit nor white space hashes
      to 0, whatever comes before it. */
  lemma HashOfNonNumericEnding(s: string)
    requires s != [] && CharToNumber(s[|s| - 1]).None?
    ensures Djb2(s) == 0
  {
  }

  /** Only the characters after the last non-numeric one matter. */
  lemma {:induction false} HashAfterReset(prefix: string, c: char, suffix: string)
    requires CharToNumber(c).None?
    ensures Djb2(prefix + [c] + suffix) == Djb2([c] + suffix)
    decreases |suffix|
  {
    if suffix == [] {
      assert (prefix + [c] + suffix)[..|prefix|] == prefix;
    } else {
      var init, last := suffix[..|suffix| - 1], suffix[|suffix| - 1];
      HashAfterReset(prefix, c, init);
      assert suffix == init + [last];
      assert prefix + [c] + suffix == (prefix + [c] + init) + [last];
      assert [c] + suffix == ([c] + init) + [last];
      Djb2Snoc(prefix + [c] + init, last);
      Djb2Snoc([c] + init, last);
    }
  }

  /** One more character is one more step of the loop. */
  lemma Djb2Snoc(p: string, x: char)
    ensures Djb2(p + [x]) == HashStep(Djb2(p), x)
  {
    assert (p + [x])[..|p|] == p;
  }

  /** A base-36 numeral of a value below 4096 has one to three digits. */
  lemma Base36Length(n: nat)
    requires n < 4096
    ensures 1 <= |ToRadix(n, 36)| <= 3
  {
    if n >= 36 {
      assert ToRadix(n, 36) == ToRadix(n / 36, 36) + [DigitChar(n % 36)];
      if n / 36 >= 36 {
        assert ToRadix(n / 36, 36) == ToRadix(n / 36 / 36, 36) + [DigitChar(n / 36 % 36)];
        assert n / 36 / 36 < 36;
      }
    }
  }

  /** `prefix_directory_for(name)`: the base-36 numeral of the hash's low
      twelve bits (`& 0xfff`). It depends on the key alone, reads back as a
      number below 4096, and has one to three lower-case digits, with no
      leading zero unless the value is 0. */
  function PrefixDirectoryFor(name: string): (dir: string)
    ensures 1 <= |dir| <= 3
    ensures forall i | 0 <= i < |dir| :: dir[i] in Digits
    ensures FromRadix(dir, 36) == Djb2(name) % 4096
    ensures FromRadix(dir, 36) < 4096
    ensures dir[0] != '0' || Djb2(name) % 4096 == 0
  {
    var bucket := Djb2(name) % 4096;
    Base36Length(bucket);
    FromToRadix(bucket, 36);
    ToRadixDigits(bucket, 36);
    assert Digits[..36] == Digits;
    ToRadix(bucket, 36)
  }

  /** Every key that ends in a character other than a digit or white space
      shares the shard directory "0". */
  lemma NonNumericEndingShard(name: string)
    requires name != [] && CharToNumber(name[|name| - 1]).None?
    ensures PrefixDirectoryFor(name) == "0"
  {
    HashOfNonNumericEnding(name);
  }
}
