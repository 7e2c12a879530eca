/** SHA-256 as FIPS 180-4 states it, on messages of whole bytes. Nothing here
    mentions buffers or streaming. */
module Fips180 {
  import opened Utf8

  // -----------------------------------------------------------------------
  // Operations on 32-bit words (section 3.2)

  const MODULUS: nat := 0x1_0000_0000

  type word = n: nat | n < MODULUS

  /** Addition modulo 2 to the 32. */
  function Plus(x: word, y: word): word {
    (x + y) % MODULUS
  }

  function Pow2(n: nat): (p: nat)
    ensures p > 0
  {
    if n == 0 then 1 else 2 * Pow2(n - 1)
  }

  /** Digit by digit, least significant first: 1 where `x` and `y` differ. */
  function XorBits(x: nat, y: nat, bits: nat): (r: nat)
    ensures r < Pow2(bits)
  {
    if bits == 0 then 0 else 2 * XorBits(x / 2, y / 2, bits - 1) + (if x % 2 != y % 2 then 1 else 0)
  }

  /** Digit by digit: 1 where both `x` and `y` are 1. */
  function AndBits(x: nat, y: nat, bits: nat): (r: nat)
    ensures r < Pow2(bits)
  {
    if bits == 0 then 0 else 2 * AndBits(x / 2, y / 2, bits - 1) + (if x % 2 == 1 && y % 2 == 1 then 1 else 0)
  }

  lemma WordBits()
    ensures Pow2(32) == MODULUS
  {
    assert Pow2(8) == 0x100;
    assert Pow2(16) == 0x1_0000;
    assert Pow2(24) == 0x100_0000;
  }

  function Xor(x: word, y: word): word {
    WordBits();
    XorBits(x, y, 32)
  }

  function And(x: word, y: word): word {
    WordBits();
    AndBits(x, y, 32)
  }

  function Not(x: word): word {
    MODULUS - 1 - x
  }

  function Shr(x: word, n: nat): word {
    if n == 0 then x else Shr(x / 2, n - 1)
  }

  /** The bits that fall out on the right come in on the left. */
  function Rotr(x: word, n: nat): word
    decreases n
  {
    if n == 0 then x else Rotr(x / 2 + x % 2 * (MODULUS / 2), n - 1)
  }

  // -----------------------------------------------------------------------
  // Functions (section 4.1.2) and constants (sections 4.2.2 and 5.3.3)

  function Ch(x: word, y: word, z: word): word {
    Xor(And(x, y), And(Not(x), z))
  }

  function Maj(x: word, y: word, z: word): word {
    Xor(Xor(And(x, y), And(x, z)), And(y, z))
  }

  function BigSigma0(x: word): word {
    Xor(Xor(Rotr(x, 2), Rotr(x, 13)), Rotr(x, 22))
  }

  function BigSigma1(x: word): word {
    Xor(Xor(Rotr(x, 6), Rotr(x, 11)), Rotr(x, 25))
  }

  function SmallSigma0(x: word): word {
    Xor(Xor(Rotr(x, 7), Rotr(x, 18)), Shr(x, 3))
  }

  function SmallSigma1(x: word): word {
    Xor(Xor(Rotr(x, 17), Rotr(x, 19)), Shr(x, 10))
  }

  /** The constants of the rounds, in rows of eight. */
  function KRow(r: nat): (row: seq<word>)
    ensures |row| == 8
  {
    match r
    case 0 => [0x428a2f98, 0x71374491, 0xb5c0fbcf, 0xe9b5dba5, 0x3956c25b, 0x59f111f1, 0x923f82a4, 0xab1c5ed5]
    case 1 => [0xd807aa98, 0x12835b01, 0x243185be, 0x550c7dc3, 0x72be5d74, 0x80deb1fe, 0x9bdc06a7, 0xc19bf174]
    case 2 => [0xe49b69c1, 0xefbe4786, 0x0fc19dc6, 0x240ca1cc, 0x2de92c6f, 0x4a7484aa, 0x5cb0a9dc, 0x76f988da]
    case 3 => [0x983e5152, 0xa831c66d, 0xb00327c8, 0xbf597fc7, 0xc6e00bf3, 0xd5a79147, 0x06ca6351, 0x14292967]
    case 4 => [0x27b70a85, 0x2e1b2138, 0x4d2c6dfc, 0x53380d13, 0x650a7354, 0x766a0abb, 0x81c2c92e, 0x92722c85]
    case 5 => [0xa2bfe8a1, 0xa81a664b, 0xc24b8b70, 0xc76c51a3, 0xd192e819, 0xd6990624, 0xf40e3585, 0x106aa070]
    case 6 => [0x19a4c116, 0x1e376c08, 0x2748774c, 0x34b0bcb5, 0x391c0cb3, 0x4ed8aa4a, 0x5b9cca4f, 0x682e6ff3]
    case _ => [0x748f82ee, 0x78a5636f, 0x84c87814, 0x8cc70208, 0x90befffa, 0xa4506ceb, 0xbef9a3f7, 0xc67178f2]
  }

  function K(t: nat): word {
    KRow(t / 8)[t % 8]
  }

  /** Eight words: a hash value, or the working variables of the rounds. */
  datatype Eight = Eight(a: word, b: word, c: word, d: word, e: word, f: word, g: word, h: word)

  const INITIAL: Eight :=
    Eight(0x6a09e667, 0xbb67ae85, 0x3c6ef372, 0xa54ff53a, 0x510e527f, 0x9b05688c, 0x1f83d9ab, 0x5be0cd19)

  // -----------------------------------------------------------------------
  // Words and bytes, big end first (section 3.1)

  function Word(s: seq<byte>): word
    requires |s| == 4
  {
    0x100_0000 * (s[0] as int) + 0x1_0000 * (s[1] as int) + 0x100 * (s[2] as int) + s[3]
  }

  /** The `n` lowest base-256 digits of `x`, most significant first. */
  function Octets(x: nat, n: nat): (s: seq<byte>)
    ensures |s| == n
  {
    if n == 0 then [] else Octets(x / 256, n - 1) + [x % 256]
  }

  /** Words and their four bytes correspond one to one. */
  lemma WordRoundTrip(w: word, s: seq<byte>)
    ensures Word(Octets(w, 4)) == w
    ensures |s| == 4 ==> Octets(Word(s), 4) == s
  {
    hide Octets;
    FourOctets(w);
    Quarters(w);
    if |s| == 4 {
      FourOctets(Word(s));
      BytesOfWord(s);
    }
  }

  lemma Quarters(w: word)
    ensures w == 0x100_0000 * (w / 256 / 256 / 256 % 256) + 0x1_0000 * (w / 256 / 256 % 256)
                 + 0x100 * (w / 256 % 256) + w % 256
  {
    var x := w / 256;
    var y := x / 256;
    assert w == 256 * x + w % 256 && x == 256 * y + x % 256 && y == 256 * (y / 256) + y % 256;
    assert y / 256 < 256;
  }

  lemma BytesOfWord(s: seq<byte>)
    requires |s| == 4
    ensures var x := Word(s);
            x % 256 == s[3] && x / 256 % 256 == s[2] && x / 256 / 256 % 256 == s[1] && x / 256 / 256 / 256 % 256 == s[0]
  {
    var x := Word(s);
    assert x / 256 == 0x1_0000 * (s[0] as int) + 0x100 * (s[1] as int) + s[2];
    assert x / 256 / 256 == 0x100 * (s[0] as int) + s[1];
  }

  lemma FourOctets(x: nat)
    ensures Octets(x, 4) == [x / 256 / 256 / 256 % 256, x / 256 / 256 % 256, x / 256 % 256, x % 256]
  {
    assert Octets(x / 256 / 256 / 256, 1) == [x / 256 / 256 / 256 % 256];
    assert Octets(x / 256 / 256, 2) == [x / 256 / 256 / 256 % 256, x / 256 / 256 % 256];
    assert Octets(x / 256, 3) == [x / 256 / 256 / 256 % 256, x / 256 / 256 % 256, x / 256 % 256];
  }

  function Words(v: Eight): (ws: seq<word>)
    ensures |ws| == 8
  {
    [v.a, v.b, v.c, v.d, v.e, v.f, v.g, v.h]
  }

  /** The bytes of the first `n` words. */
  function WordBytes(ws: seq<word>, n: nat): (s: seq<byte>)
    requires n <= |ws|
    ensures |s| == 4 * n
  {
    if n == 0 then [] else WordBytes(ws, n - 1) + Octets(ws[n - 1], 4)
  }

  /** The digest: the eight words in order. */
  function DigestOf(hash: Eight): (s: seq<byte>)
    ensures |s| == 32
  {
    WordBytes(Words(hash), 8)
  }

  // -----------------------------------------------------------------------
  // Padding (section 5.1.1)

  /** How many zero bytes follow the byte 0x80. */
  function ZeroBytes(length: nat): nat {
    (119 - length % 64) % 64
  }

  /** After `z` zero bytes, eight bytes of the last block are left. */
  predicate LeavesEight(length: nat, z: nat) {
    (length + 1 + z) % 64 == 56
  }

  /** As many zero bytes as it takes, and no more. */
  lemma PaddingIsMinimal(length: nat)
    ensures LeavesEight(length, ZeroBytes(length))
    ensures forall z: nat :: z < ZeroBytes(length) ==> !LeavesEight(length, z)
  {
    var r, q := length % 64, length / 64;
    forall z: nat | z <= ZeroBytes(length) ensures LeavesEight(length, z) <==> (r + 1 + z) % 64 == 56 {
      assert length + 1 + z == (r + 1 + z) + 64 * q;
    }
  }

  function Zeros(n: nat): (s: seq<byte>)
    ensures |s| == n && forall i :: 0 <= i < n ==> s[i] == 0
  {
    seq(n, i => 0)
  }

  /** The message, a one bit, zero bits, and its length in 64 bits. */
  function Padded(message: seq<byte>, bits: nat): (s: seq<byte>)
    ensures |s| % 64 == 0
  {
    PaddingIsMinimal(|message|);
    message + [0x80] + Zeros(ZeroBytes(|message|)) + Octets(bits, 8)
  }

  // -----------------------------------------------------------------------
  // Computation (section 6.2.2)

  /** The message schedule. */
  function W(block: seq<byte>, t: nat): word
    requires |block| == 64
  {
    if t < 16 then Word(block[4 * t..4 * t + 4])
    else
      Plus(Plus(Plus(SmallSigma1(W(block, t - 2)), W(block, t - 7)), SmallSigma0(W(block, t - 15))), W(block, t - 16))
  }

  function Round(v: Eight, k: word, w: word): Eight {
    var t1 := Plus(Plus(Plus(Plus(v.h, BigSigma1(v.e)), Ch(v.e, v.f, v.g)), k), w);
    var t2 := Plus(BigSigma0(v.a), Maj(v.a, v.b, v.c));
    Eight(Plus(t1, t2), v.a, v.b, v.c, Plus(v.d, t1), v.e, v.f, v.g)
  }

  /** The working variables after `t` rounds. */
  function Rounds(hash: Eight, block: seq<byte>, t: nat): Eight
    requires |block| == 64 && t <= 64
  {
    if t == 0 then hash else Round(Rounds(hash, block, t - 1), K(t - 1), W(block, t - 1))
  }

  function Add(x: Eight, y: Eight): Eight {
    Eight(Plus(x.a, y.a), Plus(x.b, y.b), Plus(x.c, y.c), Plus(x.d, y.d),
          Plus(x.e, y.e), Plus(x.f, y.f), Plus(x.g, y.g), Plus(x.h, y.h))
  }

  function NextHash(hash: Eight, block: seq<byte>): Eight
    requires |block| == 64
  {
    Add(hash, Rounds(hash, block, 64))
  }

  /** The hash value after all blocks of `s`. */
  function HashBlocks(s: seq<byte>): Eight
    requires |s| % 64 == 0
    decreases |s|
  {
    if s == [] then INITIAL else NextHash(HashBlocks(s[..|s| - 64]), s[|s| - 64..])
  }

  /** The digest with `bits` written into the length field. */
  function DigestWithLength(message: seq<byte>, bits: nat): seq<byte> {
    DigestOf(HashBlocks(Padded(message, bits)))
  }

  /** SHA-256 of messages the standard covers: below 2 to the 64 bits. */
  function Sha256(message: seq<byte>): (digest: seq<byte>)
    requires |message| < 0x2000_0000_0000_0000
  {
    DigestWithLength(message, 8 * |message|)
  }
}
