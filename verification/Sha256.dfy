/** The streaming SHA-256 of `hell-digest`: a partial block, a running hash value
    and a saturating byte counter, updated in place. */
module Sha256 {
  import opened Utf8
  import opened Wrappers
  import opened Hexadecimal
  import opened Fips180

  function Saturated(n: nat): nat {
    if n > MAX_U64 then MAX_U64 else n
  }

  /** The length field that a message of `n` bytes gets: the counter saturates,
      the multiplication wraps. */
  function LengthField(n: nat): nat {
    Saturated(n) * 8 % (MAX_U64 + 1)
  }

  /** What the streaming digest yields: the standard's digest as long as the
      standard has one. */
  function Digest(message: seq<byte>): seq<byte> {
    DigestWithLength(message, LengthField(|message|))
  }

  /** The field holds the number of bits exactly when that fits in 64 bits. */
  lemma LengthFieldIsExact(n: nat)
    ensures LengthField(n) == 8 * n <==> n < 0x2000_0000_0000_0000
  {}

  /** The standard pads messages of fewer than 2 to the 61 bytes. Those get its
      digest; for all longer ones the field is not the number of bits. */
  lemma DigestIsStandard(message: seq<byte>)
    ensures |message| < 0x2000_0000_0000_0000 ==> Digest(message) == Sha256(message)
    ensures |message| < 0x2000_0000_0000_0000 <==> LengthField(|message|) == 8 * |message|
  {
    hide DigestWithLength;
    LengthFieldIsExact(|message|);
  }

  function Loaded(s: seq<word>): Eight
    requires |s| == 8
  {
    Eight(s[0], s[1], s[2], s[3], s[4], s[5], s[6], s[7])
  }

  // -----------------------------------------------------------------------
  // One block

  /** The schedule adds its four words in another order than the standard. */
  lemma SameSum(w: word, x: word, y: word, z: word)
    ensures Plus(Plus(Plus(w, x), y), z) == Plus(Plus(Plus(z, y), x), w)
  {
    hide Plus;
    PlusLaws(Plus(Plus(w, x), y), z, 0);
    PlusLaws(Plus(w, x), y, 0);
    PlusLaws(z, y, Plus(w, x));
    PlusLaws(w, x, 0);
    PlusLaws(Plus(z, y), x, w);
  }

  lemma PlusLaws(x: word, y: word, z: word)
    ensures Plus(x, y) == Plus(y, x)
    ensures Plus(Plus(x, y), z) == Plus(x, Plus(y, z))
  {}

  lemma NextWord(block: seq<byte>, t: nat)
    requires |block| == 64 && 16 <= t
    ensures W(block, t) ==
              Plus(Plus(Plus(W(block, t - 16), SmallSigma0(W(block, t - 15))), W(block, t - 7)),
                   SmallSigma1(W(block, t - 2)))
  {
    hide SmallSigma0, SmallSigma1, Word, Plus;
    SameSum(W(block, t - 16), SmallSigma0(W(block, t - 15)), W(block, t - 7), SmallSigma1(W(block, t - 2)));
  }

  lemma FirstWord(block: seq<byte>, t: nat)
    requires |block| == 64 && t < 16
    ensures W(block, t) == Word(block[4 * t..4 * t + 4])
  {}

  /** The message schedule of a block. */
  method Schedule(block: seq<byte>) returns (words: array<word>)
    requires |block| == 64
    ensures fresh(words) && words.Length == 64 && forall t: nat :: t < 64 ==> words[t] == W(block, t)
  {
    hide W, Word, Plus, Xor, Rotr, Shr;
    words := new word[64];
    var index := 0;
    while index < 16
      invariant 0 <= index <= 16
      invariant forall t: nat :: t < index ==> words[t] == W(block, t)
    {
      FirstWord(block, index);
      words[index] := Word(block[4 * index..4 * index + 4]);
      index := index + 1;
    }
    while index < 64
      invariant 16 <= index <= 64
      invariant forall t: nat :: t < index ==> words[t] == W(block, t)
    {
      var x, y := words[index - 15], words[index - 2];
      NextWord(block, index);
      var s0 := Xor(Xor(Rotr(x, 7), Rotr(x, 18)), Shr(x, 3));
      var s1 := Xor(Xor(Rotr(y, 17), Rotr(y, 19)), Shr(y, 10));
      words[index] := Plus(Plus(Plus(words[index - 16], s0), words[index - 7]), s1);
      index := index + 1;
    }
  }

  lemma NextRound(hash: Eight, block: seq<byte>, t: nat)
    requires |block| == 64 && t < 64
    ensures Rounds(hash, block, 0) == hash
    ensures Rounds(hash, block, t + 1) == Round(Rounds(hash, block, t), K(t), W(block, t))
  {
    hide Round, K, W;
  }

  /** One block into the running hash value. */
  method Compress(state: array<word>, block: seq<byte>)
    requires state.Length == 8 && |block| == 64
    modifies state
    ensures Loaded(state[..]) == NextHash(Loaded(old(state[..])), block)
  {
    hide W, K, Rounds, Plus, Xor, And, Not, Rotr;
    var words := Schedule(block);
    ghost var hash := Loaded(state[..]);
    var a, b, c, d := state[0], state[1], state[2], state[3];
    var e, f, g, h := state[4], state[5], state[6], state[7];
    NextRound(hash, block, 0);
    var index := 0;
    while index < 64
      invariant 0 <= index <= 64
      invariant Eight(a, b, c, d, e, f, g, h) == Rounds(hash, block, index)
      modifies {}
    {
      NextRound(hash, block, index);
      var choice := Xor(And(e, f), And(Not(e), g));
      var majority := Xor(Xor(And(a, b), And(a, c)), And(b, c));
      var sum0 := Xor(Xor(Rotr(a, 2), Rotr(a, 13)), Rotr(a, 22));
      var sum1 := Xor(Xor(Rotr(e, 6), Rotr(e, 11)), Rotr(e, 25));
      var first := Plus(Plus(Plus(Plus(h, sum1), choice), K(index)), words[index]);
      var second := Plus(sum0, majority);
      h := g;
      g := f;
      f := e;
      e := Plus(d, first);
      d := c;
      c := b;
      b := a;
      a := Plus(first, second);
      index := index + 1;
    }
    state[0], state[1], state[2], state[3] :=
      Plus(state[0], a), Plus(state[1], b), Plus(state[2], c), Plus(state[3], d);
    state[4], state[5], state[6], state[7] :=
      Plus(state[4], e), Plus(state[5], f), Plus(state[6], g), Plus(state[7], h);
  }

  // -----------------------------------------------------------------------
  // Any number of bytes

  /** `state` is the hash value of the first `n` bytes of `message`. */
  ghost predicate Hashed(state: seq<word>, message: seq<byte>, n: nat) {
    |state| == 8 && n <= |message| && n % 64 == 0 && Loaded(state) == HashBlocks(message[..n])
  }

  lemma NothingHashed(state: seq<word>)
    requires |state| == 8 && Loaded(state) == INITIAL
    ensures Hashed(state, [], 0)
  {}

  /** One more block. */
  lemma HashedMore(was: seq<word>, now: seq<word>, message: seq<byte>, n: nat, block: seq<byte>)
    requires Hashed(was, message, n) && n + 64 <= |message| && block == message[n..n + 64]
    requires |now| == 8 && Loaded(now) == NextHash(Loaded(was), block)
    ensures Hashed(now, message, n + 64)
  {
    hide NextHash;
    assert message[..n + 64][..n] == message[..n];
    assert message[..n + 64][n..] == block;
  }

  /** Whole blocks that are in do not change when more bytes follow. */
  lemma HashedLonger(state: seq<word>, message: seq<byte>, whole: seq<byte>, n: nat)
    requires Hashed(state, message, n) && message <= whole
    ensures Hashed(state, whole, n)
  {
    hide HashBlocks;
    assert whole[..n] == message[..n];
  }

  /** The first `taken` bytes of `whole` are in: the last `len` of them lie in
      the block, the others in the hash value. */
  ghost predicate TakenIn(state: seq<word>, block: seq<byte>, len: nat, whole: seq<byte>, taken: nat) {
    && len <= |block| && len <= taken <= |whole|
    && block[..len] == whole[taken - len..taken]
    && Hashed(state, whole, taken - len)
  }

  lemma AppendedIn(state: seq<word>, was: seq<byte>, now: seq<byte>, len: nat, part: seq<byte>,
                   whole: seq<byte>, taken: nat)
    requires TakenIn(state, was, len, whole, taken)
    requires taken + |part| <= |whole| && part == whole[taken..taken + |part|]
    requires len + |part| <= |now| && now[..len + |part|] == was[..len] + part
    ensures TakenIn(state, now, len + |part|, whole, taken + |part|)
  {
    hide Hashed;
    assert whole[taken - len..taken] + whole[taken..taken + |part|] == whole[taken - len..taken + |part|];
  }

  lemma FlushedIn(was: seq<word>, now: seq<word>, block: seq<byte>, whole: seq<byte>, taken: nat)
    requires |block| == 64 && TakenIn(was, block, 64, whole, taken)
    requires |now| == 8 && Loaded(now) == NextHash(Loaded(was), block)
    ensures TakenIn(now, block, 0, whole, taken)
  {
    hide NextHash, HashBlocks;
    HashedMore(was, now, whole, taken - 64, block);
  }

  lemma BlockIn(was: seq<word>, now: seq<word>, block: seq<byte>, rest: seq<byte>, whole: seq<byte>, taken: nat)
    requires TakenIn(was, block, 0, whole, taken) && |rest| >= 64 && rest == whole[taken..]
    requires |now| == 8 && Loaded(now) == NextHash(Loaded(was), rest[..64])
    ensures TakenIn(now, block, 0, whole, taken + 64) && rest[64..] == whole[taken + 64..]
  {
    hide NextHash, HashBlocks;
    HashedMore(was, now, whole, taken, rest[..64]);
  }

  lemma LongerIn(state: seq<word>, block: seq<byte>, len: nat, whole: seq<byte>, more: seq<byte>)
    requires TakenIn(state, block, len, whole, |whole|)
    ensures TakenIn(state, block, len, whole + more, |whole|)
  {
    hide HashBlocks;
    HashedLonger(state, whole, whole + more, |whole| - len);
  }

  class Stream {
    const state: array<word>
    const block: array<byte>
    var blockLen: nat
    var totalBytes: nat
    ghost var message: seq<byte>

    ghost predicate Valid()
      reads this, state, block
    {
      && state.Length == 8 && block.Length == 64 && blockLen < 64
      && totalBytes == Saturated(|message|)
      && TakenIn(state[..], block[..], blockLen, message, |message|)
    }

    constructor ()
      ensures Valid() && fresh(state) && fresh(block) && message == []
    {
      state := new word[8];
      block := new byte[64](_ => 0);
      blockLen := 0;
      totalBytes := 0;
      message := [];
      new;
      var initial := Words(INITIAL);
      forall k | 0 <= k < 8 {
        state[k] := initial[k];
      }
      NothingHashed(state[..]);
    }

    /** Copies `part` behind the bytes in the block. */
    method Append(part: seq<byte>, ghost whole: seq<byte>, ghost taken: nat)
      requires block.Length == 64 && blockLen + |part| <= 64
      requires TakenIn(state[..], block[..], blockLen, whole, taken)
      requires taken + |part| <= |whole| && part == whole[taken..taken + |part|]
      modifies block, this`blockLen
      ensures blockLen == old(blockLen) + |part|
      ensures TakenIn(state[..], block[..], blockLen, whole, taken + |part|)
    {
      hide TakenIn;
      ghost var hash, was := state[..], block[..];
      forall k | 0 <= k < |part| {
        block[blockLen + k] := part[k];
      }
      assert state[..] == hash;
      assert block[..][..blockLen + |part|] == was[..blockLen] + part;
      AppendedIn(state[..], was, block[..], blockLen, part, whole, taken);
      blockLen := blockLen + |part|;
    }

    /** Adds bytes: whatever the cut, only the concatenation matters. */
    method Update(bytes: seq<byte>)
      requires Valid()
      modifies this, state, block
      ensures Valid() && message == old(message) + bytes
    {
      hide TakenIn, NextHash;
      LongerIn(state[..], block[..], blockLen, message, bytes);
      ghost var taken := |message|;
      message := message + bytes;
      totalBytes := Saturated(totalBytes + Saturated(|bytes|));
      var rest := bytes;
      if blockLen != 0 {
        var copy := if 64 - blockLen < |bytes| then 64 - blockLen else |bytes|;
        Append(bytes[..copy], message, taken);
        taken := taken + copy;
        rest := bytes[copy..];
        if blockLen == 64 {
          ghost var hash := state[..];
          assert block[..] == block[..64];
          Compress(state, block[..]);
          FlushedIn(hash, state[..], block[..], message, taken);
          blockLen := 0;
        } else {
          return;
        }
      }
      while |rest| >= 64
        invariant |rest| <= |message| && taken == |message| - |rest| && rest == message[taken..]
        invariant TakenIn(state[..], block[..], 0, message, taken)
        modifies state
      {
        ghost var hash := state[..];
        Compress(state, rest[..64]);
        BlockIn(hash, state[..], block[..], rest, message, taken);
        rest := rest[64..];
        taken := taken + 64;
      }
      Append(rest, message, taken);
    }

    /** Pads in place and returns the digest. */
    method Finish() returns (digest: seq<byte>)
      requires Valid()
      modifies this, state, block
      ensures digest == Digest(old(message)) && message == old(message)
    {
      hide NextHash, HashBlocks, Padded, LengthField, Octets, Words, Hashed, Loaded;
      var bits := totalBytes * 8 % (MAX_U64 + 1);
      FieldFromCounter(|message|);
      ghost var whole, n := Padded(message, bits), |message| - blockLen;
      ghost var tail := message[n..];
      assert block[..blockLen] == tail && Hashed(state[..], message, n);
      ghost var hash := state[..];
      PaddedEnds(hash, message, blockLen, bits);
      block[blockLen] := 0x80;
      blockLen := blockLen + 1;
      forall k | blockLen <= k < 64 {
        block[k] := 0;
      }
      assert block[..] == tail + [0x80] + Zeros(64 - blockLen);
      assert state[..] == hash;
      if blockLen > 56 {
        Compress(state, block[..]);
        HashedMore(hash, state[..], whole, n, block[..]);
        n := n + 64;
        hash := state[..];
        forall k | 0 <= k < 64 {
          block[k] := 0;
        }
      }
      var length := Octets(bits, 8);
      forall k | 0 <= k < 8 {
        block[56 + k] := length[k];
      }
      assert state[..] == hash && block[..] == whole[n..n + 64];
      Compress(state, block[..]);
      HashedMore(hash, state[..], whole, n, block[..]);
      AllHashed(state[..], whole);
      digest := [];
      var i := 0;
      while i < 8
        invariant 0 <= i <= 8 && digest == WordBytes(state[..], i)
        modifies {}
      {
        digest := digest + Octets(state[i], 4);
        i := i + 1;
      }
      LoadedWords(state[..]);
    }
  }

  lemma FieldFromCounter(n: nat)
    ensures LengthField(n) == Saturated(n) * 8 % (MAX_U64 + 1)
  {}

  lemma LoadedWords(s: seq<word>)
    requires |s| == 8
    ensures Words(Loaded(s)) == s
  {}

  lemma AllHashed(state: seq<word>, whole: seq<byte>)
    requires Hashed(state, whole, |whole|)
    ensures |whole| % 64 == 0 && Loaded(state) == HashBlocks(whole)
  {
    assert whole[..|whole|] == whole;
  }

  /** The one or two blocks that padding makes of the last bytes. */
  lemma PaddedEnds(state: seq<word>, message: seq<byte>, len: nat, bits: nat)
    requires len < 64 && len <= |message| && Hashed(state, message, |message| - len)
    ensures Hashed(state, Padded(message, bits), |message| - len)
    ensures var n, whole := |message| - len, Padded(message, bits);
            var tail := message[n..];
            if len < 56 then
                 |whole| == n + 64 && whole[n..n + 64] == tail + [0x80] + Zeros(55 - len) + Octets(bits, 8)
               else
                 && |whole| == n + 128
                 && whole[n..n + 64] == tail + [0x80] + Zeros(63 - len)
                 && whole[n + 64..n + 128] == Zeros(56) + Octets(bits, 8)
  {
    hide Octets, HashBlocks;
    assert |message| % 64 == len;
    HashedLonger(state, message, Padded(message, bits), |message| - len);
  }

  // -----------------------------------------------------------------------
  // Every way of cutting a message

  ghost function Joined(chunks: seq<seq<byte>>): seq<byte> {
    if chunks == [] then [] else Joined(chunks[..|chunks| - 1]) + chunks[|chunks| - 1]
  }

  /** One update per chunk: the digest is that of the joined message. */
  method DigestOfChunks(chunks: seq<seq<byte>>) returns (digest: seq<byte>)
    ensures digest == Digest(Joined(chunks))
    ensures |Joined(chunks)| < 0x2000_0000_0000_0000 ==> digest == Sha256(Joined(chunks))
  {
    hide Digest, TakenIn, Saturated;
    var stream := new Stream();
    var i := 0;
    while i < |chunks|
      invariant 0 <= i <= |chunks| && stream.Valid() && stream.message == Joined(chunks[..i])
      invariant fresh(stream) && fresh(stream.state) && fresh(stream.block)
    {
      stream.Update(chunks[i]);
      assert chunks[..i + 1][..i] == chunks[..i];
      i := i + 1;
    }
    assert chunks[..|chunks|] == chunks;
    digest := stream.Finish();
    if |Joined(chunks)| < 0x2000_0000_0000_0000 {
      DigestIsStandard(Joined(chunks));
    }
  }

  // -----------------------------------------------------------------------
  // Hexadecimal form

  datatype HexError = WrongWidth | NotHexadecimal

  function HexByte(high: byte, low: byte): byte
    requires HexDigit(high) && HexDigit(low)
  {
    HexValue(high) * 16 + HexValue(low)
  }

  /** `hex` spells `digest`, in either case of letters. */
  ghost predicate Spells(hex: seq<byte>, digest: seq<byte>) {
    && |hex| == 2 * |digest|
    && (forall i :: 0 <= i < |hex| ==> HexDigit(hex[i]))
    && (forall i :: 0 <= i < |digest| ==> digest[i] == HexByte(hex[2 * i], hex[2 * i + 1]))
  }

  ghost predicate Lowercase(hex: seq<byte>) {
    forall i :: 0 <= i < |hex| ==> !(0x41 <= hex[i] <= 0x46)
  }

  /** Accepts exactly the spellings of 32-byte digests. */
  method FromHex(hex: seq<byte>) returns (r: Result<seq<byte>, HexError>)
    ensures r.Ok? <==> |hex| == 64 && forall i :: 0 <= i < |hex| ==> HexDigit(hex[i])
    ensures r.Ok? ==> |r.value| == 32 && Spells(hex, r.value)
    ensures r.Err? ==> (r.error == WrongWidth <==> |hex| != 64)
  {
    if |hex| != 64 {
      return Err(WrongWidth);
    }
    var bytes: seq<byte> := [];
    while |bytes| < 32
      invariant |bytes| <= 32
      invariant forall i :: 0 <= i < 2 * |bytes| ==> HexDigit(hex[i])
      invariant forall i :: 0 <= i < |bytes| ==> bytes[i] == HexByte(hex[2 * i], hex[2 * i + 1])
      decreases 32 - |bytes|
    {
      var high, low := hex[2 * |bytes|], hex[2 * |bytes| + 1];
      if !HexDigit(high) || !HexDigit(low) {
        return Err(NotHexadecimal);
      }
      bytes := bytes + [HexByte(high, low)];
    }
    r := Ok(bytes);
  }

  /** The lowercase spelling. */
  method Hex(digest: seq<byte>) returns (hex: seq<byte>)
    ensures Spells(hex, digest) && Lowercase(hex)
  {
    hex := [];
    var i := 0;
    while i < |digest|
      invariant 0 <= i <= |digest| && Spells(hex, digest[..i]) && Lowercase(hex)
    {
      var b := digest[i];
      LetterValue(b / 16);
      LetterValue(b % 16);
      hex := hex + [HexLetter(b / 16)] + [HexLetter(b % 16)];
      assert digest[..i + 1] == digest[..i] + [b];
      i := i + 1;
    }
    assert digest[..|digest|] == digest;
  }

  lemma LetterValue(n: nat)
    requires n < 16
    ensures HexDigit(HexLetter(n)) && HexValue(HexLetter(n)) == n && !(0x41 <= HexLetter(n) <= 0x46)
  {}

  /** A spelling determines its digest, and a digest its lowercase spelling. */
  lemma SpellingIsUnique(hex: seq<byte>, other: seq<byte>, digest: seq<byte>, second: seq<byte>)
    requires Spells(hex, digest)
    ensures Spells(hex, second) ==> second == digest
    ensures Spells(other, digest) && Lowercase(hex) && Lowercase(other) ==> other == hex
  {
    if Spells(other, digest) && Lowercase(hex) && Lowercase(other) {
      forall k | 0 <= k < |hex| ensures hex[k] == other[k] {
        var i := k / 2;
        assert HexByte(hex[2 * i], hex[2 * i + 1]) == HexByte(other[2 * i], other[2 * i + 1]);
        SameDigit(hex[2 * i], other[2 * i]);
        SameDigit(hex[2 * i + 1], other[2 * i + 1]);
      }
    }
  }

  lemma SameDigit(x: byte, y: byte)
    requires HexDigit(x) && HexDigit(y) && !(0x41 <= x <= 0x46) && !(0x41 <= y <= 0x46)
    ensures HexValue(x) == HexValue(y) <==> x == y
  {}
}
