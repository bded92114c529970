/** HKDF with HMAC-SHA-256 left abstract, against RFC 5869. */
module Hkdf {
  import opened Utf8
  import opened Words

  const HASH_LEN: nat := 32

  /** HMAC of a key and a message. */
  type Hmac = (Bytes, Bytes) -> Bytes

  ghost predicate IsHash(hmac: Hmac) {
    forall k, m :: |hmac(k, m)| == HASH_LEN
  }

  // ------------------------------------------------------------------ RFC 5869

  /** Section 2.2. */
  function Extract(hmac: Hmac, salt: Bytes, ikm: Bytes): Bytes {
    hmac(salt, ikm)
  }

  /**
    * T(i) of section 2.3; T(0) is empty. The standard's single counter octet is `i` itself and stops at 255, that
    * is, at 8160 octets of output; beyond it the program's counter starts over, as written here.
    */
  function T(hmac: Hmac, prk: Bytes, info: Bytes, i: nat): Bytes {
    if i == 0 then [] else hmac(prk, T(hmac, prk, info, i - 1) + info + [i % 0x100])
  }

  /** The first `n` blocks, one after another. */
  function Blocks(hmac: Hmac, prk: Bytes, info: Bytes, n: nat): Bytes {
    if n == 0 then [] else Blocks(hmac, prk, info, n - 1) + T(hmac, prk, info, n)
  }

  /** How many blocks cover an output of the given length. */
  function Ceil(length: nat): nat {
    (length + HASH_LEN - 1) / HASH_LEN
  }

  lemma {:induction false} BlocksLength(hmac: Hmac, prk: Bytes, info: Bytes, n: nat)
    requires IsHash(hmac)
    ensures |Blocks(hmac, prk, info, n)| == HASH_LEN * n
  {
    if n > 0 {
      BlocksLength(hmac, prk, info, n - 1);
    }
  }

  /** As many bytes of the blocks as are asked for. */
  function Expand(hmac: Hmac, prk: Bytes, info: Bytes, length: nat): (okm: Bytes)
    requires |Blocks(hmac, prk, info, Ceil(length))| >= length
    ensures |okm| == length
  {
    Blocks(hmac, prk, info, Ceil(length))[..length]
  }

  // ------------------------------------------------------------------ the program

  /** A word array with its number of significant bytes. */
  datatype Packed = Packed(words: seq<Word>, sigBytes: nat)

  ghost predicate Holds(p: Packed, b: Bytes) {
    p.sigBytes == |b| && |p.words| == (|b| + 3) / 4 && Unpack(p.words, p.sigBytes) == b
  }

  lemma WordInFirst(a: Bytes, b: Bytes, i: nat)
    requires i + 3 < |a|
    ensures WordAt(a + b, i) == WordAt(a, i)
  {
  }

  lemma ByteInSecond(a: Bytes, b: Bytes, i: nat)
    ensures ByteOr0(a + b, |a| + i) == ByteOr0(b, i)
  {
  }

  lemma WordInSecond(a: Bytes, b: Bytes, i: nat)
    ensures WordAt(a + b, |a| + i) == WordAt(b, i)
  {
    ByteInSecond(a, b, i);
    ByteInSecond(a, b, i + 1);
    ByteInSecond(a, b, i + 2);
    ByteInSecond(a, b, i + 3);
  }

  lemma PackLengths(a: Bytes, b: Bytes)
    requires |a| % 4 == 0
    ensures 4 * |Pack(a)| == |a| && |Pack(a + b)| == |Pack(a)| + |Pack(b)|
  {
    assert |a| == 4 * (|a| / 4);
    assert (4 * (|a| / 4) + |b| + 3) / 4 == |a| / 4 + (|b| + 3) / 4;
  }

  lemma PackedWord(a: Bytes, b: Bytes, k: nat)
    requires |a| == 4 * |Pack(a)| && |Pack(a + b)| == |Pack(a)| + |Pack(b)| && k < |Pack(a + b)|
    ensures Pack(a + b)[k] == (Pack(a) + Pack(b))[k]
  {
    var n := |Pack(a)|;
    if k < n {
      WordInFirst(a, b, 4 * k);
    } else {
      WordInSecond(a, b, 4 * (k - n));
      assert |a| + 4 * (k - n) == 4 * k;
    }
  }

  /** Packing whole words one block at a time is packing everything. */
  lemma PackConcat(a: Bytes, b: Bytes)
    requires |a| % 4 == 0
    ensures Pack(a + b) == Pack(a) + Pack(b)
  {
    PackLengths(a, b);
    forall k | 0 <= k < |Pack(a + b)|
      ensures Pack(a + b)[k] == (Pack(a) + Pack(b))[k]
    {
      PackedWord(a, b, k);
    }
  }

  lemma UnpackPrefix(words: seq<Word>, m: nat, n: nat)
    requires n <= 4 * m && m <= |words|
    ensures Unpack(words[..m], n) == Unpack(words, n)[..n]
  {
    forall i | 0 <= i < n
      ensures ByteAt(words[..m], i) == ByteAt(words, i)
    {
    }
  }

  /** Cutting packed bytes after the word that holds byte `length` keeps exactly the first `length` bytes. */
  lemma Truncated(b: Bytes, length: nat)
    requires length <= |b|
    ensures (length + 3) / 4 <= |Pack(b)|
    ensures Unpack(Pack(b)[..(length + 3) / 4], length) == b[..length]
  {
    PackRoundTrip(b);
    UnpackPrefix(Pack(b), (length + 3) / 4, length);
    forall i | 0 <= i < length
      ensures Unpack(Pack(b), length)[i] == b[i]
    {
      assert Unpack(Pack(b), |b|)[i] == ByteAt(Pack(b), i);
    }
  }

  /** One more block appended to the packed output. */
  lemma OutputGrows(hmac: Hmac, prk: Bytes, info: Bytes, i: nat)
    requires IsHash(hmac) && i > 0
    ensures Pack(Blocks(hmac, prk, info, i)) == Pack(Blocks(hmac, prk, info, i - 1)) + Pack(T(hmac, prk, info, i))
  {
    BlocksLength(hmac, prk, info, i - 1);
    PackConcat(Blocks(hmac, prk, info, i - 1), T(hmac, prk, info, i));
  }

  /**
    * The derivation loop as it is written: `output` grows by whole hash blocks, the block counter is the top byte
    * of a one-byte word, and the result is cut to the words that hold `length` bytes. It returns exactly
    * `length` significant bytes, those of the standard.
    */
  method HkdfSha256(hmac: Hmac, ikm: Bytes, salt: Bytes, info: Bytes, length: nat) returns (r: Packed)
    requires IsHash(hmac)
    ensures |Blocks(hmac, Extract(hmac, salt, ikm), info, Ceil(length))| >= length
    ensures Holds(r, Expand(hmac, Extract(hmac, salt, ikm), info, length))
  {
    var prk := hmac(salt, ikm);
    var n := (length + HASH_LEN - 1) / HASH_LEN;
    var t: Bytes := [];
    var output: seq<Word> := [];
    assert Pack([]) == [];
    for i := 1 to n + 1
      invariant t == T(hmac, prk, info, i - 1)
      invariant output == Pack(Blocks(hmac, prk, info, i - 1))
    {
      var counter: Byte := i % 0x100;
      var block := t + info + [counter];
      t := hmac(prk, block);
      OutputGrows(hmac, prk, info, i);
      output := output + Pack(t);
    }
    BlocksLength(hmac, prk, info, n);
    Truncated(Blocks(hmac, prk, info, n), length);
    r := Packed(output[..(length + 3) / 4], length);
  }

  // ------------------------------------------------------------------ prefixes

  lemma {:induction false} BlocksPrefix(hmac: Hmac, prk: Bytes, info: Bytes, m: nat, n: nat)
    requires m <= n
    ensures Blocks(hmac, prk, info, m) <= Blocks(hmac, prk, info, n)
    decreases n - m
  {
    if m < n {
      BlocksPrefix(hmac, prk, info, m, n - 1);
    }
  }

  /** A shorter output is a prefix of a longer one. */
  lemma ShorterIsPrefix(hmac: Hmac, prk: Bytes, info: Bytes, short: nat, long: nat)
    requires IsHash(hmac) && short <= long
    ensures |Blocks(hmac, prk, info, Ceil(short))| >= short
    ensures |Blocks(hmac, prk, info, Ceil(long))| >= long
    ensures Expand(hmac, prk, info, short) <= Expand(hmac, prk, info, long)
  {
    BlocksLength(hmac, prk, info, Ceil(short));
    BlocksLength(hmac, prk, info, Ceil(long));
    BlocksPrefix(hmac, prk, info, Ceil(short), Ceil(long));
  }
}
