/** Packing bytes into 32-bit words, most significant byte first, and back. */
module Words {
  import opened Base
  import opened Utf8

  /** The bit pattern of a 32-bit integer, read as an unsigned number. */
  type Word = x: int | 0 <= x < 0x1_0000_0000

  /** Byte `i`, or zero past the end. */
  function ByteOr0(b: Bytes, i: nat): Byte {
    if i < |b| then b[i] else 0
  }

  /** Four bytes as one word, the first the most significant. */
  function Word4(a: int, b: int, c: int, d: int): Word
    requires 0 <= a < 0x100 && 0 <= b < 0x100 && 0 <= c < 0x100 && 0 <= d < 0x100
  {
    a * 0x1_00_00_00 + b * 0x1_00_00 + c * 0x1_00 + d
  }

  function WordAt(b: Bytes, i: nat): Word {
    Word4(ByteOr0(b, i), ByteOr0(b, i + 1), ByteOr0(b, i + 2), ByteOr0(b, i + 3))
  }

  /** Four bytes a word, the last word padded with zero bytes. */
  function Pack(b: Bytes): (r: seq<Word>)
    ensures |r| == (|b| + 3) / 4
    ensures forall k :: 0 <= k < |r| ==> r[k] == WordAt(b, 4 * k)
  {
    seq((|b| + 3) / 4, k requires 0 <= k => WordAt(b, 4 * k))
  }

  /** The packing loop as it is written. */
  method WordsFromBytes(bytes: array<Byte>) returns (words: seq<Word>)
    ensures words == Pack(bytes[..])
    ensures forall o: object :: fresh(o) ==> o in NOTHING
  {
    words := [];
    var i := 0;
    while i < bytes.Length
      invariant forall o: object :: fresh(o) ==> o in NOTHING
      invariant i == 4 * |words|
      invariant |words| <= (bytes.Length + 3) / 4
      invariant forall k :: 0 <= k < |words| ==> words[k] == WordAt(bytes[..], 4 * k)
      decreases bytes.Length - i
    {
      var w := WordAt(bytes[..], i);
      words := words + [w];
      i := i + 4;
    }
  }

  /** Byte `i` of a word array. */
  function ByteAt(words: seq<Word>, i: nat): Byte
    requires i < 4 * |words|
  {
    var w := words[i / 4];
    match i % 4
    case 0 => w / 0x1_00_00_00
    case 1 => w / 0x1_00_00 % 0x100
    case 2 => w / 0x100 % 0x100
    case _ => w % 0x100
  }

  /** The first `n` bytes of a word array. */
  function Unpack(words: seq<Word>, n: nat): (r: Bytes)
    requires n <= 4 * |words|
    ensures |r| == n && forall i :: 0 <= i < n ==> r[i] == ByteAt(words, i)
  {
    seq(n, i requires 0 <= i < n => ByteAt(words, i))
  }

  lemma WordBytes(a: Byte, b: Byte, c: Byte, d: Byte)
    ensures var w := Word4(a, b, c, d);
      && w / 0x1_00_00_00 == a && w / 0x1_00_00 % 0x100 == b && w / 0x100 % 0x100 == c && w % 0x100 == d
  {
    var w := Word4(a, b, c, d);
    assert w / 0x100 == a * 0x1_00_00 + b * 0x1_00 + c;
    assert w / 0x1_00_00 == a * 0x1_00 + b;
  }

  lemma PackedByte(b: Bytes, i: nat)
    requires i < 4 * |Pack(b)|
    ensures ByteAt(Pack(b), i) == ByteOr0(b, i)
  {
    var j := 4 * (i / 4);
    assert Pack(b)[i / 4] == WordAt(b, j);
    WordBytes(ByteOr0(b, j), ByteOr0(b, j + 1), ByteOr0(b, j + 2), ByteOr0(b, j + 3));
    assert i == j + i % 4;
  }

  /** Unpacking as many bytes as were packed gives them back, and the padding is zero. */
  lemma PackRoundTrip(b: Bytes)
    ensures |b| <= 4 * |Pack(b)| < |b| + 4
    ensures Unpack(Pack(b), |b|) == b
    ensures forall i :: |b| <= i < 4 * |Pack(b)| ==> ByteAt(Pack(b), i) == 0
  {
    forall i | 0 <= i < 4 * |Pack(b)|
      ensures ByteAt(Pack(b), i) == ByteOr0(b, i)
    {
      PackedByte(b, i);
    }
  }
}
