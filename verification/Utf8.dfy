/**
  * Turning a JavaScript string (UTF-16 code units) into bytes that can be wiped. The reference for the bytes is
  * UTF-8 as RFC 3629 defines it: section 3 for the layout of the bits, section 4 for what a decoder accepts.
  */
module Utf8 {
  import opened Base

  type Byte = x: int | 0 <= x < 0x100
  type Unit = x: int | 0 <= x < 0x10000
  type Bytes = seq<Byte>

  // Shifts and masks of the source are written as division and remainder, and an `or` of a marker with a field
  // of smaller bits as a sum.

  predicate IsHigh(u: int) {
    0xD800 <= u <= 0xDBFF
  }

  predicate IsLow(u: int) {
    0xDC00 <= u <= 0xDFFF
  }

  /** A continuation byte with the six bits of `c` from bit `6 * k` up. */
  function Tail(c: nat, unit: nat): Byte
    requires unit > 0
  {
    0x80 + c / unit % 0x40
  }

  function Two(c: nat): Bytes
    requires c < 0x800
  {
    [0xC0 + c / 0x40, Tail(c, 1)]
  }

  function Three(c: nat): Bytes
    requires c < 0x10000
  {
    [0xE0 + c / 0x1000, Tail(c, 0x40), Tail(c, 1)]
  }

  function Four(c: nat): Bytes
    requires c < 0x200000
  {
    [0xF0 + c / 0x40000, Tail(c, 0x1000), Tail(c, 0x40), Tail(c, 1)]
  }

  /** The code point of a surrogate pair; what the same arithmetic gives when the second half is not one. */
  function Pair(hi: Unit, lo: Unit): (c: nat)
    requires IsHigh(hi)
    ensures c < 0x200000
  {
    0x10000 + (hi - 0xD800) * 0x400 + (lo - 0xDC00)
  }

  /** The bytes for the front of a string and how many code units they stand for. */
  function FrontBytes(s: seq<Unit>): (r: (Bytes, nat))
    requires s != []
    ensures 0 < r.1 <= |s| && |r.0| <= 4 * r.1
  {
    var c := s[0];
    if c < 0x80 then ([c], 1)
    else if c < 0x800 then (Two(c), 1)
    else if IsHigh(c) && |s| > 1 then (Four(Pair(c, s[1])), 2)
    else (Three(c), 1)
  }

  /** The bytes the program produces, for any string, well-formed or not. */
  function Encode(s: seq<Unit>): (r: Bytes)
    ensures |r| <= 4 * |s|
    decreases |s|
  {
    if s == [] then [] else FrontBytes(s).0 + Encode(s[FrontBytes(s).1..])
  }

  /** Store bytes at a moving index. */
  method Put(out: array<Byte>, w: nat, bs: Bytes) returns (w': nat)
    requires w + |bs| <= out.Length
    modifies out
    ensures w' == w + |bs|
    ensures out[..w'] == old(out[..w]) + bs
    ensures forall o: object :: fresh(o) ==> o in NOTHING
  {
    w' := w;
    for n := 0 to |bs|
      invariant forall o: object :: fresh(o) ==> o in NOTHING
      invariant w' == w + n
      invariant out[..w'] == old(out[..w]) + bs[..n]
    {
      out[w'] := bs[n];
      w' := w' + 1;
    }
  }

  /** Two buffers as the set of objects they are. */
  ghost function Arrays(a: array<Byte>, b: array<Byte>): set<object> {
    {a, b}
  }

  /** A fresh copy of the first `n` bytes. */
  method Slice(buf: array<Byte>, n: nat) returns (r: array<Byte>)
    requires n <= buf.Length
    ensures fresh(r) && r[..] == buf[..n]
    ensures forall o: object :: fresh(o) ==> o in Arrays(r, r)
  {
    r := new Byte[n](k requires 0 <= k < n reads buf requires n <= buf.Length => buf[k]);
  }

  lemma EncodeNext(s: seq<Unit>, i: nat, bs: Bytes, i': nat, before: Bytes)
    requires i < i' <= |s| && FrontBytes(s[i..]) == (bs, i' - i)
    ensures before + Encode(s[i..]) == before + bs + Encode(s[i'..])
  {
    assert s[i..][i' - i..] == s[i'..];
    assert before + (bs + Encode(s[i'..])) == before + bs + Encode(s[i'..]);
  }

  /**
    * The encoder as it is written, filling an oversized buffer and returning a copy of the part in use. The copy
    * is what callers wipe; `scratch` is the buffer it was copied from, which keeps the same bytes.
    */
  method Utf8ToMutableBytes(s: seq<Unit>) returns (r: array<Byte>, ghost scratch: array<Byte>)
    ensures fresh(r) && fresh(scratch) && r != scratch
    ensures r[..] == Encode(s)
    ensures scratch.Length == 4 * |s| && r.Length <= scratch.Length && scratch[..r.Length] == r[..]
    ensures forall o: object :: fresh(o) ==> o in Arrays(r, scratch)
  {
    var out := new Byte[|s| * 4](_ => 0);
    var w, i := 0, 0;
    assert s[0..] == s;
    while i < |s|
      invariant forall o: object :: fresh(o) ==> o in Arrays(out, out)
      invariant 0 <= i <= |s| && 0 <= w <= 4 * i
      invariant out[..w] + Encode(s[i..]) == Encode(s)
      decreases |s| - i
    {
      ghost var before, start := out[..w], i;
      var c, bs := s[i], [];
      if c < 0x80 {
        bs := [c];
      } else if c < 0x800 {
        bs := Two(c);
      } else if 0xD800 <= c <= 0xDBFF && i + 1 < |s| {
        bs := Four(Pair(c, s[i + 1]));
        i := i + 1;
      } else {
        bs := Three(c);
      }
      i := i + 1;
      EncodeNext(s, start, bs, i, before);
      w := Put(out, w, bs);
    }
    r := Slice(out, w);
    scratch := out;
    forall o: object | fresh(o)
      ensures o in Arrays(r, scratch)
    {
      assert o in Arrays(r, r) || o in Arrays(out, out);
    }
  }

  // ------------------------------------------------------------------ the reference

  predicate IsScalar(c: nat) {
    c < 0xD800 || 0xE000 <= c <= 0x10FFFF
  }

  predicate IsTail(b: Byte) {
    0x80 <= b <= 0xBF
  }

  /** How many bytes the character at the front takes, by the grammar of section 4; 0 when there is none. */
  function Length(b: Bytes): nat {
    if |b| >= 1 && b[0] <= 0x7F then 1
    else if |b| >= 2 && 0xC2 <= b[0] <= 0xDF && IsTail(b[1]) then 2
    else if |b| >= 3 && IsTail(b[1]) && IsTail(b[2])
            && ((b[0] == 0xE0 && 0xA0 <= b[1]) || 0xE1 <= b[0] <= 0xEC
                || (b[0] == 0xED && b[1] <= 0x9F) || 0xEE <= b[0] <= 0xEF) then 3
    else if |b| >= 4 && IsTail(b[1]) && IsTail(b[2]) && IsTail(b[3])
            && ((b[0] == 0xF0 && 0x90 <= b[1]) || 0xF1 <= b[0] <= 0xF3
                || (b[0] == 0xF4 && b[1] <= 0x8F)) then 4
    else 0
  }

  /** A byte without its marker bits. */
  function Low(b: Byte, marker: nat): nat
    requires marker <= b
  {
    b - marker
  }

  /** The character at the front, by the bit layout of section 3. */
  function Front(b: Bytes): (c: nat)
    requires 0 < Length(b)
  {
    match Length(b)
    case 1 => b[0]
    case 2 => Low(b[0], 0xC0) * 0x40 + Low(b[1], 0x80)
    case 3 => Low(b[0], 0xE0) * 0x1000 + Low(b[1], 0x80) * 0x40 + Low(b[2], 0x80)
    case _ => Low(b[0], 0xF0) * 0x40000 + Low(b[1], 0x80) * 0x1000 + Low(b[2], 0x80) * 0x40 + Low(b[3], 0x80)
  }

  function Decode(b: Bytes): (r: Option<seq<nat>>)
    ensures r.Some? ==> forall c :: c in r.value ==> IsScalar(c)
    decreases |b|
  {
    if b == [] then Some([])
    else if Length(b) == 0 then None
    else
      FrontIsScalar(b);
      var rest := Decode(b[Length(b)..]);
      if rest.None? then None else Some([Front(b)] + rest.value)
  }

  /** A scalar value as one code unit or two. */
  function Units(c: nat): seq<Unit>
    requires IsScalar(c)
  {
    if c < 0x10000 then [c] else [0xD800 + (c - 0x10000) / 0x400, 0xDC00 + c % 0x400]
  }

  function ToUtf16(cs: seq<nat>): seq<Unit>
    requires forall c :: c in cs ==> IsScalar(c)
  {
    if cs == [] then [] else Units(cs[0]) + ToUtf16(cs[1..])
  }

  /** Every surrogate is half of a pair. */
  predicate WellFormed(s: seq<Unit>) {
    s == []
    || (if IsHigh(s[0]) then |s| > 1 && IsLow(s[1]) && WellFormed(s[2..])
        else !IsLow(s[0]) && WellFormed(s[1..]))
  }

  // ------------------------------------------------------------------ one character

  lemma TwoBytes(c: nat, rest: Bytes)
    requires 0x80 <= c < 0x800
    ensures Length(Two(c) + rest) == 2 && Front(Two(c) + rest) == c
  {
  }

  lemma ThreeBytes(c: nat, rest: Bytes)
    requires 0x800 <= c < 0x10000 && IsScalar(c)
    ensures Length(Three(c) + rest) == 3 && Front(Three(c) + rest) == c
  {
    var b := Three(c) + rest;
    assert c / 0x1000 == c / 0x40 / 0x40;
    assert b[0] == 0xE0 + c / 0x1000 && b[1] == Tail(c, 0x40) && b[2] == Tail(c, 1);
  }

  lemma FourBytes(c: nat, rest: Bytes)
    requires 0x10000 <= c <= 0x10FFFF
    ensures Length(Four(c) + rest) == 4 && Front(Four(c) + rest) == c
  {
    var b := Four(c) + rest;
    assert c / 0x1000 == c / 0x40 / 0x40 && c / 0x40000 == c / 0x1000 / 0x40;
    assert b[0] == 0xF0 + c / 0x40000 && b[1] == Tail(c, 0x1000) && b[2] == Tail(c, 0x40) && b[3] == Tail(c, 1);
  }

  lemma PairIsSupplementary(hi: Unit, lo: Unit)
    requires IsHigh(hi) && IsLow(lo)
    ensures 0x10000 <= Pair(hi, lo) <= 0x10FFFF && Units(Pair(hi, lo)) == [hi, lo]
  {
  }

  // ------------------------------------------------------------------ whole strings

  lemma DecodeFront(b: Bytes, c: nat, rest: Bytes)
    requires 0 < Length(b + rest) == |b| && Front(b + rest) == c
    ensures Decode(b + rest) == if Decode(rest).None? then None else Some([c] + Decode(rest).value)
  {
  }

  /** A character's bytes, by its size. */
  function CharBytes(c: nat): Bytes
    requires IsScalar(c)
  {
    if c < 0x80 then [c] else if c < 0x800 then Two(c) else if c < 0x10000 then Three(c) else Four(c)
  }

  lemma CharDecodes(c: nat, rest: Bytes)
    requires IsScalar(c)
    ensures 0 < Length(CharBytes(c) + rest) == |CharBytes(c)| && Front(CharBytes(c) + rest) == c
  {
    if 0x10000 <= c {
      FourBytes(c, rest);
    } else if 0x800 <= c {
      ThreeBytes(c, rest);
    } else if 0x80 <= c {
      TwoBytes(c, rest);
    }
  }

  /** The front of a well-formed string is one character. */
  lemma TakeFront(s: seq<Unit>) returns (c: nat, n: nat)
    requires s != [] && WellFormed(s)
    ensures 0 < n <= |s| && s[..n] + s[n..] == s && WellFormed(s[n..])
    ensures IsScalar(c) && Units(c) == s[..n]
    ensures Encode(s) == CharBytes(c) + Encode(s[n..])
  {
    if IsHigh(s[0]) {
      PairIsSupplementary(s[0], s[1]);
      c, n := Pair(s[0], s[1]), 2;
    } else {
      c, n := s[0], 1;
    }
    assert FrontBytes(s) == (CharBytes(c), n);
  }

  lemma DecodeBoth(bs: Bytes, c: nat, rest: Bytes, tail: seq<Unit>)
    requires 0 < Length(bs + rest) == |bs| && Front(bs + rest) == c && IsScalar(c)
    requires Decode(rest).Some? && ToUtf16(Decode(rest).value) == tail
    ensures Decode(bs + rest).Some? && ToUtf16(Decode(bs + rest).value) == Units(c) + tail
  {
    DecodeFront(bs, c, rest);
    assert ([c] + Decode(rest).value)[1..] == Decode(rest).value;
  }

  /** A well-formed string's bytes are accepted by a strict decoder, which gives the string back. */
  lemma {:induction false} DecodeEncode(s: seq<Unit>)
    requires WellFormed(s)
    ensures Decode(Encode(s)).Some? && ToUtf16(Decode(Encode(s)).value) == s
  {
    if s != [] {
      var c, n := TakeFront(s);
      CharDecodes(c, Encode(s[n..]));
      DecodeEncode(s[n..]);
      DecodeBoth(CharBytes(c), c, Encode(s[n..]), s[n..]);
    }
  }

  lemma FrontIsScalar(b: Bytes)
    requires 0 < Length(b)
    ensures IsScalar(Front(b))
  {
  }

  lemma {:induction false} DecodedIsWellFormed(b: Bytes)
    requires Decode(b).Some?
    ensures WellFormed(ToUtf16(Decode(b).value))
    decreases |b|
  {
    if b != [] {
      DecodedIsWellFormed(b[Length(b)..]);
      FrontIsScalar(b);
      UnitsKeepWellFormed(Front(b), ToUtf16(Decode(b[Length(b)..]).value));
    }
  }

  lemma UnitsKeepWellFormed(c: nat, rest: seq<Unit>)
    requires IsScalar(c) && WellFormed(rest)
    ensures WellFormed(Units(c) + rest)
  {
    var u := Units(c);
    if c < 0x10000 {
      assert !IsHigh(u[0]) && !IsLow(u[0]);
      assert (u + rest)[1..] == rest;
    } else {
      assert IsHigh(u[0]) && IsLow(u[1]);
      assert (u + rest)[2..] == rest;
    }
  }

  /** Decoding the bytes gives the string back exactly when the string has no unpaired surrogate. */
  lemma RoundTripIffWellFormed(s: seq<Unit>)
    ensures WellFormed(s) <==> Decode(Encode(s)).Some? && ToUtf16(Decode(Encode(s)).value) == s
  {
    if WellFormed(s) {
      DecodeEncode(s);
    }
    if Decode(Encode(s)).Some? {
      DecodedIsWellFormed(Encode(s));
    }
  }
}
