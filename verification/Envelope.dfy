/** The envelope of an encrypted note: base64(iv) "." base64(ciphertext), with base64 as in section 4 of RFC 4648. */
module Envelope {
  import opened Base
  import opened Utf8
  import opened Words

  // ------------------------------------------------------------------ base64

  /** The base64 alphabet. */
  function Char64(v: nat): (c: char)
    requires v < 64
    ensures IsChar64(c) && Value64(c) == v
  {
    if v < 26 then ('A' as int + v) as char
    else if v < 52 then ('a' as int + v - 26) as char
    else if v < 62 then ('0' as int + v - 52) as char
    else if v == 62 then '+' else '/'
  }

  predicate IsChar64(c: char) {
    'A' <= c <= 'Z' || 'a' <= c <= 'z' || '0' <= c <= '9' || c == '+' || c == '/'
  }

  function Value64(c: char): (v: nat)
    requires IsChar64(c)
    ensures v < 64
  {
    if 'A' <= c <= 'Z' then c as int - 'A' as int
    else if 'a' <= c <= 'z' then c as int - 'a' as int + 26
    else if '0' <= c <= '9' then c as int - '0' as int + 52
    else if c == '+' then 62 else 63
  }

  /** Three bytes as four characters. */
  function Quad(a: Byte, b: Byte, c: Byte): string {
    [Char64(a / 4), Char64(a % 4 * 16 + b / 16), Char64(b % 16 * 4 + c / 64), Char64(c % 64)]
  }

  function Encode64(b: Bytes): (s: string)
    ensures |s| == (|b| + 2) / 3 * 4
    ensures forall i :: 0 <= i < |s| ==> IsChar64(s[i]) || s[i] == '='
  {
    if b == [] then ""
    else if |b| == 1 then Quad(b[0], 0, 0)[..2] + "=="
    else if |b| == 2 then Quad(b[0], b[1], 0)[..3] + "="
    else Quad(b[0], b[1], b[2]) + Encode64(b[3..])
  }

  /** The first, second and third byte that a group of characters carries. */
  function First(c0: char, c1: char): nat
    requires IsChar64(c0) && IsChar64(c1)
  {
    Value64(c0) * 4 + Value64(c1) / 16
  }

  function Second(c1: char, c2: char): nat
    requires IsChar64(c1) && IsChar64(c2)
  {
    Value64(c1) % 16 * 16 + Value64(c2) / 4
  }

  function Third(c2: char, c3: char): nat
    requires IsChar64(c2) && IsChar64(c3)
  {
    Value64(c2) % 4 * 64 + Value64(c3)
  }

  predicate IsQuad(s: string) {
    |s| >= 4 && IsChar64(s[0]) && IsChar64(s[1]) && IsChar64(s[2]) && IsChar64(s[3])
  }

  function Decode64(s: string): Option<Bytes> {
    if s == "" then Some([])
    else if IsQuad(s) then
      var rest := Decode64(s[4..]);
      if rest.None? then None
      else Some([First(s[0], s[1]), Second(s[1], s[2]), Third(s[2], s[3])] + rest.value)
    else if |s| != 4 || !IsChar64(s[0]) || !IsChar64(s[1]) || s[3] != '=' then None
    else if s[2] == '=' then Some([First(s[0], s[1])])
    else if IsChar64(s[2]) then Some([First(s[0], s[1]), Second(s[1], s[2])])
    else None
  }

  lemma QuadCarries(a: Byte, b: Byte, c: Byte)
    ensures var q := Quad(a, b, c);
      IsQuad(q) && First(q[0], q[1]) == a && Second(q[1], q[2]) == b && Third(q[2], q[3]) == c
  {
  }

  lemma OneLeft(a: Byte)
    ensures Decode64(Encode64([a])) == Some([a])
  {
    QuadCarries(a, 0, 0);
    var s, q := Encode64([a]), Quad(a, 0, 0);
    assert s == [q[0], q[1], '=', '='];
  }

  lemma TwoLeft(a: Byte, b: Byte)
    ensures Decode64(Encode64([a, b])) == Some([a, b])
  {
    QuadCarries(a, b, 0);
    var s, q := Encode64([a, b]), Quad(a, b, 0);
    assert s == [q[0], q[1], q[2], '='];
  }

  lemma ThreeMore(a: Byte, b: Byte, c: Byte, rest: string, more: Bytes)
    requires Decode64(rest) == Some(more)
    ensures Decode64(Quad(a, b, c) + rest) == Some([a, b, c] + more)
  {
    QuadCarries(a, b, c);
    var s, q := Quad(a, b, c) + rest, Quad(a, b, c);
    assert s[0] == q[0] && s[1] == q[1] && s[2] == q[2] && s[3] == q[3];
    assert s[4..] == rest;
  }

  lemma EncodeMore(b: Bytes)
    requires |b| > 2
    ensures Encode64(b) == Quad(b[0], b[1], b[2]) + Encode64(b[3..])
  {
  }

  lemma MoreRoundTrip(b: Bytes, s: string, rest: string)
    requires |b| > 2 && s == Quad(b[0], b[1], b[2]) + rest && Decode64(rest) == Some(b[3..])
    ensures Decode64(s) == Some(b)
  {
    ThreeMore(b[0], b[1], b[2], rest, b[3..]);
    assert b == [b[0], b[1], b[2]] + b[3..];
  }

  lemma {:induction false} Base64RoundTrip(b: Bytes)
    ensures Decode64(Encode64(b)) == Some(b)
  {
    if |b| == 1 {
      OneLeft(b[0]);
      assert b == [b[0]];
    } else if |b| == 2 {
      TwoLeft(b[0], b[1]);
      assert b == [b[0], b[1]];
    } else if |b| > 2 {
      Base64RoundTrip(b[3..]);
      EncodeMore(b);
      MoreRoundTrip(b, Encode64(b), Encode64(b[3..]));
    }
  }

  /** The bits that pad the last group of an encoding of `n` bytes are zero. */
  ghost predicate PadsWithZeros(s: string, n: nat) {
    && (n % 3 == 1 ==> |s| >= 4 && IsChar64(s[|s| - 3]) && Value64(s[|s| - 3]) % 16 == 0)
    && (n % 3 == 2 ==> |s| >= 4 && IsChar64(s[|s| - 2]) && Value64(s[|s| - 2]) % 4 == 0)
  }

  lemma OnePads(a: Byte)
    ensures PadsWithZeros(Encode64([a]), 1)
  {
    var q := Quad(a, 0, 0);
    assert Encode64([a]) == [q[0], q[1], '=', '='];
    assert q[1] == Char64(a % 4 * 16);
  }

  lemma TwoPad(a: Byte, b: Byte)
    ensures PadsWithZeros(Encode64([a, b]), 2)
  {
    var q := Quad(a, b, 0);
    assert Encode64([a, b]) == [q[0], q[1], q[2], '='];
    assert q[2] == Char64(b % 16 * 4);
  }

  lemma MorePads(s: string, n: nat, q: string, rest: string)
    requires n > 2 && s == q + rest && PadsWithZeros(rest, n - 3)
    ensures PadsWithZeros(s, n)
  {
    assert |rest| >= 4 ==> s[|s| - 3] == rest[|rest| - 3] && s[|s| - 2] == rest[|rest| - 2];
  }

  /** The padding is zero, as section 3.5 of RFC 4648 asks: the encoding is the canonical one. */
  lemma {:induction false} PadBitsAreZero(b: Bytes)
    ensures PadsWithZeros(Encode64(b), |b|)
  {
    if |b| > 2 {
      PadBitsAreZero(b[3..]);
      EncodeMore(b);
      MorePads(Encode64(b), |b|, Quad(b[0], b[1], b[2]), Encode64(b[3..]));
    } else if |b| == 2 {
      TwoPad(b[0], b[1]);
      assert b == [b[0], b[1]];
    } else if |b| == 1 {
      OnePads(b[0]);
      assert b == [b[0]];
    }
  }

  // ------------------------------------------------------------------ the envelope

  /** The cipher under one key: initialisation vector and text in, text out. */
  type Cipher = (Bytes, Bytes) -> Bytes

  const IV_BYTES: nat := 16

  /** `dec` undoes `enc`, and padding makes every ciphertext at least one block long. */
  ghost predicate Inverts(enc: Cipher, dec: Cipher) {
    forall iv, p :: |iv| == IV_BYTES ==> dec(iv, enc(iv, p)) == p && |enc(iv, p)| >= 16
  }

  /** Where the first dot at or after `i` is; the length of `s` when there is none. */
  function IndexOfDot(s: string, i: nat): (r: nat)
    requires i <= |s|
    ensures i <= r <= |s| && (r < |s| ==> s[r] == '.')
    ensures forall k :: i <= k < r ==> s[k] != '.'
    decreases |s| - i
  {
    if i == |s| || s[i] == '.' then i else IndexOfDot(s, i + 1)
  }

  function Envelop(iv: Bytes, ct: Bytes): string {
    Encode64(iv) + "." + Encode64(ct)
  }

  /**
    * Encryption as it is written: the random bytes are packed into words before they are used and printed. `None`
    * when the text has an unpaired surrogate, which the UTF-8 conversion refuses.
    */
  method Encrypt(enc: Cipher, ivBytes: array<Byte>, plaintext: seq<Unit>) returns (s: Option<string>)
    requires ivBytes.Length == IV_BYTES
    ensures s == if WellFormed(plaintext) then Some(Envelop(ivBytes[..], enc(ivBytes[..], Encode(plaintext)))) else None
  {
    var ivWords: seq<Word> := [];
    var i := 0;
    while i < ivBytes.Length
      invariant i == 4 * |ivWords| <= IV_BYTES
      invariant forall k :: 0 <= k < |ivWords| ==> ivWords[k] == WordAt(ivBytes[..], 4 * k)
      decreases ivBytes.Length - i
    {
      var w := Word4(ivBytes[i], ivBytes[i + 1], ivBytes[i + 2], ivBytes[i + 3]);
      ivWords := ivWords + [w];
      i := i + 4;
    }
    assert ivWords == Pack(ivBytes[..]);
    PackRoundTrip(ivBytes[..]);
    var iv := Unpack(ivWords, 16);
    if !WellFormed(plaintext) {
      return None;
    }
    var ct := enc(iv, Encode(plaintext));
    s := Some(Encode64(iv) + "." + Encode64(ct));
  }

  /** The decoded halves of an envelope; the second half ends at the next delimiter, if there is one. */
  function Halves(payload: string): Option<(Option<Bytes>, Option<Bytes>)> {
    var dot := IndexOfDot(payload, 0);
    if payload == "" || dot == |payload| then None
    else Some((Decode64(payload[..dot]), Decode64(payload[dot + 1..IndexOfDot(payload, dot + 1)])))
  }

  /** The text; empty when there is no envelope, `None` when a half is malformed or the text is not UTF-8. */
  function Decrypt(dec: Cipher, payload: string): Option<seq<Unit>> {
    match Halves(payload)
    case None => Some([])
    case Some((Some(iv), Some(ct))) =>
      var chars := Utf8.Decode(dec(iv, ct));
      if chars.None? then None else Some(ToUtf16(chars.value))
    case _ => None
  }

  predicate Base64Like(s: string) {
    s != "" && forall i :: 0 <= i < |s| ==> IsChar64(s[i]) || s[i] == '='
  }

  predicate IsEncryptedPayload(s: string) {
    && |s| >= 32
    && var dot := IndexOfDot(s, 0);
       dot < |s| && dot >= 8 && Base64Like(s[..dot]) && Base64Like(s[dot + 1..])
  }

  ghost predicate NoDot(s: string) {
    forall i :: 0 <= i < |s| ==> s[i] != '.'
  }

  /** Two strings without the delimiter are found again around it. */
  lemma DelimiterIsFound(a: string, b: string)
    requires NoDot(a) && NoDot(b)
    ensures var s, n := a + "." + b, |a|;
      && IndexOfDot(s, 0) == n < |s|
      && s[..n] == a && s[n + 1..] == b
      && IndexOfDot(s, n + 1) == |s|
  {
    var s, n := a + "." + b, |a|;
    assert forall k :: 0 <= k < n ==> s[k] == a[k];
    assert s[n] == '.';
    assert forall k :: n < k < |s| ==> s[k] == b[k - n - 1];
  }

  lemma HalvesOf(a: string, b: string)
    requires NoDot(a) && NoDot(b)
    ensures Halves(a + "." + b) == Some((Decode64(a), Decode64(b)))
  {
    DelimiterIsFound(a, b);
    var s, n := a + "." + b, |a|;
    assert s[n + 1..|s|] == b;
  }

  /** Base64 never contains the delimiter, so the halves come back as they were. */
  lemma OpenEnvelope(iv: Bytes, ct: Bytes)
    ensures Halves(Envelop(iv, ct)) == Some((Some(iv), Some(ct)))
  {
    HalvesOf(Encode64(iv), Encode64(ct));
    Base64RoundTrip(iv);
    Base64RoundTrip(ct);
  }

  /** What was encrypted is what is decrypted, for every text that can be encrypted. */
  lemma EnvelopeRoundTrip(enc: Cipher, dec: Cipher, iv: Bytes, p: seq<Unit>)
    requires Inverts(enc, dec) && |iv| == IV_BYTES && WellFormed(p)
    ensures Decrypt(dec, Envelop(iv, enc(iv, Encode(p)))) == Some(p)
  {
    OpenEnvelope(iv, enc(iv, Encode(p)));
    assert dec(iv, enc(iv, Encode(p))) == Encode(p);
    DecodeEncode(p);
  }

  lemma ProbeAccepts(a: string, b: string)
    requires Base64Like(a) && Base64Like(b) && NoDot(a) && NoDot(b) && |a| >= 24 && |b| >= 24
    ensures IsEncryptedPayload(a + "." + b)
  {
    DelimiterIsFound(a, b);
  }

  /** The probe accepts every envelope that encryption produces. */
  lemma EnvelopeIsRecognised(enc: Cipher, dec: Cipher, iv: Bytes, plain: Bytes)
    requires Inverts(enc, dec) && |iv| == IV_BYTES
    ensures IsEncryptedPayload(Envelop(iv, enc(iv, plain)))
  {
    assert dec(iv, enc(iv, plain)) == plain;
    ProbeAccepts(Encode64(iv), Encode64(enc(iv, plain)));
  }

  /** Position `dot` holds the only dot, with something around it, and all else is base64 or its padding. */
  ghost predicate OneDot(s: string, dot: nat) {
    && 8 <= dot < |s| - 1 && s[dot] == '.'
    && forall i :: 0 <= i < |s| && i != dot ==> IsChar64(s[i]) || s[i] == '='
  }

  lemma HalvesAreLike(s: string, dot: nat)
    requires dot < |s| && s[dot] == '.'
    ensures OneDot(s, dot) <==> dot >= 8 && Base64Like(s[..dot]) && Base64Like(s[dot + 1..])
  {
    var a, b := s[..dot], s[dot + 1..];
    assert forall i :: 0 <= i < |a| ==> a[i] == s[i];
    assert forall i :: 0 <= i < |b| ==> b[i] == s[dot + 1 + i];
    assert forall i :: dot < i < |s| ==> s[i] == b[i - dot - 1];
  }

  lemma OnlyDot(s: string, dot: nat)
    requires OneDot(s, dot)
    ensures IndexOfDot(s, 0) == dot
  {
  }

  /**
    * The probe accepts exactly the strings of at least 32 characters that have one dot, with at least eight characters
    * before it and one after it, and otherwise only letters, digits, "+", "/" and "=".
    */
  lemma ProbeIff(s: string)
    ensures IsEncryptedPayload(s) <==> |s| >= 32 && exists dot: nat :: OneDot(s, dot)
  {
    var first := IndexOfDot(s, 0);
    if first < |s| {
      HalvesAreLike(s, first);
    }
    forall dot: nat | OneDot(s, dot)
      ensures dot == first
    {
      OnlyDot(s, dot);
    }
  }

  /** Text without a dot is not an envelope, and decrypts to nothing rather than failing. */
  lemma NoEnvelopeIsEmpty(dec: Cipher, s: string)
    requires NoDot(s)
    ensures Decrypt(dec, s) == Some([])
  {
  }
}
