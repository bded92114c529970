/** Overwriting secrets where they are: byte arrays, CryptoJS word arrays and the SDK's key pairs. */
module SecureWipe {
  import opened Base
  import opened Utf8
  import opened Words

  ghost predicate Zeroed(buf: array?<Byte>)
    reads if buf == null then {} else {buf}
  {
    buf != null ==> forall i :: 0 <= i < buf.Length ==> buf[i] == 0
  }

  method WipeBytes(buf: array?<Byte>)
    modifies if buf == null then {} else {buf}
    ensures Zeroed(buf)
    ensures forall o: object :: fresh(o) ==> o in NOTHING
  {
    if buf != null {
      for i := 0 to buf.Length
        invariant forall o: object :: fresh(o) ==> o in NOTHING
        invariant forall k :: 0 <= k < i ==> buf[k] == 0
      {
        buf[i] := 0;
      }
    }
  }

  ghost predicate Blank(words: array<Word>)
    reads words
  {
    forall i :: 0 <= i < words.Length ==> words[i] == 0
  }

  /** A CryptoJS word array: a reference that several holders may share. */
  class WordArray {
    const words: array<Word>
    var sigBytes: nat

    ghost function Repr(): set<object> {
      {this, words}
    }

    constructor (ws: seq<Word>, n: nat)
      ensures fresh(words) && words[..] == ws && sigBytes == n
      ensures forall o: object :: fresh(o) ==> o in Repr()
    {
      words := new Word[|ws|](i requires 0 <= i < |ws| => ws[i]);
      sigBytes := n;
      new;
      assert words[..] == ws;
    }

    ghost predicate Wiped()
      reads this, words
    {
      sigBytes == 0 && Blank(words)
    }
  }

  /** An object that holds no byte or word but zero. */
  ghost predicate Clean(o: object)
    reads o
  {
    && (o is array<Byte> ==> Zeroed(o as array<Byte>))
    && (o is array<Word> ==> Blank(o as array<Word>))
    && (o is WordArray ==> (o as WordArray).sigBytes == 0)
  }

  lemma ZeroedIsClean(buf: array<Byte>)
    requires Zeroed(buf)
    ensures Clean(buf)
  {
  }

  lemma WipedIsClean(wa: WordArray)
    requires wa.Wiped()
    ensures Clean(wa) && Clean(wa.words)
  {
  }

  method WipeWordArray(wa: WordArray?)
    modifies if wa == null then {} else {wa, wa.words}
    ensures wa != null ==> wa.Wiped()
    ensures forall o: object :: fresh(o) ==> o in NOTHING
  {
    if wa != null {
      for i := 0 to wa.words.Length
        invariant forall o: object :: fresh(o) ==> o in NOTHING
        invariant forall k :: 0 <= k < i ==> wa.words[k] == 0
      {
        wa.words[i] := 0;
      }
      wa.sigBytes := 0;
    }
  }

  /** The SDK's key pair: two mutable copies of the secret. */
  class Keypair {
    var secretSeed: array?<Byte>
    var secretKey: array?<Byte>

    ghost function Repr(): set<object>
      reads this
    {
      {this} + (if secretSeed == null then {} else {secretSeed}) + (if secretKey == null then {} else {secretKey})
    }

    constructor (seed: seq<Byte>)
      ensures secretSeed != null && secretKey != null && secretSeed != secretKey
      ensures fresh(secretSeed) && fresh(secretKey)
      ensures secretSeed[..] == seed && secretKey[..] == seed
      ensures forall o: object :: fresh(o) ==> o in Repr()
    {
      var a := new Byte[|seed|](i requires 0 <= i < |seed| => seed[i]);
      var b := new Byte[|seed|](i requires 0 <= i < |seed| => seed[i]);
      secretSeed, secretKey := a, b;
    }
  }

  /** Both copies are overwritten where they are, and then forgotten. */
  method WipeKeypair(kp: Keypair)
    modifies kp
    modifies if kp.secretSeed == null then {} else {kp.secretSeed}
    modifies if kp.secretKey == null then {} else {kp.secretKey}
    ensures kp.secretSeed == null && kp.secretKey == null
    ensures Zeroed(old(kp.secretSeed)) && Zeroed(old(kp.secretKey))
    ensures forall o: object :: fresh(o) ==> o in NOTHING
  {
    WipeBytes(kp.secretSeed);
    WipeBytes(kp.secretKey);
    kp.secretSeed, kp.secretKey := null, null;
  }
}
