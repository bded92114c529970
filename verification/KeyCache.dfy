/**
  * The notebook's key cache: which key is cached for which wallet, and what becomes of every array that ever
  * held key or seed material.
  */
module KeyCache {
  import opened Base
  import opened SecureWipe
  import opened Utf8
  import opened Words

  datatype Wallet = Wallet(publicKey: string, secretSeed: seq<Unit>)

  /** Where a key came from: a wallet's seed, or the device's own random key. */
  datatype Origin = FromSeed(seed: seq<Unit>) | FromDevice

  /** What `getKey` derives from: the active wallet's seed, when it is not empty. */
  function SeedOf(wallet: Option<Wallet>): Option<seq<Unit>> {
    if wallet.Some? && wallet.value.secretSeed != [] then Some(wallet.value.secretSeed) else None
  }

  /** What decides whether a change of wallet keeps the key: the seed, even an empty one, or that there is none. */
  function SecretOf(wallet: Option<Wallet>): Option<seq<Unit>> {
    if wallet.Some? then Some(wallet.value.secretSeed) else None
  }

  /** A seed as the key derivation reads it. */
  function KdfInput(seed: seq<Unit>): (seq<Word>, nat) {
    (Pack(Encode(seed)), |Encode(seed)|)
  }

  /** The contents of a key array: its words, and how many of their bytes are significant. */
  datatype Key = Key(words: seq<Word>, bytes: nat)

  /** The key of a wallet: derived from its seed, or the device's own key; `None` when the derivation throws. */
  function KeyOf(wallet: Option<Wallet>, kdf: (seq<Word>, nat) -> Option<seq<Word>>, device: Key): Option<Key> {
    match SeedOf(wallet)
    case None => Some(device)
    case Some(seed) =>
      var (ws, n) := KdfInput(seed);
      match kdf(ws, n)
      case None => None
      case Some(words) => Some(Key(words, 32))
  }

  class Cache {
    /** Key derivation of packed bytes, `None` when it throws. */
    const kdf: (seq<Word>, nat) -> Option<seq<Word>>
    var cached: WordArray?
    var wallet: Option<Wallet>

    /** Every key array the cache has ever held, and where the cached one came from. */
    ghost var issued: set<WordArray>
    ghost var origin: Origin

    /** The cached key belongs to the wallet that is active now. */
    ghost predicate KeyIsCurrent()
      reads this, cached, if cached == null then {} else {cached.words}
    {
      cached != null ==>
        match SeedOf(wallet)
        case Some(seed) =>
          origin == FromSeed(seed) && cached.sigBytes == 32
          && var (ws, n) := KdfInput(seed); kdf(ws, n) == Some(cached.words[..])
        case None => origin == FromDevice
    }

    /** Every other key array there ever was is wiped, and none shares its words with the cached one. */
    ghost predicate OthersWiped()
      reads this, issued, set k | k in issued :: k.words
    {
      && (cached != null ==> cached in issued)
      && (forall k :: k in issued && k != cached ==> k.Wiped())
      && (cached != null ==> forall k :: k in issued && k != cached ==> k.words != cached.words)
    }

    ghost predicate Valid()
      reads this, cached, if cached == null then {} else {cached.words}
      reads issued, set k | k in issued :: k.words
    {
      OthersWiped() && KeyIsCurrent()
    }

    constructor (kdf: (seq<Word>, nat) -> Option<seq<Word>>)
      ensures Valid() && this.kdf == kdf && cached == null && wallet == None && issued == {}
    {
      this.kdf := kdf;
      cached, wallet, issued, origin := null, None, {}, FromDevice;
    }

    /** Let go of the cached key: forget it, then overwrite it where it is. */
    method ResetKeyCache()
      requires Valid()
      modifies this`cached, if cached == null then {} else {cached, cached.words}
      ensures Valid() && cached == null
      ensures old(cached) != null ==> old(cached).Wiped()
    {
      var prev := cached;
      cached := null;
      WipeWordArray(prev);
    }

    method SetActiveWalletForCrypto(w: Option<Wallet>)
      requires Valid()
      modifies this`cached, this`wallet, if cached == null then {} else {cached, cached.words}
      ensures Valid() && wallet == w
      ensures
        if SecretOf(old(wallet)) == SecretOf(w) then
          cached == old(cached)
          && (cached != null ==> cached.words[..] == old(cached.words[..]) && cached.sigBytes == old(cached.sigBytes))
        else cached == null && (old(cached) != null ==> old(cached).Wiped())
    {
      var prevKey := if wallet.Some? then Some(wallet.value.secretSeed) else None;
      var nextKey := if w.Some? then Some(w.value.secretSeed) else None;
      if prevKey != nextKey {
        ResetKeyCache();
      }
      wallet := w;
    }

    /** The byte and word copies of a seed that the key derivation reads. */
    method Carriers(seed: seq<Unit>) returns (bytes: array<Byte>, words: WordArray, ghost scratch: array<Byte>)
      ensures fresh(bytes) && fresh(words) && fresh(words.words) && bytes != scratch
      ensures (words.words[..], words.sigBytes) == KdfInput(seed)
      ensures forall o: object :: fresh(o) ==> o in Arrays(bytes, scratch) || o in words.Repr()
      ensures |Encode(seed)| <= scratch.Length && scratch[..|Encode(seed)|] == Encode(seed)
    {
      bytes, scratch := Utf8ToMutableBytes(seed);
      var ws := WordsFromBytes(bytes);
      words := new WordArray(ws, bytes.Length);
      forall o: object | fresh(o)
        ensures o in Arrays(bytes, scratch) || o in words.Repr()
      {
        assert o !in NOTHING;
      }
    }

    /**
      * Derive a key from a seed; `key` is null when the derivation throws. Of everything the call allocates, whether
      * it throws or not, only the key and the encoder's own buffer, `scratch`, are not zero on return.
      */
    method DeriveKey(seed: seq<Unit>) returns (key: WordArray?, ghost scratch: array<Byte>)
      ensures var (ws, n) := KdfInput(seed);
        if kdf(ws, n).None? then key == null
        else key != null && fresh(key) && fresh(key.words)
             && key.words[..] == kdf(ws, n).value && key.sigBytes == 32
      ensures forall o: object :: fresh(o) ==> o == scratch || Clean(o) || (key != null && o in key.Repr())
      ensures |Encode(seed)| <= scratch.Length && scratch[..|Encode(seed)|] == Encode(seed)
    {
      var bytes, words;
      bytes, words, scratch := Carriers(seed);
      var derived := kdf(words.words[..], words.sigBytes);
      key := null;
      if derived.Some? {
        key := new WordArray(derived.value, 32);
      }
      WipeWordArray(words);
      WipeBytes(bytes);
      ZeroedIsClean(bytes);
      WipedIsClean(words);
      forall o: object | fresh(o)
        ensures o == scratch || Clean(o) || (key != null && o in key.Repr())
      {
        assert o !in NOTHING;
        assert o in Arrays(bytes, scratch) || o in words.Repr() || (key != null && o in key.Repr());
      }
    }

    /**
      * `device` is the device key as stored; it is only used when no wallet with a seed is active. Whatever the call
      * allocates on the way, the only bytes left are those in the encoder's buffer, and the only words the key's.
      */
    method GetKey(device: seq<Word>, deviceBytes: nat) returns (key: WordArray?, ghost scratch: array?<Byte>)
      requires Valid()
      modifies this`cached, this`issued, this`origin
      ensures Valid() && key == cached && wallet == old(wallet)
      ensures old(cached) != null ==> key == old(cached) && issued == old(issued)
      ensures old(cached) == null && key == null ==> issued == old(issued)
      ensures old(cached) == null && key != null ==> fresh(key) && fresh(key.words) && issued == old(issued) + {key}
      ensures old(cached) == null ==>
        match KeyOf(wallet, kdf, Key(device, deviceBytes))
        case None => key == null
        case Some(k) => key != null && key.words[..] == k.words && key.sigBytes == k.bytes
      ensures old(cached) == null && wallet.Some? && wallet.value.secretSeed != [] ==>
        var bytes := Encode(wallet.value.secretSeed);
        match kdf(Pack(bytes), |bytes|)
        case None => key == null
        case Some(words) => key != null && key.words[..] == words && key.sigBytes == 32
      ensures old(cached) == null && (wallet.None? || wallet.value.secretSeed == []) ==>
        key != null && key.words[..] == device && key.sigBytes == deviceBytes
      ensures forall o: object :: fresh(o) ==> o == scratch || Clean(o) || (key != null && o in key.Repr())
    {
      scratch := null;
      if cached != null {
        return cached, scratch;
      }
      if wallet.Some? && wallet.value.secretSeed != [] {
        key, scratch := DeriveKey(wallet.value.secretSeed);
        if key == null {
          return;
        }
        origin := FromSeed(wallet.value.secretSeed);
      } else {
        key := new WordArray(device, deviceBytes);
        origin := FromDevice;
      }
      cached := key;
      issued := issued + {key};
    }
  }

  // ------------------------------------------------------------------ any sequence of calls

  datatype Op = SetWallet(wallet: Option<Wallet>) | Get | Reset

  /** What a caller can tell of the cache: the wallet set last, whether a key is held, how many were ever made. */
  datatype View = View(wallet: Option<Wallet>, hot: bool, made: nat)

  function ViewStep(v: View, op: Op, kdf: (seq<Word>, nat) -> Option<seq<Word>>, device: Key): View {
    match op
    case SetWallet(w) => View(w, v.hot && SecretOf(v.wallet) == SecretOf(w), v.made)
    case Get =>
      if v.hot || KeyOf(v.wallet, kdf, device).None? then v else View(v.wallet, true, v.made + 1)
    case Reset => v.(hot := false)
  }

  function ViewAfter(ops: seq<Op>, kdf: (seq<Word>, nat) -> Option<seq<Word>>, device: Key): View {
    if ops == [] then View(None, false, 0)
    else ViewStep(ViewAfter(ops[..|ops| - 1], kdf, device), ops[|ops| - 1], kdf, device)
  }

  lemma ViewNext(ops: seq<Op>, n: nat, kdf: (seq<Word>, nat) -> Option<seq<Word>>, device: Key)
    requires n < |ops|
    ensures ViewAfter(ops[..n + 1], kdf, device) == ViewStep(ViewAfter(ops[..n], kdf, device), ops[n], kdf, device)
  {
    assert ops[..n + 1][..n] == ops[..n];
  }

  /** What call `i` of a run gives back: for a `Get`, the key derived afresh from the wallet set last before it. */
  function Answer(ops: seq<Op>, i: nat, kdf: (seq<Word>, nat) -> Option<seq<Word>>, device: Key): Option<Key>
    requires i < |ops|
  {
    if ops[i].Get? then KeyOf(ViewAfter(ops[..i], kdf, device).wallet, kdf, device) else None
  }

  lemma StepWallet(v: View, op: Op, kdf: (seq<Word>, nat) -> Option<seq<Word>>, device: Key)
    ensures ViewStep(v, op, kdf, device).wallet == if op.SetWallet? then op.wallet else v.wallet
  {
  }

  /** The wallet of a run is the one its last change set. */
  lemma {:induction false} WalletIsLastSet(ops: seq<Op>, j: nat, kdf: (seq<Word>, nat) -> Option<seq<Word>>,
                                           device: Key)
    requires j < |ops| && ops[j].SetWallet? && forall k :: j < k < |ops| ==> !ops[k].SetWallet?
    ensures ViewAfter(ops, kdf, device).wallet == ops[j].wallet
  {
    var front, last := ops[..|ops| - 1], ops[|ops| - 1];
    StepWallet(ViewAfter(front, kdf, device), last, kdf, device);
    if j < |front| {
      WalletIsLastSet(front, j, kdf, device);
    }
  }

  /** Without a change there is none. */
  lemma {:induction false} NoWalletSet(ops: seq<Op>, kdf: (seq<Word>, nat) -> Option<seq<Word>>, device: Key)
    requires forall k :: 0 <= k < |ops| ==> !ops[k].SetWallet?
    ensures ViewAfter(ops, kdf, device).wallet == None
  {
    if ops != [] {
      var front := ops[..|ops| - 1];
      StepWallet(ViewAfter(front, kdf, device), ops[|ops| - 1], kdf, device);
      NoWalletSet(front, kdf, device);
    }
  }

  /**
    * What a `Get` gives, in terms of the wallet set last before it: the key of its whole seed, in UTF-8 and packed,
    * or without a wallet or a seed the device's own.
    */
  lemma AnswerIsOfWallet(ops: seq<Op>, i: nat, kdf: (seq<Word>, nat) -> Option<seq<Word>>, device: Key)
    requires i < |ops| && ops[i].Get?
    ensures var wallet := ViewAfter(ops[..i], kdf, device).wallet;
      if wallet.Some? && |wallet.value.secretSeed| > 0 then
        var bytes := Encode(wallet.value.secretSeed);
        Answer(ops, i, kdf, device) ==
        match kdf(Pack(bytes), |bytes|)
        case None => None
        case Some(words) => Some(Key(words, 32))
      else Answer(ops, i, kdf, device) == Some(device)
  {
  }

  /** Call `i` of a run lets go of the key: a reset, or a change of seed. */
  predicate LetsGo(ops: seq<Op>, i: nat, kdf: (seq<Word>, nat) -> Option<seq<Word>>, device: Key)
    requires i < |ops|
  {
    || ops[i].Reset?
    || (ops[i].SetWallet? && SecretOf(ops[i].wallet) != SecretOf(ViewAfter(ops[..i], kdf, device).wallet))
  }

  /** Call `i` of a run gave a key, and no later call let go of it. */
  ghost predicate GaveForGood(ops: seq<Op>, i: nat, kdf: (seq<Word>, nat) -> Option<seq<Word>>, device: Key) {
    && i < |ops| && Answer(ops, i, kdf, device).Some?
    && forall k: nat :: i < k < |ops| ==> !LetsGo(ops, k, kdf, device)
  }

  lemma FrontGave(ops: seq<Op>, i: nat, kdf: (seq<Word>, nat) -> Option<seq<Word>>, device: Key)
    requires i + 1 < |ops|
    ensures GaveForGood(ops, i, kdf, device) <==>
            GaveForGood(ops[..|ops| - 1], i, kdf, device) && !LetsGo(ops, |ops| - 1, kdf, device)
  {
    var front := ops[..|ops| - 1];
    assert front[..i] == ops[..i];
    forall k: nat | k < |front|
      ensures LetsGo(front, k, kdf, device) <==> LetsGo(ops, k, kdf, device)
    {
      assert front[..k] == ops[..k];
    }
  }

  /** A key is held exactly when some call gave one and no later call reset the cache or changed the seed. */
  lemma {:induction false} HotIff(ops: seq<Op>, kdf: (seq<Word>, nat) -> Option<seq<Word>>, device: Key)
    ensures ViewAfter(ops, kdf, device).hot <==> exists i: nat :: GaveForGood(ops, i, kdf, device)
  {
    if ops != [] {
      var n := |ops| - 1;
      HotIff(ops[..n], kdf, device);
      forall i: nat | i < n
        ensures GaveForGood(ops, i, kdf, device) <==>
                GaveForGood(ops[..n], i, kdf, device) && !LetsGo(ops, n, kdf, device)
      {
        FrontGave(ops, i, kdf, device);
      }
      assert GaveForGood(ops, n, kdf, device) <==> Answer(ops, n, kdf, device).Some?;
    }
  }

  /** How many keys had been made when call `i` of a run was over. */
  function MadeBy(ops: seq<Op>, i: nat, kdf: (seq<Word>, nat) -> Option<seq<Word>>, device: Key): nat
    requires i < |ops|
  {
    ViewAfter(ops[..i + 1], kdf, device).made
  }

  /** The key that call `i` of a run handed out is still the cached one at the end. */
  predicate StillCached(ops: seq<Op>, i: nat, kdf: (seq<Word>, nat) -> Option<seq<Word>>, device: Key)
    requires i < |ops|
  {
    var end := ViewAfter(ops, kdf, device);
    end.hot && MadeBy(ops, i, kdf, device) == end.made
  }

  /** The cache looks like `v`, and a key it holds is the active wallet's. */
  ghost predicate LooksLike(c: Cache, v: View, device: Key)
    reads c, c.cached, if c.cached == null then {} else {c.cached.words}
  {
    && c.wallet == v.wallet && |c.issued| == v.made && (c.cached != null <==> v.hot)
    && (c.cached != null ==> KeyOf(c.wallet, c.kdf, device) == Some(Key(c.cached.words[..], c.cached.sigBytes)))
  }

  /** One call: a new key is issued and cached, or none is and the old one may go. */
  ghost predicate Moves(cached: WordArray?, issued: set<WordArray>, cached': WordArray?, issued': set<WordArray>,
                        key: WordArray?)
  {
    && (key != null ==> key == cached' && key in issued')
    && if key != null && key !in issued then issued' == issued + {key}
       else issued' == issued && (cached' == null || cached' == cached)
  }

  /** One call. A `Get` gives what deriving afresh would give; the key it gives is the cached one. */
  method Call(c: Cache, op: Op, device: Key, ghost v: View) returns (key: WordArray?, answer: Option<Key>)
    requires c.Valid() && LooksLike(c, v, device)
    modifies c, if c.cached == null then {} else {c.cached, c.cached.words}
    ensures c.Valid() && LooksLike(c, ViewStep(v, op, c.kdf, device), device)
    ensures answer == (if op.Get? then KeyOf(v.wallet, c.kdf, device) else None) && (key != null <==> answer.Some?)
    ensures Moves(old(c.cached), old(c.issued), c.cached, c.issued, key)
    ensures forall k :: k in c.issued ==> k in old(c.issued) || (fresh(k) && fresh(k.words))
  {
    key, answer := null, None;
    match op {
      case SetWallet(w) => c.SetActiveWalletForCrypto(w);
      case Get =>
        ghost var scratch;
        key, scratch := c.GetKey(device.words, device.bytes);
        if key != null {
          answer := Some(Key(key.words[..], key.sigBytes));
        }
      case Reset => c.ResetKeyCache();
    }
  }

  /** What is known of the array that call `i` handed out, given what is cached and what was issued. */
  ghost predicate TallyAt(ops: seq<Op>, i: nat, kdf: (seq<Word>, nat) -> Option<seq<Word>>, device: Key,
                          cached: WordArray?, issued: set<WordArray>, h: WordArray?, answer: Option<Key>)
    requires i < |ops|
  {
    && answer == Answer(ops, i, kdf, device) && (h != null <==> answer.Some?)
    && (h != null ==> h in issued)
    && MadeBy(ops, i, kdf, device) <= |issued|
    && (h != null && cached != null ==> (h == cached <==> MadeBy(ops, i, kdf, device) == |issued|))
  }

  /** The same for the first `n` calls; and nothing was issued that was not handed out. */
  ghost predicate Tally(ops: seq<Op>, n: nat, kdf: (seq<Word>, nat) -> Option<seq<Word>>, device: Key,
                        cached: WordArray?, issued: set<WordArray>,
                        handed: seq<WordArray?>, answers: seq<Option<Key>>)
    requires n <= |ops|
  {
    && |handed| == |answers| == n
    && (forall k :: k in issued ==> k in handed)
    && (forall i :: 0 <= i < n ==> TallyAt(ops, i, kdf, device, cached, issued, handed[i], answers[i]))
  }

  lemma TallyAtKeeps(ops: seq<Op>, i: nat, kdf: (seq<Word>, nat) -> Option<seq<Word>>, device: Key,
                     cached: WordArray?, issued: set<WordArray>, cached': WordArray?, issued': set<WordArray>,
                     key: WordArray?, h: WordArray?, answer: Option<Key>)
    requires i < |ops| && TallyAt(ops, i, kdf, device, cached, issued, h, answer)
    requires Moves(cached, issued, cached', issued', key)
    ensures TallyAt(ops, i, kdf, device, cached', issued', h, answer)
  {
  }

  lemma TallyNext(ops: seq<Op>, n: nat, kdf: (seq<Word>, nat) -> Option<seq<Word>>, device: Key,
                  cached: WordArray?, issued: set<WordArray>, cached': WordArray?, issued': set<WordArray>,
                  handed: seq<WordArray?>, answers: seq<Option<Key>>, key: WordArray?, answer: Option<Key>)
    requires n < |ops| && Tally(ops, n, kdf, device, cached, issued, handed, answers)
    requires Moves(cached, issued, cached', issued', key)
    requires answer == Answer(ops, n, kdf, device) && (key != null <==> answer.Some?)
    requires |issued'| == MadeBy(ops, n, kdf, device)
    ensures Tally(ops, n + 1, kdf, device, cached', issued', handed + [key], answers + [answer])
  {
    var h, a := handed + [key], answers + [answer];
    forall k | k in issued'
      ensures k in h
    {
      if k in issued {
        assert k in handed;
      } else {
        assert h[n] == k;
      }
    }
    forall i | 0 <= i < n + 1
      ensures TallyAt(ops, i, kdf, device, cached', issued', h[i], a[i])
    {
      if i < n {
        TallyAtKeeps(ops, i, kdf, device, cached, issued, cached', issued', key, handed[i], answers[i]);
      }
    }
  }

  /** What a run hands out: each answer is what deriving afresh gives, and an array is cached still, or gone. */
  ghost predicate HandedOut(ops: seq<Op>, kdf: (seq<Word>, nat) -> Option<seq<Word>>, device: Key, c: Cache,
                            handed: seq<WordArray?>, answers: seq<Option<Key>>)
    reads c, set k | k in c.issued, set k | k in c.issued :: k.words
  {
    && |handed| == |answers| == |ops|
    && (forall i :: 0 <= i < |ops| ==> answers[i] == Answer(ops, i, kdf, device))
    && (forall i :: 0 <= i < |ops| ==> (handed[i] != null <==> answers[i].Some?))
    && (forall i :: 0 <= i < |ops| && handed[i] != null ==>
          if StillCached(ops, i, kdf, device) then handed[i] == c.cached
          else handed[i] != c.cached && handed[i] in c.issued && handed[i].Wiped())
    && (forall k :: k in c.issued ==> k in handed)
  }

  lemma TallyMeans(ops: seq<Op>, kdf: (seq<Word>, nat) -> Option<seq<Word>>, device: Key, c: Cache,
                   handed: seq<WordArray?>, answers: seq<Option<Key>>)
    requires Tally(ops, |ops|, kdf, device, c.cached, c.issued, handed, answers)
    requires LooksLike(c, ViewAfter(ops, kdf, device), device) && c.OthersWiped()
    ensures HandedOut(ops, kdf, device, c, handed, answers)
  {
    forall i | 0 <= i < |ops| && handed[i] != null
      ensures if StillCached(ops, i, kdf, device) then handed[i] == c.cached
              else handed[i] != c.cached && handed[i] in c.issued && handed[i].Wiped()
    {
      assert TallyAt(ops, i, kdf, device, c.cached, c.issued, handed[i], answers[i]);
    }
  }

  /** After `n` calls of a run. */
  ghost predicate Running(ops: seq<Op>, n: nat, device: Key, c: Cache,
                          handed: seq<WordArray?>, answers: seq<Option<Key>>)
    requires n <= |ops|
    reads c, c.cached, if c.cached == null then {} else {c.cached.words}
    reads c.issued, set k | k in c.issued :: k.words
  {
    && c.Valid() && LooksLike(c, ViewAfter(ops[..n], c.kdf, device), device)
    && Tally(ops, n, c.kdf, device, c.cached, c.issued, handed, answers)
  }

  /** Call `n` of a run, and what it hands out. */
  method Next(ops: seq<Op>, n: nat, device: Key, c: Cache, ghost handed: seq<WordArray?>,
              ghost answers: seq<Option<Key>>)
    returns (key: WordArray?, answer: Option<Key>)
    requires n < |ops| && Running(ops, n, device, c, handed, answers)
    modifies c, if c.cached == null then {} else {c.cached, c.cached.words}
    ensures Running(ops, n + 1, device, c, handed + [key], answers + [answer])
    ensures c.cached != null ==> c.cached in c.issued
    ensures forall k :: k in c.issued ==> k in old(c.issued) || (fresh(k) && fresh(k.words))
  {
    ghost var cached, issued := c.cached, c.issued;
    ViewNext(ops, n, c.kdf, device);
    key, answer := Call(c, ops[n], device, ViewAfter(ops[..n], c.kdf, device));
    TallyNext(ops, n, c.kdf, device, cached, issued, c.cached, c.issued, handed, answers, key, answer);
  }

  lemma RunningMeans(ops: seq<Op>, device: Key, c: Cache, handed: seq<WordArray?>, answers: seq<Option<Key>>)
    requires Running(ops, |ops|, device, c, handed, answers)
    ensures c.Valid() && LooksLike(c, ViewAfter(ops, c.kdf, device), device)
    ensures HandedOut(ops, c.kdf, device, c, handed, answers)
  {
    assert ops[..|ops|] == ops;
    TallyMeans(ops, c.kdf, device, c, handed, answers);
  }

  /**
    * Any sequence of calls, one after another. Caching cannot be noticed: each `Get` gives the words and length that
    * deriving afresh from the wallet set last would give (`answers`). At the end a key is cached exactly when the
    * calls leave one, it is the active wallet's, and of all arrays ever handed out (`handed`) the cached one is
    * the only one that is not wiped.
    */
  method RunOps(ops: seq<Op>, kdf: (seq<Word>, nat) -> Option<seq<Word>>, device: Key)
    returns (c: Cache, handed: seq<WordArray?>, answers: seq<Option<Key>>)
    ensures fresh(c) && c.Valid() && c.kdf == kdf && LooksLike(c, ViewAfter(ops, kdf, device), device)
    ensures HandedOut(ops, kdf, device, c, handed, answers)
  {
    c := new Cache(kdf);
    handed, answers := [], [];
    for n := 0 to |ops|
      invariant fresh(c) && c.kdf == kdf && Running(ops, n, device, c, handed, answers)
      invariant c.cached != null ==> c.cached in c.issued
      invariant forall k :: k in c.issued ==> fresh(k) && fresh(k.words)
    {
      var key, answer := Next(ops, n, device, c, handed, answers);
      handed, answers := handed + [key], answers + [answer];
    }
    RunningMeans(ops, device, c, handed, answers);
  }
}
