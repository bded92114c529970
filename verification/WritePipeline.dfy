/** The write pipeline: build, simulate, assemble, sign, send, poll, over arbitrary answers of the network. */
module WritePipeline {
  import opened Base
  import opened SecureWipe
  import opened Utf8

  const POLL_ATTEMPTS: nat := 30

  datatype SimulateAnswer = SimulateThrows | SimulateRefuses | Simulated(assembles: bool)

  type Signature = seq<Byte>

  /**
    * The signing key: it cannot be loaded, there is no wallet, its seed is malformed, or there is a seed, and `sign`
    * is what signing the transaction with a secret key gives, `None` when it throws.
    */
  datatype SignerAnswer =
    | LoadThrows | NoWallet | BadSeed
    | Signer(seed: seq<Byte>, sign: seq<Byte> -> Option<Signature>)

  datatype SendStatus = PENDING | DUPLICATE | TRY_AGAIN_LATER | ERROR
  datatype SendAnswer = SendThrows | Sent(status: SendStatus, hash: string)

  datatype PollAnswer =
    | PollThrows | NotFound | Failed | OtherStatus
    | Success(ledger: Option<nat>, value: Option<string>)

  /** Everything the outside world answers to one invocation. */
  datatype World = World(
    builds: bool,
    simulate: SimulateAnswer,
    signer: SignerAnswer,
    send: SendAnswer,
    poll: nat -> PollAnswer)

  datatype Phase = Build | Simulate | Send
  datatype ReceiptStatus = SuccessReceipt | FailedReceipt | PendingReceipt
  datatype Receipt = Receipt(txHash: string, ledger: Option<nat>, status: ReceiptStatus)

  datatype Result =
    | Returned(value: Option<string>, receipt: Receipt)
    | NetworkError(phase: Phase)
    | SimulationError
    | WalletNotConnected
    | SignError
    | SendError(hash: string)
    | OnChainError(hash: string)
    | PollTimeout(hash: string)

  datatype Effect =
    | Simulating | Signing | WipingSigner | Sending(signature: Signature) | Polling
    | Emit(receipt: Receipt)

  /** Where an invocation stands before it is sent: over, or with a signature. */
  datatype Stage = Ended(result: Result) | Signed(signature: Signature)

  // ------------------------------------------------------------------ what should happen

  predicate Decisive(p: PollAnswer) {
    p.Success? || p.Failed?
  }

  /** The first decisive answer among polls `i` to 29. */
  function FirstDecisive(poll: nat -> PollAnswer, i: nat): (r: Option<nat>)
    requires i <= POLL_ATTEMPTS
    ensures r.Some? ==> i <= r.value < POLL_ATTEMPTS && Decisive(poll(r.value))
    ensures forall k: nat :: i <= k < (if r.Some? then r.value else POLL_ATTEMPTS) ==> !Decisive(poll(k))
    decreases POLL_ATTEMPTS - i
  {
    if i == POLL_ATTEMPTS then None
    else if Decisive(poll(i)) then Some(i)
    else FirstDecisive(poll, i + 1)
  }

  /** The transaction has been handed over and not refused; a "try again later" is polled like a pending one. */
  predicate Submitted(w: World) {
    && w.builds && w.simulate.Simulated? && w.simulate.assembles
    && w.signer.Signer? && w.signer.sign(w.signer.seed).Some?
    && w.send.Sent? && w.send.status != ERROR && w.send.status != DUPLICATE
  }

  function Repeat(e: Effect, n: nat): (r: seq<Effect>)
    ensures |r| == n
  {
    if n == 0 then [] else Repeat(e, n - 1) + [e]
  }

  lemma {:induction false} RepeatOnly(e: Effect, n: nat)
    ensures forall i :: 0 <= i < n ==> Repeat(e, n)[i] == e
  {
    if n > 0 {
      RepeatOnly(e, n - 1);
    }
  }

  /** What polling comes to: the receipt that is emitted and how the call ends. */
  function Verdict(poll: nat -> PollAnswer, hash: string): (Receipt, Result) {
    var first := FirstDecisive(poll, 0);
    if first.None? then
      var receipt := Receipt(hash, None, PendingReceipt);
      (receipt, PollTimeout(hash))
    else
      match poll(first.value)
      case Success(ledger, value) =>
        var receipt := Receipt(hash, ledger, SuccessReceipt);
        (receipt, Returned(value, receipt))
      case _ => (Receipt(hash, None, FailedReceipt), OnChainError(hash))
  }

  function PollCount(poll: nat -> PollAnswer): nat {
    var first := FirstDecisive(poll, 0);
    if first.Some? then first.value + 1 else POLL_ATTEMPTS
  }

  /** The effects of one invocation up to signing, and what it has come to. */
  function UpToSigning(w: World): (seq<Effect>, Stage) {
    if !w.builds then ([], Ended(NetworkError(Build)))
    else if w.simulate.SimulateThrows? then ([Simulating], Ended(NetworkError(Simulate)))
    else if w.simulate.SimulateRefuses? || !w.simulate.assembles then ([Simulating], Ended(SimulationError))
    else if w.signer.NoWallet? then ([Simulating], Ended(WalletNotConnected))
    else if !w.signer.Signer? then ([Simulating], Ended(SignError))
    else
      var signature := w.signer.sign(w.signer.seed);
      ([Simulating, Signing, WipingSigner], if signature.None? then Ended(SignError) else Signed(signature.value))
  }

  /** The effects and the result of sending a signed transaction. */
  function FromSending(w: World, signature: Signature): (seq<Effect>, Result) {
    if w.send.SendThrows? then ([Sending(signature)], NetworkError(Send))
    else if w.send.status == ERROR || w.send.status == DUPLICATE then ([Sending(signature)], SendError(w.send.hash))
    else
      var (receipt, result) := Verdict(w.poll, w.send.hash);
      ([Sending(signature)] + Repeat(Polling, PollCount(w.poll)) + [Emit(receipt)], result)
  }

  /** The effects and the result of one invocation. */
  function Behaviour(w: World): (seq<Effect>, Result) {
    var (effects, stage) := UpToSigning(w);
    match stage
    case Ended(result) => (effects, result)
    case Signed(signature) =>
      var (more, result) := FromSending(w, signature);
      (effects + more, result)
  }

  // ------------------------------------------------------------------ the pipeline as it is written

  /** Sign once with the key pair; however signing ends, nothing secret is left in it. */
  method SignOnce(signer: Keypair, sign: seq<Byte> -> Option<Signature>)
    returns (signature: Option<Signature>, effects: seq<Effect>)
    requires signer.secretSeed != null && signer.secretKey != null
    modifies signer, signer.secretSeed, signer.secretKey
    ensures signature == sign(old(signer.secretKey[..]))
    ensures effects == [Signing, WipingSigner]
    ensures signer.secretSeed == null && signer.secretKey == null
    ensures Zeroed(old(signer.secretSeed)) && Zeroed(old(signer.secretKey))
    ensures forall o: object :: fresh(o) ==> o in NOTHING
  {
    effects := [Signing];
    signature := sign(signer.secretKey[..]);
    WipeKeypair(signer);
    effects := effects + [WipingSigner];
  }

  method Poll(poll: nat -> PollAnswer, hash: string) returns (r: Result, effects: seq<Effect>)
    ensures r == Verdict(poll, hash).1
    ensures effects == Repeat(Polling, PollCount(poll)) + [Emit(Verdict(poll, hash).0)]
    ensures forall o: object :: fresh(o) ==> o in NOTHING
  {
    effects := [];
    var attempt: nat := 0;
    while attempt < POLL_ATTEMPTS
      invariant attempt <= POLL_ATTEMPTS
      invariant FirstDecisive(poll, 0) == FirstDecisive(poll, attempt)
      invariant effects == Repeat(Polling, attempt)
      invariant forall o: object :: fresh(o) ==> o in NOTHING
    {
      effects := effects + [Polling];
      var got := poll(attempt);
      if got.Success? {
        var receipt := Receipt(hash, got.ledger, SuccessReceipt);
        return Returned(got.value, receipt), effects + [Emit(receipt)];
      }
      if got.Failed? {
        return OnChainError(hash), effects + [Emit(Receipt(hash, None, FailedReceipt))];
      }
      attempt := attempt + 1;
    }
    return PollTimeout(hash), effects + [Emit(Receipt(hash, None, PendingReceipt))];
  }

  /** Load the key pair of a seed and sign with it once: no byte of it is left in anything the call allocated. */
  method LoadAndSign(seed: seq<Byte>, sign: seq<Byte> -> Option<Signature>)
    returns (signature: Option<Signature>, effects: seq<Effect>)
    ensures signature == sign(seed)
    ensures effects == [Signing, WipingSigner]
    ensures forall o: object :: fresh(o) ==> Clean(o)
  {
    var signer := new Keypair(seed);
    ghost var pair, a, b := signer.Repr(), signer.secretSeed, signer.secretKey;
    signature, effects := SignOnce(signer, sign);
    ZeroedIsClean(a);
    ZeroedIsClean(b);
    forall o: object | fresh(o)
      ensures Clean(o)
    {
      assert o in pair;
    }
  }

  /**
    * Everything before the transaction is sent. At that point, whether there is a signature or not, all that was
    * allocated holds zeros only.
    */
  method SignTransaction(w: World) returns (stage: Stage, effects: seq<Effect>)
    ensures effects == UpToSigning(w).0 && stage == UpToSigning(w).1
    ensures forall o: object :: fresh(o) ==> Clean(o)
  {
    effects := [];
    if !w.builds {
      return Ended(NetworkError(Build)), effects;
    }
    effects := [Simulating];
    if w.simulate.SimulateThrows? {
      return Ended(NetworkError(Simulate)), effects;
    }
    if w.simulate.SimulateRefuses? || !w.simulate.assembles {
      return Ended(SimulationError), effects;
    }
    if w.signer.NoWallet? {
      return Ended(WalletNotConnected), effects;
    }
    if w.signer.LoadThrows? || w.signer.BadSeed? {
      return Ended(SignError), effects;
    }
    var signature, more := LoadAndSign(w.signer.seed, w.signer.sign);
    effects := effects + more;
    stage := if signature.None? then Ended(SignError) else Signed(signature.value);
  }

  /** Send a signed transaction and poll for what becomes of it. */
  method SendTransaction(w: World, signature: Signature) returns (r: Result, effects: seq<Effect>)
    ensures effects == FromSending(w, signature).0 && r == FromSending(w, signature).1
    ensures forall o: object :: fresh(o) ==> o in NOTHING
  {
    effects := [Sending(signature)];
    if w.send.SendThrows? {
      return NetworkError(Send), effects;
    }
    if w.send.status == ERROR || w.send.status == DUPLICATE {
      return SendError(w.send.hash), effects;
    }
    var more;
    r, more := Poll(w.poll, w.send.hash);
    effects := effects + more;
    var polling := Repeat(Polling, PollCount(w.poll));
    assert effects == [Sending(signature)] + polling + [Emit(Verdict(w.poll, w.send.hash).0)];
  }

  /** `effects` lists what the call does, in order. However it ends, all it allocated holds zeros only. */
  method InvokeContract(w: World) returns (r: Result, effects: seq<Effect>)
    ensures effects == Behaviour(w).0
    ensures r == Behaviour(w).1
    ensures forall o: object :: fresh(o) ==> Clean(o)
  {
    var stage;
    stage, effects := SignTransaction(w);
    match stage {
      case Ended(result) => return result, effects;
      case Signed(signature) =>
        var more;
        r, more := SendTransaction(w, signature);
        effects := effects + more;
        forall o: object | fresh(o)
          ensures Clean(o)
        {
          assert o !in NOTHING;
        }
    }
  }

  // ------------------------------------------------------------------ what it guarantees

  function Receipts(effects: seq<Effect>): seq<Receipt> {
    if effects == [] then []
    else
      var e := effects[|effects| - 1];
      Receipts(effects[..|effects| - 1]) + (if e.Emit? then [e.receipt] else [])
  }

  lemma {:induction false} NoReceipts(effects: seq<Effect>)
    requires forall i :: 0 <= i < |effects| ==> !effects[i].Emit?
    ensures Receipts(effects) == []
  {
    if effects != [] {
      NoReceipts(effects[..|effects| - 1]);
    }
  }

  lemma OneReceipt(front: seq<Effect>, receipt: Receipt)
    requires forall i :: 0 <= i < |front| ==> !front[i].Emit?
    ensures Receipts(front + [Emit(receipt)]) == [receipt]
  {
    NoReceipts(front);
    assert (front + [Emit(receipt)])[..|front|] == front;
  }

  lemma PolledReceipts(head: seq<Effect>, n: nat, receipt: Receipt)
    requires forall i :: 0 <= i < |head| ==> !head[i].Emit?
    ensures Receipts(head + Repeat(Polling, n) + [Emit(receipt)]) == [receipt]
  {
    var front := head + Repeat(Polling, n);
    RepeatOnly(Polling, n);
    forall i | 0 <= i < |front|
      ensures !front[i].Emit?
    {
      assert front[i] == if i < |head| then head[i] else Repeat(Polling, n)[i - |head|];
    }
    OneReceipt(front, receipt);
  }

  /** The effects of a submitted transaction up to its sending. */
  function Sent(w: World): seq<Effect>
    requires Submitted(w)
  {
    [Simulating, Signing, WipingSigner, Sending(w.signer.sign(w.signer.seed).value)]
  }

  lemma SubmittedEffects(w: World)
    requires Submitted(w)
    ensures Behaviour(w).0 == Sent(w) + Repeat(Polling, PollCount(w.poll)) + [Emit(Verdict(w.poll, w.send.hash).0)]
    ensures Behaviour(w).1 == Verdict(w.poll, w.send.hash).1
  {
    var polls, last := Repeat(Polling, PollCount(w.poll)), [Emit(Verdict(w.poll, w.send.hash).0)];
    var sending := [Sending(w.signer.sign(w.signer.seed).value)];
    assert [Simulating, Signing, WipingSigner] + (sending + polls + last) == Sent(w) + polls + last;
  }

  /**
    * No receipt unless the transaction was submitted and not refused, and then exactly one, for its hash, with
    * the status that matches how the call ends.
    */
  lemma ReceiptMatchesOutcome(w: World)
    ensures var (effects, result) := Behaviour(w);
      && (!Submitted(w) ==> Receipts(effects) == [])
      && (Submitted(w) ==>
            && |Receipts(effects)| == 1 && Receipts(effects)[0].txHash == w.send.hash
            && match Receipts(effects)[0].status
               case SuccessReceipt => result.Returned? && result.receipt == Receipts(effects)[0]
               case FailedReceipt => result == OnChainError(w.send.hash)
               case PendingReceipt => result == PollTimeout(w.send.hash))
  {
    if Submitted(w) {
      SubmittedEffects(w);
      PolledReceipts(Sent(w), PollCount(w.poll), Verdict(w.poll, w.send.hash).0);
    } else {
      NoReceipts(Behaviour(w).0);
    }
  }

  /** After submission the outcome is that of the first decisive answer among thirty polls; there are no others. */
  lemma OutcomeIsFirstDecisive(w: World, k: nat)
    requires Submitted(w) && k < 30
    requires Decisive(w.poll(k)) && forall i: nat :: i < k ==> !Decisive(w.poll(i))
    ensures FirstDecisive(w.poll, 0) == Some(k) && PollCount(w.poll) == k + 1
    ensures w.poll(k).Success? ==>
      Behaviour(w).1 == Returned(w.poll(k).value, Receipt(w.send.hash, w.poll(k).ledger, SuccessReceipt))
    ensures w.poll(k).Failed? ==> Behaviour(w).1 == OnChainError(w.send.hash)
  {
  }

  lemma TimeoutIffUndecided(w: World)
    requires Submitted(w)
    ensures Behaviour(w).1.PollTimeout? <==> forall i: nat :: i < 30 ==> !Decisive(w.poll(i))
  {
  }

  /** The only signing happens second, and is directly followed by the wipe. */
  lemma SigningPlaces(w: World, i: nat)
    requires i < |Behaviour(w).0|
    ensures var effects := Behaviour(w).0;
      && (effects[i] == Signing <==> i == 1)
      && (effects[i] == WipingSigner <==> i == 2)
      && (effects[i].Sending? <==> i == 3)
      && (i == 1 ==> |effects| > 2)
  {
    if Submitted(w) && i > 3 {
      var n := PollCount(w.poll);
      SubmittedEffects(w);
      RepeatOnly(Polling, n);
      assert Behaviour(w).0[i] == if i < 4 + n then Repeat(Polling, n)[i - 4] else Emit(Verdict(w.poll, w.send.hash).0);
    }
  }

  /**
    * Nothing is sent before the signer has been wiped, it is not used again after, and it is wiped whenever used; what
    * is sent is signed with the wallet's seed.
    */
  lemma WipedBeforeSending(w: World, i: nat)
    requires i < |Behaviour(w).0|
    ensures var effects := Behaviour(w).0;
      && (effects[i].Sending? ==>
            && (exists j :: 0 <= j < i && effects[j] == WipingSigner)
            && w.signer.Signer? && w.signer.sign(w.signer.seed) == Some(effects[i].signature))
      && (effects[i] == WipingSigner ==> forall j :: i < j < |effects| ==> effects[j] != Signing)
      && (effects[i] == Signing ==> i + 1 < |effects| && effects[i + 1] == WipingSigner)
  {
    var effects := Behaviour(w).0;
    SigningPlaces(w, i);
    if effects[i].Sending? {
      SigningPlaces(w, 2);
      assert effects[2] == WipingSigner;
    }
    forall j | 0 <= j < |effects|
      ensures (effects[j] == Signing <==> j == 1) && (effects[j] == WipingSigner <==> j == 2)
    {
      SigningPlaces(w, j);
    }
  }

  // ------------------------------------------------------------------ how a call ends

  /** The transaction has been signed. */
  predicate IsSigned(w: World) {
    && w.builds && w.simulate.Simulated? && w.simulate.assembles
    && w.signer.Signer? && w.signer.sign(w.signer.seed).Some?
  }

  /** The first poll that decides is number `k`. */
  ghost predicate DecidedBy(w: World, k: nat) {
    && k < 30 && (w.poll(k).Success? || w.poll(k).Failed?)
    && forall i: nat :: i < k ==> !w.poll(i).Success? && !w.poll(i).Failed?
  }

  lemma FirstDecides(w: World)
    ensures match FirstDecisive(w.poll, 0)
            case Some(k) => DecidedBy(w, k)
            case None => forall k: nat :: !DecidedBy(w, k)
  {
    forall k: nat | k < 30
      ensures Decisive(w.poll(k)) <==> w.poll(k).Success? || w.poll(k).Failed?
    {
    }
  }

  lemma DecidedOnce(w: World, k: nat, n: nat)
    requires DecidedBy(w, k) && DecidedBy(w, n)
    ensures k == n
  {
  }

  lemma DecidedByFirst(w: World, k: nat)
    ensures DecidedBy(w, k) <==> FirstDecisive(w.poll, 0) == Some(k)
  {
    FirstDecides(w);
    var first := FirstDecisive(w.poll, 0);
    if first.Some? && DecidedBy(w, k) {
      DecidedOnce(w, k, first.value);
    }
  }

  /** Each ending before anything is sent, and exactly when it is the ending. */
  lemma EarlyEndings(w: World)
    ensures var r := Behaviour(w).1;
      var simulated := w.builds && w.simulate.Simulated? && w.simulate.assembles;
      && (r == NetworkError(Build) <==> !w.builds)
      && (r == NetworkError(Simulate) <==> w.builds && w.simulate.SimulateThrows?)
      && (r == SimulationError <==>
            w.builds && (w.simulate.SimulateRefuses? || (w.simulate.Simulated? && !w.simulate.assembles)))
      && (r == WalletNotConnected <==> simulated && w.signer.NoWallet?)
      && (r == SignError <==>
            simulated && (w.signer.LoadThrows? || w.signer.BadSeed?
                          || (w.signer.Signer? && w.signer.sign(w.signer.seed).None?)))
  {
  }

  /** Each ending of a signed transaction, and exactly when it is the ending. */
  lemma LateEndings(w: World)
    ensures var r := Behaviour(w).1;
      var polled := IsSigned(w) && w.send.Sent? && (w.send.status == PENDING || w.send.status == TRY_AGAIN_LATER);
      && (r == NetworkError(Send) <==> IsSigned(w) && w.send.SendThrows?)
      && (r.SendError? <==> IsSigned(w) && w.send.Sent? && (w.send.status == ERROR || w.send.status == DUPLICATE))
      && (r.SendError? ==> r.hash == w.send.hash)
      && (r.Returned? <==> polled && exists k: nat :: DecidedBy(w, k) && w.poll(k).Success?)
      && (r.OnChainError? <==> polled && exists k: nat :: DecidedBy(w, k) && w.poll(k).Failed?)
      && (r.PollTimeout? <==> polled && forall k: nat :: !DecidedBy(w, k))
      && (r.OnChainError? || r.PollTimeout? ==> r.hash == w.send.hash)
  {
    var first := FirstDecisive(w.poll, 0);
    forall k: nat
      ensures DecidedBy(w, k) <==> first == Some(k)
    {
      DecidedByFirst(w, k);
    }
    if first.Some? {
      assert DecidedBy(w, first.value);
    }
  }

  /** A submitted transaction is polled up to and including the poll that decides, or thirty times. */
  lemma PollsMade(w: World)
    requires Submitted(w)
    ensures forall k: nat :: DecidedBy(w, k) ==> |Behaviour(w).0| == 4 + (k + 1) + 1
    ensures (forall k: nat :: !DecidedBy(w, k)) ==> |Behaviour(w).0| == 4 + 30 + 1
    ensures forall i :: 4 <= i < |Behaviour(w).0| - 1 ==> Behaviour(w).0[i] == Polling
  {
    SubmittedEffects(w);
    RepeatOnly(Polling, PollCount(w.poll));
    forall k: nat
      ensures DecidedBy(w, k) <==> FirstDecisive(w.poll, 0) == Some(k)
    {
      DecidedByFirst(w, k);
    }
    if FirstDecisive(w.poll, 0).Some? {
      assert DecidedBy(w, FirstDecisive(w.poll, 0).value);
    }
  }
}
