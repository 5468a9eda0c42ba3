/** The encryption layer of EncPedPop, nonce-based variant
    (python/chilldkg_ref/encpedpop.py): a "Hashed ElGamal" multi-recipient
    KEM with a self-pad, additive masking of the secret-sharing core's
    shares, the participant's two steps and the coordinator's homomorphic
    aggregation. */
module EncPedPop {
  import opened Wrappers
  import opened Bytes
  import opened Scalars

  /*** Primitives and the secret-sharing core ***/

  /** The primitives the module calls but does not define, as functions. */
  datatype Crypto = Crypto(
    // ecdh_libsecp256k1(seckey, their_pubkey); None stands for its ValueError
    ecdh: (seq<byte>, seq<byte>) -> Option<seq<byte>>,
    // tagged_hash_bip_dkg(tag, msg)
    taggedHash: (string, seq<byte>) -> seq<byte>,
    // prf(seed, tag, extra_input)
    prf: (seq<byte>, string, seq<byte>) -> seq<byte>,
    // pubkey_gen_plain(seckey)
    pubkeyGen: seq<byte> -> seq<byte>)

  /** Diffie-Hellman agreement: a secret key and the other party's public
      key give the same shared data on both sides. */
  ghost predicate EcdhSymmetric(c: Crypto) {
    forall a: seq<byte>, b: seq<byte> :: c.ecdh(a, c.pubkeyGen(b)) == c.ecdh(b, c.pubkeyGen(a))
  }

  /** The records of the secret-sharing core SimplPedPop, kept abstract. */
  type SimplParticipantState
  type SimplParticipantMsg
  type SimplCoordinatorMsg
  type DkgOutput

  /** The interface of SimplPedPop that EncPedPop calls. */
  datatype SimplPedPop = SimplPedPop(
    // participant_step1(seed, t, n, idx) -> (state, pmsg, shares)
    participantStep1: (seq<byte>, nat, nat, nat) -> Result<(SimplParticipantState, SimplParticipantMsg, seq<Scalar>)>,
    // participant_step2(state, cmsg, secshare) -> (dkg_output, eq_input)
    participantStep2: (SimplParticipantState, SimplCoordinatorMsg, Scalar) -> Result<(DkgOutput, seq<byte>)>,
    // coordinator_step(pmsgs, t, n) -> (cmsg, dkg_output, eq_input)
    coordinatorStep: (seq<SimplParticipantMsg>, nat, nat) -> Result<(SimplCoordinatorMsg, DkgOutput, seq<byte>)>,
    // state.t
    threshold: SimplParticipantState -> nat)

  /*** Encryption ***/

  /** Length of the ECDH hash input before the context: the 32-byte shared
      secret and two 33-byte public keys. */
  const EcdhPrefixLength: nat := 2 * 33 + 32

  /** The bytes hashed by `ecdh` before the context: the shared secret, then
      the sender's key before the recipient's on both sides. */
  function EcdhPrefix(shared: seq<byte>, myPubkey: seq<byte>, theirPubkey: seq<byte>, sending: bool): seq<byte> {
    shared + (if sending then myPubkey + theirPubkey else theirPubkey + myPubkey)
  }

  /** The value of `ecdh(seckey, my_pubkey, their_pubkey, context, sending)`. */
  function EcdhPad(c: Crypto, seckey: seq<byte>, myPubkey: seq<byte>, theirPubkey: seq<byte>,
                   context: seq<byte>, sending: bool): (r: Result<Scalar>)
    ensures r.Ok? <==> c.ecdh(seckey, theirPubkey).Some?
                       && |c.ecdh(seckey, theirPubkey).value| + |myPubkey| + |theirPubkey| == EcdhPrefixLength
    ensures c.ecdh(seckey, theirPubkey).None? ==> r == Err(ValueError)
    ensures r.Err? && c.ecdh(seckey, theirPubkey).Some? ==> r == Err(AssertionError)
  {
    match c.ecdh(seckey, theirPubkey)
    case None => Err(ValueError)
    case Some(shared) =>
      var data := EcdhPrefix(shared, myPubkey, theirPubkey, sending);
      if |data| != EcdhPrefixLength then Err(AssertionError)
      else Ok(FromInt(IntFromBytes(c.taggedHash("encpedpop ecdh", data + context))))
  }

  /** `ecdh`: hashes the raw shared secret, both public keys and the context. */
  method Ecdh(c: Crypto, seckey: seq<byte>, myPubkey: seq<byte>, theirPubkey: seq<byte>,
              context: seq<byte>, sending: bool) returns (r: Result<Scalar>)
    ensures r == EcdhPad(c, seckey, myPubkey, theirPubkey, context, sending)
    ensures r.Ok? ==> |EcdhPrefix(c.ecdh(seckey, theirPubkey).value, myPubkey, theirPubkey, sending)| == 98
  {
    var raw := c.ecdh(seckey, theirPubkey);
    if raw.None? {
      return Err(ValueError);
    }
    var data := raw.value;
    if sending {
      data := data + (myPubkey + theirPubkey);
    } else {
      data := data + (theirPubkey + myPubkey);
    }
    if |data| != 2 * 33 + 32 {
      return Err(AssertionError);
    }
    data := data + context;
    r := Ok(FromInt(IntFromBytes(c.taggedHash("encpedpop ecdh", data))));
  }

  /** A sender (own key A, peer B) and a receiver (own key B, peer A) hash
      the same bytes. */
  lemma EcdhPrefixOrder(shared: seq<byte>, a: seq<byte>, b: seq<byte>)
    ensures EcdhPrefix(shared, a, b, true) == EcdhPrefix(shared, b, a, false)
  {
  }

  /** When both sides obtain the same raw shared secret, the sender's pad
      and the receiver's pad are equal. */
  lemma EcdhPadsAgree(c: Crypto, sA: seq<byte>, a: seq<byte>, sB: seq<byte>, b: seq<byte>, context: seq<byte>)
    requires c.ecdh(sA, b) == c.ecdh(sB, a)
    ensures EcdhPad(c, sA, a, b, context, true) == EcdhPad(c, sB, b, a, context, false)
  {
    if c.ecdh(sA, b).Some? {
      EcdhPrefixOrder(c.ecdh(sA, b).value, a, b);
    }
  }

  /** `self_pad`: the pad a participant uses for the share it sends to
      itself, derived from its decryption key by the PRF. */
  function SelfPad(c: Crypto, deckey: seq<byte>, context': seq<byte>): Scalar {
    FromInt(IntFromBytes(c.prf(deckey, "encaps_multi self_pad", context')))
  }

  /** `i.to_bytes(4, byteorder="big") + context`: the context bound to
      recipient index i. */
  function RecipientContext(i: nat, context: seq<byte>): (r: Result<seq<byte>>)
    ensures r.Ok? <==> i < TwoTo32
    ensures r.Err? ==> r.error == OverflowError
    ensures r.Ok? ==> |r.value| == 4 + |context| && IntFromBytes(r.value[..4]) == i
                      && r.value[4..] == context
  {
    var prefix :- ToBytes4(i);
    assert (prefix + context)[..4] == prefix;
    Ok(prefix + context)
  }

  /** The pad `encaps_multi` computes for recipient i. */
  function EncapsPad(c: Crypto, secnonce: seq<byte>, pubnonce: seq<byte>, deckey: seq<byte>,
                     enckeys: seq<seq<byte>>, context: seq<byte>, idx: nat, i: nat): Result<Scalar>
    requires i < |enckeys|
  {
    match RecipientContext(i, context)
    case Err(e) => Err(e)
    case Ok(context') =>
      if i == idx then Ok(SelfPad(c, deckey, context'))
      else EcdhPad(c, secnonce, pubnonce, enckeys[i], context', true)
  }

  /** The pads `encaps_multi` computes, recipient by recipient. */
  function EncapsPads(c: Crypto, secnonce: seq<byte>, pubnonce: seq<byte>, deckey: seq<byte>,
                      enckeys: seq<seq<byte>>, context: seq<byte>, idx: nat): (pads: seq<Result<Scalar>>)
    ensures |pads| == |enckeys|
    ensures forall i :: 0 <= i < |enckeys| ==> pads[i] == EncapsPad(c, secnonce, pubnonce, deckey, enckeys, context, idx, i)
  {
    seq(|enckeys|, i requires 0 <= i < |enckeys| => EncapsPad(c, secnonce, pubnonce, deckey, enckeys, context, idx, i))
  }

  /** A successful pad run holds, for each recipient, the self pad or the
      sending ECDH pad over be4(i) ‖ context. */
  lemma EncapsPadsOk(c: Crypto, secnonce: seq<byte>, pubnonce: seq<byte>, deckey: seq<byte>,
                     enckeys: seq<seq<byte>>, context: seq<byte>, idx: nat, pads: seq<Scalar>)
    requires Collect(EncapsPads(c, secnonce, pubnonce, deckey, enckeys, context, idx)) == Ok(pads)
    ensures |pads| == |enckeys|
    ensures forall i :: 0 <= i < |enckeys| ==>
              RecipientContext(i, context).Ok?
              && Ok(pads[i]) == if i == idx then Ok(SelfPad(c, deckey, RecipientContext(i, context).value))
                                else EcdhPad(c, secnonce, pubnonce, enckeys[i], RecipientContext(i, context).value, true)
  {
    CollectOk(EncapsPads(c, secnonce, pubnonce, deckey, enckeys, context, idx));
  }

  /** One iteration of the `encaps_multi` loop: the pad for recipient i. */
  method EncapsStep(c: Crypto, secnonce: seq<byte>, pubnonce: seq<byte>, deckey: seq<byte>,
                    enckeys: seq<seq<byte>>, context: seq<byte>, idx: nat, i: nat) returns (r: Result<Scalar>)
    requires i < |enckeys|
    ensures r == EncapsPad(c, secnonce, pubnonce, deckey, enckeys, context, idx, i)
  {
    var context' := RecipientContext(i, context);
    if context'.Err? {
      return Err(context'.error);
    }
    if i == idx {
      r := Ok(SelfPad(c, deckey, context'.value));
    } else {
      r := Ecdh(c, secnonce, pubnonce, enckeys[i], context'.value, true);
    }
  }

  /** `encaps_multi`: one pad per encryption key; pad i is computed over the
      context prefixed by be4(i), and is the self-pad exactly at i == idx. */
  method EncapsMulti(c: Crypto, secnonce: seq<byte>, pubnonce: seq<byte>, deckey: seq<byte>,
                     enckeys: seq<seq<byte>>, context: seq<byte>, idx: nat) returns (r: Result<seq<Scalar>>)
    ensures r == Collect(EncapsPads(c, secnonce, pubnonce, deckey, enckeys, context, idx))
    ensures r.Ok? ==> |r.value| == |enckeys|
                      && forall i :: 0 <= i < |enckeys| ==>
                           RecipientContext(i, context).Ok?
                           && Ok(r.value[i]) == if i == idx then Ok(SelfPad(c, deckey, RecipientContext(i, context).value))
                                                else EcdhPad(c, secnonce, pubnonce, enckeys[i], RecipientContext(i, context).value, true)
  {
    ghost var rs := EncapsPads(c, secnonce, pubnonce, deckey, enckeys, context, idx);
    var pads: seq<Scalar> := [];
    var i: nat := 0;
    while i < |enckeys|
      invariant i <= |enckeys|
      invariant Collect(rs[..i]) == Ok(pads)
    {
      var p := EncapsStep(c, secnonce, pubnonce, deckey, enckeys, context, idx, i);
      if p.Err? {
        CollectAbort(rs, i);
        return Err(p.error);
      }
      var pad := p.value;
      CollectStep(rs, i, pads, pad);
      pads := pads + [pad];
      i := i + 1;
    }
    assert rs[..i] == rs;
    EncapsPadsOk(c, secnonce, pubnonce, deckey, enckeys, context, idx, pads);
    r := Ok(pads);
  }

  /** `encrypt_multi`: ciphertext i is message i plus pad i; the pads are
      computed first, and `zip(strict=True)` raises ValueError when there
      are not as many messages as encryption keys. */
  function EncryptMulti(c: Crypto, secnonce: seq<byte>, pubnonce: seq<byte>, deckey: seq<byte>,
                        enckeys: seq<seq<byte>>, messages: seq<Scalar>, context: seq<byte>, idx: nat): (r: Result<seq<Scalar>>)
    ensures r.Ok? <==> |messages| == |enckeys|
                       && forall i :: 0 <= i < |enckeys| ==> EncapsPad(c, secnonce, pubnonce, deckey, enckeys, context, idx, i).Ok?
    ensures Collect(EncapsPads(c, secnonce, pubnonce, deckey, enckeys, context, idx)).Err? ==>
              r.Err? && r.error == Collect(EncapsPads(c, secnonce, pubnonce, deckey, enckeys, context, idx)).error
    ensures Collect(EncapsPads(c, secnonce, pubnonce, deckey, enckeys, context, idx)).Ok? && |messages| != |enckeys| ==>
              r == Err(ValueError)
    ensures r.Ok? ==> |r.value| == |enckeys|
                      && forall i :: 0 <= i < |enckeys| ==>
                           r.value[i] == Add(messages[i], EncapsPad(c, secnonce, pubnonce, deckey, enckeys, context, idx, i).value)
  {
    CollectOk(EncapsPads(c, secnonce, pubnonce, deckey, enckeys, context, idx));
    var pads :- Collect(EncapsPads(c, secnonce, pubnonce, deckey, enckeys, context, idx));
    if |messages| != |pads| then Err(ValueError)
    else Ok(seq(|pads|, i requires 0 <= i < |pads| => Add(messages[i], pads[i])))
  }

  /** The pad that `decrypt_sum` removes for sender i, over the recipient
      context context'. */
  function DecryptPad(c: Crypto, deckey: seq<byte>, enckey: seq<byte>, pubnonces: seq<seq<byte>>,
                      context': seq<byte>, idx: nat, i: nat): Result<Scalar>
    requires i < |pubnonces|
  {
    if i == idx then Ok(SelfPad(c, deckey, context'))
    else EcdhPad(c, deckey, enckey, pubnonces[i], context', false)
  }

  /** The pads `decrypt_sum` removes, sender by sender. */
  function DecryptPads(c: Crypto, deckey: seq<byte>, enckey: seq<byte>, pubnonces: seq<seq<byte>>,
                       context': seq<byte>, idx: nat): (pads: seq<Result<Scalar>>)
    ensures |pads| == |pubnonces|
    ensures forall i :: 0 <= i < |pubnonces| ==> pads[i] == DecryptPad(c, deckey, enckey, pubnonces, context', idx, i)
  {
    seq(|pubnonces|, i requires 0 <= i < |pubnonces| => DecryptPad(c, deckey, enckey, pubnonces, context', idx, i))
  }

  /** The pad a participant adds to its own share is the pad it removes:
      both come from its decryption key and be4(idx) ‖ context alone, with
      no ECDH, whatever the nonce and the keys. */
  lemma SelfPadsAgree(c: Crypto, secnonce: seq<byte>, pubnonce: seq<byte>, deckey: seq<byte>,
                      enckeys: seq<seq<byte>>, enckey: seq<byte>, pubnonces: seq<seq<byte>>, context: seq<byte>, idx: nat)
    requires idx < |enckeys| && idx < |pubnonces| && idx < TwoTo32
    ensures RecipientContext(idx, context).Ok?
    ensures EncapsPad(c, secnonce, pubnonce, deckey, enckeys, context, idx, idx)
            == DecryptPad(c, deckey, enckey, pubnonces, RecipientContext(idx, context).value, idx, idx)
            == Ok(SelfPad(c, deckey, RecipientContext(idx, context).value))
  {
  }

  /** The value of `decrypt_sum`: IndexError when idx is not a sender's
      index, otherwise the aggregate ciphertext minus the pad of every sender
      for recipient idx. */
  function Decryption(c: Crypto, deckey: seq<byte>, enckey: seq<byte>, pubnonces: seq<seq<byte>>,
                      sumCiphertexts: Scalar, context: seq<byte>, idx: nat): (r: Result<Scalar>)
    ensures idx >= |pubnonces| ==> r == Err(IndexError)
    ensures r.Ok? ==> idx < |pubnonces| && RecipientContext(idx, context).Ok?
                      && var pads := Collect(DecryptPads(c, deckey, enckey, pubnonces, RecipientContext(idx, context).value, idx));
                         pads.Ok? && r.value == Sub(sumCiphertexts, Sum(pads.value))
    ensures idx < |pubnonces| && RecipientContext(idx, context).Err? ==> r == Err(OverflowError)
    ensures idx < |pubnonces| && RecipientContext(idx, context).Ok? ==>
              var pads := Collect(DecryptPads(c, deckey, enckey, pubnonces, RecipientContext(idx, context).value, idx));
              (pads.Ok? ==> r.Ok?) && (pads.Err? ==> r == Err(pads.error))
  {
    if idx >= |pubnonces| then Err(IndexError)
    else
      var context' :- RecipientContext(idx, context);
      var pads :- Collect(DecryptPads(c, deckey, enckey, pubnonces, context', idx));
      Ok(Sub(sumCiphertexts, Sum(pads)))
  }

  lemma DecryptionOk(c: Crypto, deckey: seq<byte>, enckey: seq<byte>, pubnonces: seq<seq<byte>>,
                     sumCiphertexts: Scalar, context: seq<byte>, idx: nat, pads: seq<Scalar>)
    requires idx < |pubnonces| && RecipientContext(idx, context).Ok?
    requires Collect(DecryptPads(c, deckey, enckey, pubnonces, RecipientContext(idx, context).value, idx)) == Ok(pads)
    ensures Decryption(c, deckey, enckey, pubnonces, sumCiphertexts, context, idx) == Ok(Sub(sumCiphertexts, Sum(pads)))
  {
  }

  /** `decrypt_sum`: subtracts from the aggregate ciphertext, one sender at a
      time, the pad that sender used for recipient idx. */
  method DecryptSum(c: Crypto, deckey: seq<byte>, enckey: seq<byte>, pubnonces: seq<seq<byte>>,
                    sumCiphertexts: Scalar, context: seq<byte>, idx: nat) returns (r: Result<Scalar>)
    ensures r == Decryption(c, deckey, enckey, pubnonces, sumCiphertexts, context, idx)
    ensures idx >= |pubnonces| ==> r == Err(IndexError)
  {
    if idx >= |pubnonces| {
      return Err(IndexError);
    }
    var context' := RecipientContext(idx, context);
    if context'.Err? {
      return Err(context'.error);
    }
    var sumPlaintexts := sumCiphertexts;
    ghost var rs := DecryptPads(c, deckey, enckey, pubnonces, context'.value, idx);
    ghost var pads: seq<Scalar> := [];
    var i: nat := 0;
    while i < |pubnonces|
      invariant i <= |pubnonces|
      invariant Collect(rs[..i]) == Ok(pads)
      invariant sumPlaintexts == Sub(sumCiphertexts, Sum(pads))
    {
      var pad: Scalar;
      if i == idx {
        pad := SelfPad(c, deckey, context'.value);
      } else {
        var p := Ecdh(c, deckey, enckey, pubnonces[i], context'.value, false);
        if p.Err? {
          CollectAbort(rs, i);
          return Err(p.error);
        }
        pad := p.value;
      }
      CollectStep(rs, i, pads, pad);
      SubSum(sumCiphertexts, pads, pad);
      sumPlaintexts := Sub(sumPlaintexts, pad);
      pads := pads + [pad];
      i := i + 1;
    }
    assert rs[..i] == rs;
    DecryptionOk(c, deckey, enckey, pubnonces, sumCiphertexts, context, idx, pads);
    r := Ok(sumPlaintexts);
  }

  /*** Messages ***/

  datatype ParticipantMsg = ParticipantMsg(simplPmsg: SimplParticipantMsg, pubnonce: seq<byte>, encShares: seq<Scalar>)

  datatype CoordinatorMsg = CoordinatorMsg(simplCmsg: SimplCoordinatorMsg, pubnonces: seq<seq<byte>>)

  /*** Participant ***/

  datatype ParticipantState = ParticipantState(simplState: SimplParticipantState, pubnonce: seq<byte>,
                                               enckeys: seq<seq<byte>>, idx: nat)

  /** `derive_simpl_seed`: the seed handed to SimplPedPop. */
  function DeriveSimplSeed(c: Crypto, seed: seq<byte>, pubnonce: seq<byte>, encContext: seq<byte>): seq<byte> {
    c.prf(seed, "encpedpop seed", pubnonce + encContext)
  }

  /** The synthetic encryption nonce of `participant_step1`. */
  function SecNonce(c: Crypto, seed: seq<byte>, random: seq<byte>, encContext: seq<byte>): seq<byte> {
    c.prf(seed, "encpodpop secnonce", random + encContext)
  }

  /** The SimplPedPop seed is bound to the session and to the pubnonce: for
      pubnonces of one length, two derivations hand the PRF of
      `DeriveSimplSeed` the same input only for the same pubnonce in the same
      session. */
  lemma SimplSeedBindsSession(pubnonce: seq<byte>, pubnonce': seq<byte>,
                              t: nat, enckeys: seq<seq<byte>>, t': nat, enckeys': seq<seq<byte>>, width: nat)
    requires |pubnonce| == |pubnonce'| && width > 0 && FixedWidth(enckeys, width) && FixedWidth(enckeys', width)
    requires t < TwoTo32 && t' < TwoTo32
    requires pubnonce + SerializeEncContext(t, enckeys).value == pubnonce' + SerializeEncContext(t', enckeys').value
    ensures pubnonce == pubnonce' && t == t' && enckeys == enckeys'
  {
    var ctx, ctx' := SerializeEncContext(t, enckeys).value, SerializeEncContext(t', enckeys').value;
    assert (pubnonce + ctx)[..|pubnonce|] == pubnonce;
    assert (pubnonce' + ctx')[..|pubnonce'|] == pubnonce';
    assert (pubnonce + ctx)[|pubnonce|..] == ctx;
    assert (pubnonce' + ctx')[|pubnonce'|..] == ctx';
    EncContextBinding(t, enckeys, t', enckeys', width);
  }

  /** A per-recipient context determines the recipient index and the
      session context. */
  lemma RecipientContextInjective(i: nat, context: seq<byte>, i': nat, context': seq<byte>)
    requires RecipientContext(i, context).Ok? && RecipientContext(i', context').Ok?
    requires RecipientContext(i, context) == RecipientContext(i', context')
    ensures i == i' && context == context'
  {
    var r := RecipientContext(i, context).value;
    assert IntFromBytes(r[..4]) == i && IntFromBytes(r[..4]) == i';
  }

  /** The nonce and every pad are bound to the session: for randomness of
      one length, sessions distinct in the sense of `DistinctSessions`
      hand the PRF of `SecNonce` distinct inputs, and give every recipient
      index distinct pad contexts, for the self pad and for ECDH alike. */
  lemma NonceAndPadsBindSession(random: seq<byte>, random': seq<byte>,
                                t: nat, enckeys: seq<seq<byte>>, t': nat, enckeys': seq<seq<byte>>, width: nat)
    requires |random| == |random'| && DistinctSessions(t, enckeys, t', enckeys', width)
    ensures random + SerializeEncContext(t, enckeys).value != random' + SerializeEncContext(t', enckeys').value
    ensures forall i: nat :: i < TwoTo32 ==>
              RecipientContext(i, SerializeEncContext(t, enckeys).value)
              != RecipientContext(i, SerializeEncContext(t', enckeys').value)
  {
    var ctx, ctx' := SerializeEncContext(t, enckeys).value, SerializeEncContext(t', enckeys').value;
    EncContextsDiffer(t, enckeys, t', enckeys', width);
    assert (random + ctx)[|random|..] == ctx;
    assert (random' + ctx')[|random'|..] == ctx';
    forall i: nat | i < TwoTo32
      ensures RecipientContext(i, ctx) != RecipientContext(i, ctx')
    {
      if RecipientContext(i, ctx) == RecipientContext(i, ctx') {
        RecipientContextInjective(i, ctx, i, ctx');
      }
    }
  }

  /** `participant_step1`: derives the nonce and the SimplPedPop seed from
      the session context, runs SimplPedPop's first step, and encrypts its n
      shares to the n encryption keys. */
  function ParticipantStep1(c: Crypto, sp: SimplPedPop, seed: seq<byte>, deckey: seq<byte>,
                            enckeys: seq<seq<byte>>, t: nat, idx: nat, random: seq<byte>): (r: Result<(ParticipantState, ParticipantMsg)>)
    ensures t >= TwoTo32 || |random| != 32 ==> r == Err(AssertionError)
    ensures r.Ok? ==>
      && t < TwoTo32 && |random| == 32
      && var (state, pmsg) := r.value;
         var encContext := SerializeEncContext(t, enckeys).value;
         var secnonce := SecNonce(c, seed, random, encContext);
         var sub := sp.participantStep1(DeriveSimplSeed(c, seed, pmsg.pubnonce, encContext), t, |enckeys|, idx);
         && pmsg.pubnonce == state.pubnonce == c.pubkeyGen(secnonce)
         && state.enckeys == enckeys && state.idx == idx
         && sub.Ok? && state.simplState == sub.value.0 && pmsg.simplPmsg == sub.value.1
         && |sub.value.2| == |enckeys| == |pmsg.encShares|
         && EncryptMulti(c, secnonce, pmsg.pubnonce, deckey, enckeys, sub.value.2, encContext, idx) == Ok(pmsg.encShares)
    ensures t < TwoTo32 && |random| == 32 ==>
      var encContext := SerializeEncContext(t, enckeys).value;
      var secnonce := SecNonce(c, seed, random, encContext);
      var pubnonce := c.pubkeyGen(secnonce);
      var sub := sp.participantStep1(DeriveSimplSeed(c, seed, pubnonce, encContext), t, |enckeys|, idx);
      && (sub.Err? ==> r == Err(sub.error))
      && (sub.Ok? && |sub.value.2| != |enckeys| ==> r == Err(AssertionError))
      && (sub.Ok? && |sub.value.2| == |enckeys| ==>
            var encShares := EncryptMulti(c, secnonce, pubnonce, deckey, enckeys, sub.value.2, encContext, idx);
            (encShares.Err? ==> r == Err(encShares.error)) && (encShares.Ok? ==> r.Ok?))
  {
    if t >= TwoTo32 || |random| != 32 then Err(AssertionError)
    else
      var n := |enckeys|;
      var encContext := SerializeEncContext(t, enckeys).value;
      var secnonce := SecNonce(c, seed, random, encContext);
      var pubnonce := c.pubkeyGen(secnonce);
      var simplSeed := DeriveSimplSeed(c, seed, pubnonce, encContext);
      var sub :- sp.participantStep1(simplSeed, t, n, idx);
      var (simplState, simplPmsg, shares) := sub;
      if |shares| != n then Err(AssertionError)
      else
        var encShares :- EncryptMulti(c, secnonce, pubnonce, deckey, enckeys, shares, encContext, idx);
        Ok((ParticipantState(simplState, pubnonce, enckeys, idx), ParticipantMsg(simplPmsg, pubnonce, encShares)))
  }

  /** `eq_input += b"".join(enckeys) + b"".join(pubnonces)`. */
  function ExtendTranscript(eqInput: seq<byte>, enckeys: seq<seq<byte>>, pubnonces: seq<seq<byte>>): seq<byte> {
    eqInput + (Join(enckeys) + Join(pubnonces))
  }

  /** `participant_step2`: rejects a coordinator that reports a different
      pubnonce for this participant, decrypts its aggregate share, runs
      SimplPedPop's second step and extends its transcript. */
  method ParticipantStep2(c: Crypto, sp: SimplPedPop, state: ParticipantState, deckey: seq<byte>,
                          cmsg: CoordinatorMsg, encSecshare: Scalar) returns (r: Result<(DkgOutput, seq<byte>)>)
    ensures state.idx >= |cmsg.pubnonces| ==> r == Err(IndexError)
    ensures state.idx < |cmsg.pubnonces| && cmsg.pubnonces[state.idx] != state.pubnonce ==>
              r == Err(InvalidContribution(None, "Coordinator replied with wrong pubnonce"))
    ensures state.idx < |cmsg.pubnonces| && cmsg.pubnonces[state.idx] == state.pubnonce ==>
              var encContext := SerializeEncContext(sp.threshold(state.simplState), state.enckeys);
              && (encContext.Err? ==> r == Err(OverflowError))
              && (encContext.Ok? && state.idx >= |state.enckeys| ==> r == Err(IndexError))
              && (encContext.Ok? && state.idx < |state.enckeys| ==>
                    var secshare := Decryption(c, deckey, state.enckeys[state.idx], cmsg.pubnonces, encSecshare,
                                               encContext.value, state.idx);
                    && (secshare.Err? ==> r == Err(secshare.error))
                    && (secshare.Ok? ==>
                          var sub := sp.participantStep2(state.simplState, cmsg.simplCmsg, secshare.value);
                          && (sub.Err? ==> r == Err(sub.error))
                          && (sub.Ok? ==> r == Ok((sub.value.0, ExtendTranscript(sub.value.1, state.enckeys, cmsg.pubnonces))))))
  {
    var ParticipantState(simplState, pubnonce, enckeys, idx) := state;
    var CoordinatorMsg(simplCmsg, pubnonces) := cmsg;
    if idx >= |pubnonces| {
      return Err(IndexError);
    }
    var reportedPubnonce := pubnonces[idx];
    if reportedPubnonce != pubnonce {
      return Err(InvalidContribution(None, "Coordinator replied with wrong pubnonce"));
    }
    var encContext := SerializeEncContext(sp.threshold(simplState), enckeys);
    if encContext.Err? {
      return Err(encContext.error);
    }
    if idx >= |enckeys| {
      return Err(IndexError);
    }
    var secshare := DecryptSum(c, deckey, enckeys[idx], pubnonces, encSecshare, encContext.value, idx);
    if secshare.Err? {
      return Err(secshare.error);
    }
    var sub := sp.participantStep2(simplState, simplCmsg, secshare.value);
    if sub.Err? {
      return Err(sub.error);
    }
    var (dkgOutput, eqInput) := sub.value;
    eqInput := eqInput + (Join(enckeys) + Join(pubnonces));
    r := Ok((dkgOutput, eqInput));
  }

  /*** Coordinator ***/

  function SimplPmsgs(pmsgs: seq<ParticipantMsg>): seq<SimplParticipantMsg> {
    seq(|pmsgs|, p requires 0 <= p < |pmsgs| => pmsgs[p].simplPmsg)
  }

  function Pubnonces(pmsgs: seq<ParticipantMsg>): seq<seq<byte>> {
    seq(|pmsgs|, p requires 0 <= p < |pmsgs| => pmsgs[p].pubnonce)
  }

  function EncShares(pmsgs: seq<ParticipantMsg>): seq<seq<Scalar>> {
    seq(|pmsgs|, p requires 0 <= p < |pmsgs| => pmsgs[p].encShares)
  }

  /** `coordinator_step`: checks the number of messages, runs SimplPedPop's
      coordinator step, blames the first participant whose encrypted share
      vector has the wrong length, sums the ciphertexts addressed to each
      recipient and extends the transcript. */
  method CoordinatorStep(sp: SimplPedPop, pmsgs: seq<ParticipantMsg>, t: nat, enckeys: seq<seq<byte>>)
    returns (r: Result<(CoordinatorMsg, DkgOutput, seq<byte>, seq<Scalar>)>)
    ensures |enckeys| != |pmsgs| ==> r == Err(ValueError)
    ensures |enckeys| == |pmsgs| && sp.coordinatorStep(SimplPmsgs(pmsgs), t, |enckeys|).Err? ==>
              r == Err(sp.coordinatorStep(SimplPmsgs(pmsgs), t, |enckeys|).error)
    ensures |enckeys| == |pmsgs| && sp.coordinatorStep(SimplPmsgs(pmsgs), t, |enckeys|).Ok? ==>
              forall i :: 0 <= i < |pmsgs| && |pmsgs[i].encShares| != |enckeys|
                          && (forall p :: 0 <= p < i ==> |pmsgs[p].encShares| == |enckeys|) ==>
                r == Err(InvalidContribution(Some(i), "Participant sent enc_shares with invalid length"))
    ensures r.Ok? <==> |enckeys| == |pmsgs| && sp.coordinatorStep(SimplPmsgs(pmsgs), t, |enckeys|).Ok?
                       && forall p :: 0 <= p < |pmsgs| ==> |pmsgs[p].encShares| == |enckeys|
    ensures r.Ok? ==>
      var sub := sp.coordinatorStep(SimplPmsgs(pmsgs), t, |enckeys|).value;
      var (cmsg, dkgOutput, eqInput, encSecshares) := r.value;
      && cmsg == CoordinatorMsg(sub.0, Pubnonces(pmsgs)) && dkgOutput == sub.1
      && eqInput == ExtendTranscript(sub.2, enckeys, Pubnonces(pmsgs))
      && |encSecshares| == |enckeys|
      && forall i :: 0 <= i < |enckeys| ==> encSecshares[i] == Sum(Column(EncShares(pmsgs), i))
  {
    var n := |enckeys|;
    if n != |pmsgs| {
      return Err(ValueError);
    }
    var sub := sp.coordinatorStep(SimplPmsgs(pmsgs), t, n);
    if sub.Err? {
      return Err(sub.error);
    }
    var (simplCmsg, dkgOutput, eqInput) := sub.value;
    var pubnonces := Pubnonces(pmsgs);
    var i := 0;
    while i < n
      invariant i <= n
      invariant forall p :: 0 <= p < i ==> |pmsgs[p].encShares| == n
    {
      if |pmsgs[i].encShares| != n {
        return Err(InvalidContribution(Some(i), "Participant sent enc_shares with invalid length"));
      }
      i := i + 1;
    }
    var encSecshares := seq(n, i requires 0 <= i < n => Sum(Column(EncShares(pmsgs), i)));
    eqInput := eqInput + (Join(enckeys) + Join(pubnonces));
    r := Ok((CoordinatorMsg(simplCmsg, pubnonces), dkgOutput, eqInput, encSecshares));
  }
}
