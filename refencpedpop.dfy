/** The older EncPedPop (reference/encpedpop.py): every pair of signers
    shares one ECDH pad derived from their long-term keys; a signer keeps
    its own share, sends a constant zero in its place, and after the
    coordinator sums the ciphertexts removes the pads of all other
    signers. */
module RefEncPedPop {
  import opened Wrappers
  import opened Bytes
  import opened Scalars

  /** The primitives the module calls but does not define. */
  datatype Crypto = Crypto(
    // ecdh_raw(deckey, enckey).to_bytes_compressed(); None stands for the
    // ValueError it raises on an invalid key
    ecdhRaw: (seq<byte>, seq<byte>) -> Option<seq<byte>>,
    // tagged_hash_bip_dkg(tag, msg)
    taggedHash: (string, seq<byte>) -> seq<byte>)

  /** SimplPedPop's records, not modelled here. */
  type SimplSignerState1
  type SimplUnicast1
  type SimplBroadcast1
  type DkgOutput

  /** The two SimplPedPop entry points this layer wraps. */
  datatype SimplPedPop = SimplPedPop(
    // signer_round1(seed, t, n, idx) -> (state, unicast, shares)
    signerRound1: (seq<byte>, nat, nat, nat) -> Result<(SimplSignerState1, SimplUnicast1, seq<Scalar>)>,
    // signer_pre_finalize(state, broadcast, shares_sum) -> (eta, dkg_output)
    signerPreFinalize: (SimplSignerState1, SimplBroadcast1, Scalar) -> Result<(seq<byte>, DkgOutput)>)

  /** The signers' key pairs fit together: the shared secret of a and b is
      the same from either side, which is what Diffie-Hellman guarantees for
      enckeys[j] = deckeys[j]·G. */
  predicate KeysAgree(c: Crypto, deckeys: seq<seq<byte>>, enckeys: seq<seq<byte>>) {
    |deckeys| == |enckeys|
    && forall a, b :: 0 <= a < |enckeys| && 0 <= b < |enckeys| ==>
         c.ecdhRaw(deckeys[a], enckeys[b]) == c.ecdhRaw(deckeys[b], enckeys[a])
  }

  /** `ecdh`: the pad of a pair of signers, the hash "ECDH" of the compressed
      shared point followed by the context, reduced modulo the group order;
      ValueError on an invalid key. */
  function Ecdh(c: Crypto, deckey: seq<byte>, enckey: seq<byte>, context: seq<byte>): (r: Result<Scalar>)
    ensures r.Ok? <==> c.ecdhRaw(deckey, enckey).Some?
    ensures r.Err? ==> r.error == ValueError
  {
    match c.ecdhRaw(deckey, enckey)
    case None => Err(ValueError)
    case Some(shared) => Ok(FromInt(IntFromBytes(c.taggedHash("ECDH", shared + context))))
  }

  /** Both ends of a pair compute the same pad. */
  lemma PadsSymmetric(c: Crypto, deckeys: seq<seq<byte>>, enckeys: seq<seq<byte>>, a: nat, b: nat, context: seq<byte>)
    requires KeysAgree(c, deckeys, enckeys) && a < |enckeys| && b < |enckeys|
    ensures Ecdh(c, deckeys[a], enckeys[b], context) == Ecdh(c, deckeys[b], enckeys[a], context)
  {
    assert c.ecdhRaw(deckeys[a], enckeys[b]) == c.ecdhRaw(deckeys[b], enckeys[a]);
  }

  /** `encrypt`: the share plus the pair's pad; fails exactly when the pad
      does, and removing the pad gives the share back. */
  function Encrypt(c: Crypto, share: Scalar, deckey: seq<byte>, enckey: seq<byte>, context: seq<byte>): (r: Result<Scalar>)
    ensures r.Ok? <==> Ecdh(c, deckey, enckey, context).Ok?
    ensures r.Err? ==> r.error == ValueError
    ensures r.Ok? ==> Sub(r.value, Ecdh(c, deckey, enckey, context).value) == share
  {
    var pad :- Ecdh(c, deckey, enckey, context);
    SubAdd(share, pad);
    Ok(Add(share, pad))
  }

  /** The pad `decrypt_sum` removes for signer i: none for the signer's own
      index. */
  function PeerPad(c: Crypto, deckey: seq<byte>, enckeys: seq<seq<byte>>, idx: nat, context: seq<byte>, i: nat)
    : (r: Result<Scalar>)
    requires i < |enckeys|
    ensures r.Ok? <==> i == idx || c.ecdhRaw(deckey, enckeys[i]).Some?
    ensures r.Ok? && i == idx ==> r.value == 0
  {
    if i == idx then Ok(0) else Ecdh(c, deckey, enckeys[i], context)
  }

  /** The pads `decrypt_sum` removes, signer by signer. */
  function PeerPads(c: Crypto, deckey: seq<byte>, enckeys: seq<seq<byte>>, idx: nat, context: seq<byte>)
    : (pads: seq<Result<Scalar>>)
    ensures |pads| == |enckeys|
    ensures forall i :: 0 <= i < |enckeys| ==> pads[i] == PeerPad(c, deckey, enckeys, idx, context, i)
  {
    seq(|enckeys|, i requires 0 <= i < |enckeys| => PeerPad(c, deckey, enckeys, idx, context, i))
  }

  /** The value of `decrypt_sum`: the ciphertext sum minus the pad of every
      other signer. No bound on idx is checked: an idx outside the signers
      removes every pad. */
  function Decryption(c: Crypto, ciphertextSum: Scalar, deckey: seq<byte>, enckeys: seq<seq<byte>>, idx: nat,
                      context: seq<byte>): (r: Result<Scalar>)
    ensures r.Ok? <==> forall i :: 0 <= i < |enckeys| ==> i == idx || c.ecdhRaw(deckey, enckeys[i]).Some?
    ensures r.Err? ==> r.error == ValueError
    ensures r.Ok? ==>
      && Collect(PeerPads(c, deckey, enckeys, idx, context)).Ok?
      && var pads := Collect(PeerPads(c, deckey, enckeys, idx, context)).value;
         && |pads| == |enckeys|
         && (forall i :: 0 <= i < |enckeys| && i != idx ==> Ecdh(c, deckey, enckeys[i], context) == Ok(pads[i]))
         && (idx < |enckeys| ==> pads[idx] == 0)
         && Add(r.value, Sum(pads)) == ciphertextSum
  {
    var rs := PeerPads(c, deckey, enckeys, idx, context);
    CollectOk(rs);
    CollectErr(rs);
    assert forall i :: 0 <= i < |enckeys| ==> (rs[i].Ok? <==> i == idx || c.ecdhRaw(deckey, enckeys[i]).Some?);
    var pads :- Collect(rs);
    AddSub(ciphertextSum, Sum(pads));
    Ok(Sub(ciphertextSum, Sum(pads)))
  }

  /** `decrypt_sum`, the loop that peels off one pad per other signer. */
  method DecryptSum(c: Crypto, ciphertextSum: Scalar, deckey: seq<byte>, enckeys: seq<seq<byte>>, idx: nat,
                    context: seq<byte>) returns (r: Result<Scalar>)
    ensures r == Decryption(c, ciphertextSum, deckey, enckeys, idx, context)
  {
    var sharesSum := ciphertextSum;
    ghost var rs := PeerPads(c, deckey, enckeys, idx, context);
    ghost var pads: seq<Scalar> := [];
    var i := 0;
    while i < |enckeys|
      invariant 0 <= i <= |enckeys|
      invariant Collect(rs[..i]) == Ok(pads)
      invariant sharesSum == Sub(ciphertextSum, Sum(pads))
    {
      if i != idx {
        var pad := Ecdh(c, deckey, enckeys[i], context);
        if pad.Err? {
          CollectAbort(rs, i);
          return Err(pad.error);
        }
        CollectStep(rs, i, pads, pad.value);
        SubSum(ciphertextSum, pads, pad.value);
        sharesSum := Sub(sharesSum, pad.value);
        pads := pads + [pad.value];
      } else {
        CollectStep(rs, i, pads, 0);
        SubSum(ciphertextSum, pads, 0);
        pads := pads + [0];
      }
      i := i + 1;
    }
    assert rs[..i] == rs;
    return Ok(sharesSum);
  }

  /** `Unicast1`: what a signer sends in round 1. */
  datatype Unicast1 = Unicast1(simplUni1: SimplUnicast1, encShares: seq<Scalar>)

  /** `Broadcast1`: what the coordinator sends back. */
  datatype Broadcast1 = Broadcast1(simplBroad1: SimplBroadcast1, encSharesSum: Scalar)

  /** `SignerState1`: what a signer keeps between the rounds. */
  datatype SignerState1 = SignerState1(t: nat, deckey: seq<byte>, enckeys: seq<seq<byte>>, idx: nat,
                                       selfShare: Scalar, simplState: SimplSignerState1)

  /** The seed handed to SimplPedPop, bound to the session context. */
  function SeedFor(c: Crypto, seed: seq<byte>, encContext: seq<byte>): seq<byte> {
    c.taggedHash("EncPedPop seed", seed + encContext)
  }

  /** The SimplPedPop seed is bound to the session: for seeds of one
      length, sessions distinct in the sense of `DistinctSessions` hand the
      tagged hash of `SeedFor` distinct inputs, so a seed reused across
      sessions yields unrelated shares. */
  lemma SeedBindsSession(seed: seq<byte>, seed': seq<byte>,
                         t: nat, enckeys: seq<seq<byte>>, t': nat, enckeys': seq<seq<byte>>, width: nat)
    requires |seed| == |seed'| && DistinctSessions(t, enckeys, t', enckeys', width)
    ensures seed + SerializeEncContext(t, enckeys).value != seed' + SerializeEncContext(t', enckeys').value
  {
    var ctx, ctx' := SerializeEncContext(t, enckeys).value, SerializeEncContext(t', enckeys').value;
    EncContextsDiffer(t, enckeys, t', enckeys', width);
    assert (seed + ctx)[|seed|..] == ctx;
    assert (seed' + ctx')[|seed'|..] == ctx';
  }

  /** What SimplPedPop's round 1 returns inside `signer_round1`. */
  function SimplRound1(c: Crypto, sp: SimplPedPop, seed: seq<byte>, t: nat, enckeys: seq<seq<byte>>, idx: nat)
    : Result<(SimplSignerState1, SimplUnicast1, seq<Scalar>)>
    requires t < TwoTo32
  {
    sp.signerRound1(SeedFor(c, seed, SerializeEncContext(t, enckeys).value), t, |enckeys|, idx)
  }

  /** Entry i of a signer's encrypted shares: 0 at its own index, otherwise
      the encryption for signer i; the ValueError of an invalid enckeys[i]
      (the only error Encrypt has) is blamed on signer i. */
  function EncShare(c: Crypto, shares: seq<Scalar>, deckey: seq<byte>, enckeys: seq<seq<byte>>, idx: nat,
                    context: seq<byte>, i: nat): (r: Result<Scalar>)
    requires i < |enckeys| && i < |shares|
    ensures r.Ok? <==> i == idx || c.ecdhRaw(deckey, enckeys[i]).Some?
    ensures r.Err? ==> r.error == InvalidContribution(Some(i), "Participant sent invalid encryption key")
    ensures r.Ok? && i == idx ==> r.value == 0
    ensures r.Ok? && i != idx ==> Sub(r.value, Ecdh(c, deckey, enckeys[i], context).value) == shares[i]
    ensures r.Ok? && i != idx ==> Encrypt(c, shares[i], deckey, enckeys[i], context) == r
  {
    if i == idx then Ok(0)
    else match Encrypt(c, shares[i], deckey, enckeys[i], context)
      case Err(_) => Err(InvalidContribution(Some(i), "Participant sent invalid encryption key"))
      case Ok(e) => Ok(e)
  }

  /** The entries `signer_round1` computes, signer by signer. */
  function EncryptedShares(c: Crypto, shares: seq<Scalar>, deckey: seq<byte>, enckeys: seq<seq<byte>>, idx: nat,
                           context: seq<byte>): (es: seq<Result<Scalar>>)
    requires |shares| == |enckeys|
    ensures |es| == |enckeys|
    ensures forall i :: 0 <= i < |enckeys| ==> es[i] == EncShare(c, shares, deckey, enckeys, idx, context, i)
  {
    seq(|enckeys|, i requires 0 <= i < |enckeys| => EncShare(c, shares, deckey, enckeys, idx, context, i))
  }

  /** The first invalid key blames its index for the whole round. */
  lemma EncSharesFirstError(c: Crypto, shares: seq<Scalar>, deckey: seq<byte>, enckeys: seq<seq<byte>>, idx: nat,
                            context: seq<byte>, i: nat)
    requires i < |enckeys| == |shares|
    requires forall j :: 0 <= j < i ==> j == idx || c.ecdhRaw(deckey, enckeys[j]).Some?
    requires i != idx && c.ecdhRaw(deckey, enckeys[i]).None?
    ensures Collect(EncryptedShares(c, shares, deckey, enckeys, idx, context))
            == Err(InvalidContribution(Some(i), "Participant sent invalid encryption key"))
  {
    CollectFirstError(EncryptedShares(c, shares, deckey, enckeys, idx, context), i);
  }

  /** The loop of `signer_round1` that encrypts the shares, 0 standing in
      for the signer's own. */
  method EncryptShares(c: Crypto, shares: seq<Scalar>, deckey: seq<byte>, enckeys: seq<seq<byte>>, idx: nat,
                       encContext: seq<byte>) returns (r: Result<seq<Scalar>>)
    requires |shares| == |enckeys|
    ensures r == Collect(EncryptedShares(c, shares, deckey, enckeys, idx, encContext))
  {
    ghost var rs := EncryptedShares(c, shares, deckey, enckeys, idx, encContext);
    var encShares: seq<Scalar> := [];
    var i := 0;
    while i < |enckeys|
      invariant 0 <= i <= |enckeys|
      invariant Collect(rs[..i]) == Ok(encShares)
    {
      if i == idx {
        CollectStep(rs, i, encShares, 0);
        encShares := encShares + [0];
      } else {
        var e := Encrypt(c, shares[i], deckey, enckeys[i], encContext);
        if e.Err? {
          CollectAbort(rs, i);
          return Err(InvalidContribution(Some(i), "Participant sent invalid encryption key"));
        }
        CollectStep(rs, i, encShares, e.value);
        encShares := encShares + [e.value];
      }
      i := i + 1;
    }
    assert rs[..i] == rs;
    return Ok(encShares);
  }

  /** `signer_round1`. The argument n is ignored: the source overwrites it
      with the number of encryption keys. */
  method SignerRound1(c: Crypto, sp: SimplPedPop, seed: seq<byte>, t: nat, n: nat, deckey: seq<byte>,
                      enckeys: seq<seq<byte>>, idx: nat) returns (r: Result<(SignerState1, Unicast1)>)
    ensures t >= TwoTo32 ==> r == Err(AssertionError)
    ensures t < TwoTo32 && SimplRound1(c, sp, seed, t, enckeys, idx).Err? ==>
              r == Err(SimplRound1(c, sp, seed, t, enckeys, idx).error)
    ensures t < TwoTo32 && SimplRound1(c, sp, seed, t, enckeys, idx).Ok?
            && |SimplRound1(c, sp, seed, t, enckeys, idx).value.2| != |enckeys| ==>
              r == Err(AssertionError)
    ensures t < TwoTo32 && SimplRound1(c, sp, seed, t, enckeys, idx).Ok?
            && |SimplRound1(c, sp, seed, t, enckeys, idx).value.2| == |enckeys| ==>
              var (simplState, simplUni1, shares) := SimplRound1(c, sp, seed, t, enckeys, idx).value;
              var encShares := Collect(EncryptedShares(c, shares, deckey, enckeys, idx,
                                                       SerializeEncContext(t, enckeys).value));
              (encShares.Err? ==> r == Err(encShares.error))
              && (encShares.Ok? && idx >= |enckeys| ==> r == Err(IndexError))
              && (encShares.Ok? && idx < |enckeys| ==>
                    r == Ok((SignerState1(t, deckey, enckeys, idx, shares[idx], simplState),
                             Unicast1(simplUni1, encShares.value))))
  {
    if t >= TwoTo32 {
      return Err(AssertionError);
    }
    var n' := |enckeys|;
    var encContext := SerializeEncContext(t, enckeys).value;
    var seed' := SeedFor(c, seed, encContext);
    var simpl := sp.signerRound1(seed', t, n', idx);
    assert simpl == SimplRound1(c, sp, seed, t, enckeys, idx);
    if simpl.Err? {
      return Err(simpl.error);
    }
    var (simplState, simplUni1, shares) := simpl.value;
    if |shares| != n' {
      return Err(AssertionError);
    }
    var encShares :- EncryptShares(c, shares, deckey, enckeys, idx, encContext);
    if idx >= n' {
      return Err(IndexError);
    }
    var selfShare := shares[idx];
    return Ok((SignerState1(t, deckey, enckeys, idx, selfShare, simplState), Unicast1(simplUni1, encShares)));
  }

  /** `signer_pre_finalize`: decrypt the coordinator's sum, add the share
      kept back, finish SimplPedPop and extend its transcript by the
      encryption keys. */
  method SignerPreFinalize(c: Crypto, sp: SimplPedPop, state1: SignerState1, broad1: Broadcast1)
    returns (r: Result<(seq<byte>, DkgOutput)>)
    ensures state1.t >= TwoTo32 ==> r == Err(OverflowError)
    ensures state1.t < TwoTo32 ==>
              var shares := Decryption(c, broad1.encSharesSum, state1.deckey, state1.enckeys, state1.idx,
                                       SerializeEncContext(state1.t, state1.enckeys).value);
              (shares.Err? ==> r == Err(shares.error))
              && (shares.Ok? ==>
                    var simpl := sp.signerPreFinalize(state1.simplState, broad1.simplBroad1,
                                                      Add(shares.value, state1.selfShare));
                    (simpl.Err? ==> r == Err(simpl.error))
                    && (simpl.Ok? ==> r == Ok((simpl.value.0 + Join(state1.enckeys), simpl.value.1))))
  {
    var encContext :- SerializeEncContext(state1.t, state1.enckeys);
    var sharesSum :- DecryptSum(c, broad1.encSharesSum, state1.deckey, state1.enckeys, state1.idx, encContext);
    sharesSum := Add(sharesSum, state1.selfShare);
    var simpl :- sp.signerPreFinalize(state1.simplState, broad1.simplBroad1, sharesSum);
    var (eta, dkgOutput) := simpl;
    eta := eta + Join(state1.enckeys);
    return Ok((eta, dkgOutput));
  }

  /** Entry idx of signer j's encrypted shares is its share for idx plus
      the pad of the pair (j, idx); both are 0 for j = idx. */
  lemma EncryptedColumn(c: Crypto, deckeys: seq<seq<byte>>, enckeys: seq<seq<byte>>, context: seq<byte>,
                        shares: seq<seq<Scalar>>, encShares: seq<seq<Scalar>>, idx: nat, j: nat)
    requires |deckeys| == |shares| == |encShares| == |enckeys| && idx < |enckeys| && j < |enckeys|
    requires |shares[j]| == |enckeys|
    requires Collect(EncryptedShares(c, shares[j], deckeys[j], enckeys, j, context)) == Ok(encShares[j])
    ensures |encShares[j]| == |enckeys|
    ensures j != idx ==> Ecdh(c, deckeys[j], enckeys[idx], context).Ok?
                         && encShares[j][idx] == Add(shares[j][idx], Ecdh(c, deckeys[j], enckeys[idx], context).value)
    ensures j == idx ==> encShares[j][idx] == 0
  {
    CollectOk(EncryptedShares(c, shares[j], deckeys[j], enckeys, j, context));
    assert EncShare(c, shares[j], deckeys[j], enckeys, j, context, idx) == Ok(encShares[j][idx]);
    if j != idx {
      AddSub(encShares[j][idx], Ecdh(c, deckeys[j], enckeys[idx], context).value);
    }
  }

  /** The pads signer idx removes are the pads the other signers added. */
  lemma {:induction false} RemovedPads(c: Crypto, deckeys: seq<seq<byte>>, enckeys: seq<seq<byte>>, context: seq<byte>,
                                       idx: nat, pads: seq<Scalar>)
    requires KeysAgree(c, deckeys, enckeys)
    requires |pads| == |enckeys| && idx < |enckeys| && pads[idx] == 0
    requires forall j :: 0 <= j < |enckeys| && j != idx ==> Ecdh(c, deckeys[j], enckeys[idx], context) == Ok(pads[j])
    ensures Collect(PeerPads(c, deckeys[idx], enckeys, idx, context)) == Ok(pads)
  {
    forall j | 0 <= j < |enckeys|
      ensures PeerPad(c, deckeys[idx], enckeys, idx, context, j) == Ok(pads[j])
    {
      if j != idx {
        PadsSymmetric(c, deckeys, enckeys, idx, j, context);
      }
    }
    var rs := PeerPads(c, deckeys[idx], enckeys, idx, context);
    CollectOk(rs);
    var removed := Collect(rs);
    assert removed.Ok?;
    assert removed.value == pads;
  }

  /** Entry idx of every signer's shares, with 0 in place of idx's own. */
  function Kept(shares: seq<seq<Scalar>>, idx: nat): (kept: seq<Scalar>)
    requires idx < |shares| && forall j :: 0 <= j < |shares| ==> idx < |shares[j]|
    ensures |kept| == |shares| && kept[idx] == 0
    ensures forall j :: 0 <= j < |shares| && j != idx ==> kept[j] == shares[j][idx]
  {
    seq(|shares|, j requires 0 <= j < |shares| => if j == idx then 0 else shares[j][idx])
  }

  /** The pad signer idx shares with each other signer, 0 for idx itself
      and for a pair without a valid key. */
  function PairPads(c: Crypto, deckeys: seq<seq<byte>>, enckeys: seq<seq<byte>>, context: seq<byte>, idx: nat)
    : (pads: seq<Scalar>)
    requires |deckeys| == |enckeys| && idx < |enckeys|
    ensures |pads| == |enckeys| && pads[idx] == 0
    ensures forall j :: 0 <= j < |enckeys| && j != idx && Ecdh(c, deckeys[j], enckeys[idx], context).Ok? ==>
              pads[j] == Ecdh(c, deckeys[j], enckeys[idx], context).value
  {
    seq(|enckeys|, j requires 0 <= j < |enckeys| =>
      if j == idx || Ecdh(c, deckeys[j], enckeys[idx], context).Err? then 0
      else Ecdh(c, deckeys[j], enckeys[idx], context).value)
  }

  /** The column of entry idx splits into the shares kept for idx and the
      pads idx shares with each other signer. */
  lemma ColumnSplit(c: Crypto, deckeys: seq<seq<byte>>, enckeys: seq<seq<byte>>, context: seq<byte>,
                    shares: seq<seq<Scalar>>, encShares: seq<seq<Scalar>>, idx: nat)
    requires |deckeys| == |shares| == |encShares| == |enckeys| && idx < |enckeys|
    requires forall j :: 0 <= j < |enckeys| ==>
               |shares[j]| == |enckeys|
               && Collect(EncryptedShares(c, shares[j], deckeys[j], enckeys, j, context)) == Ok(encShares[j])
    ensures forall j :: 0 <= j < |enckeys| ==> |encShares[j]| == |enckeys|
    ensures forall j :: 0 <= j < |enckeys| ==>
              Column(encShares, idx)[j] == Add(Kept(shares, idx)[j], PairPads(c, deckeys, enckeys, context, idx)[j])
    ensures forall j :: 0 <= j < |enckeys| && j != idx ==>
              Ecdh(c, deckeys[j], enckeys[idx], context) == Ok(PairPads(c, deckeys, enckeys, context, idx)[j])
  {
    var kept := Kept(shares, idx);
    var pads := PairPads(c, deckeys, enckeys, context, idx);
    forall j | 0 <= j < |enckeys|
      ensures |encShares[j]| == |enckeys|
      ensures encShares[j][idx] == Add(kept[j], pads[j])
      ensures j != idx ==> Ecdh(c, deckeys[j], enckeys[idx], context) == Ok(pads[j])
    {
      EncryptedColumn(c, deckeys, enckeys, context, shares, encShares, idx, j);
    }
  }

  /** Round trip: when every signer j produced encShares[j] from its
      SimplPedPop shares shares[j], signer idx decrypting the coordinator's
      sum of entry idx and adding the share it kept obtains the sum of all
      shares addressed to it. */
  lemma SharesSumRoundTrip(c: Crypto, deckeys: seq<seq<byte>>, enckeys: seq<seq<byte>>,
                           context: seq<byte>, shares: seq<seq<Scalar>>,
                           encShares: seq<seq<Scalar>>, idx: nat)
    requires KeysAgree(c, deckeys, enckeys)
    requires |shares| == |encShares| == |enckeys| && idx < |enckeys|
    requires forall j :: 0 <= j < |enckeys| ==>
               |shares[j]| == |enckeys|
               && Collect(EncryptedShares(c, shares[j], deckeys[j], enckeys, j, context)) == Ok(encShares[j])
    ensures forall j :: 0 <= j < |enckeys| ==> |encShares[j]| == |enckeys|
    ensures Decryption(c, Sum(Column(encShares, idx)), deckeys[idx], enckeys, idx, context).Ok?
    ensures Add(Decryption(c, Sum(Column(encShares, idx)), deckeys[idx], enckeys, idx, context).value, shares[idx][idx])
            == Sum(Column(shares, idx))
  {
    ColumnSplit(c, deckeys, enckeys, context, shares, encShares, idx);
    var kept := Kept(shares, idx);
    var pads := PairPads(c, deckeys, enckeys, context, idx);
    RemovedPads(c, deckeys, enckeys, context, idx, pads);
    SumOfAddsSub(kept, pads, Column(encShares, idx));
    SumZeroAt(Column(shares, idx), kept, idx);
  }

}
