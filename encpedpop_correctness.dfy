/** What the nonce-based EncPedPop achieves across participants: the pad a
    sender adds for a recipient is the pad that recipient removes, so the
    coordinator's per-recipient sum decrypts to the sum of the plaintext
    shares addressed to that recipient. */
module EncPedPopCorrectness {
  import opened Wrappers
  import opened Bytes
  import opened Scalars
  import opened EncPedPop

  /** Sender j's pad for recipient idx equals the pad recipient idx
      computes for sender j. */
  lemma PadsMatch(c: Crypto, secnonce: seq<byte>, senderDeckey: seq<byte>, enckeys: seq<seq<byte>>,
                  context: seq<byte>, j: nat, deckey: seq<byte>, pubnonces: seq<seq<byte>>, idx: nat)
    requires EcdhSymmetric(c)
    requires idx < |enckeys| && j < |pubnonces| && pubnonces[j] == c.pubkeyGen(secnonce)
    requires enckeys[idx] == c.pubkeyGen(deckey)
    requires j == idx ==> senderDeckey == deckey
    requires EncapsPad(c, secnonce, pubnonces[j], senderDeckey, enckeys, context, j, idx).Ok?
    ensures RecipientContext(idx, context).Ok?
    ensures DecryptPad(c, deckey, enckeys[idx], pubnonces, RecipientContext(idx, context).value, idx, j)
            == EncapsPad(c, secnonce, pubnonces[j], senderDeckey, enckeys, context, j, idx)
  {
    if j != idx {
      assert c.ecdh(secnonce, c.pubkeyGen(deckey)) == c.ecdh(deckey, c.pubkeyGen(secnonce));
      EcdhPadsAgree(c, secnonce, pubnonces[j], deckey, enckeys[idx], RecipientContext(idx, context).value);
    }
  }

  /** Every sender's pad for recipient idx (0 where it fails). */
  function SenderPads(c: Crypto, secnonces: seq<seq<byte>>, pubnonces: seq<seq<byte>>, deckeys: seq<seq<byte>>,
                      enckeys: seq<seq<byte>>, context: seq<byte>, idx: nat): (pads: seq<Scalar>)
    requires |secnonces| == |pubnonces| == |deckeys| == |enckeys| && idx < |enckeys|
    ensures |pads| == |enckeys|
    ensures forall j :: 0 <= j < |enckeys| && EncapsPad(c, secnonces[j], pubnonces[j], deckeys[j], enckeys, context, j, idx).Ok? ==>
              EncapsPad(c, secnonces[j], pubnonces[j], deckeys[j], enckeys, context, j, idx) == Ok(pads[j])
  {
    seq(|enckeys|, j requires 0 <= j < |enckeys| =>
      var pad := EncapsPad(c, secnonces[j], pubnonces[j], deckeys[j], enckeys, context, j, idx);
      if pad.Ok? then pad.value else 0)
  }

  /** Entry idx of sender j's ciphertexts is entry idx of its messages plus
      its pad for recipient idx. */
  lemma CiphertextColumn(c: Crypto, secnonces: seq<seq<byte>>, pubnonces: seq<seq<byte>>,
                         deckeys: seq<seq<byte>>, enckeys: seq<seq<byte>>,
                         messages: seq<seq<Scalar>>, cts: seq<seq<Scalar>>, context: seq<byte>, idx: nat)
    requires |secnonces| == |pubnonces| == |deckeys| == |messages| == |cts| == |enckeys|
    requires idx < |enckeys|
    requires forall j :: 0 <= j < |enckeys| ==>
               EncryptMulti(c, secnonces[j], pubnonces[j], deckeys[j], enckeys, messages[j], context, j) == Ok(cts[j])
    ensures forall j :: 0 <= j < |enckeys| ==> |cts[j]| == |messages[j]| == |enckeys|
    ensures forall j :: 0 <= j < |enckeys| ==>
              EncapsPad(c, secnonces[j], pubnonces[j], deckeys[j], enckeys, context, j, idx)
              == Ok(SenderPads(c, secnonces, pubnonces, deckeys, enckeys, context, idx)[j])
    ensures forall j :: 0 <= j < |enckeys| ==>
              Column(cts, idx)[j] == Add(Column(messages, idx)[j], SenderPads(c, secnonces, pubnonces, deckeys, enckeys, context, idx)[j])
  {
    forall j | 0 <= j < |enckeys|
      ensures |cts[j]| == |messages[j]| == |enckeys|
      ensures EncapsPad(c, secnonces[j], pubnonces[j], deckeys[j], enckeys, context, j, idx).Ok?
      ensures cts[j][idx] == Add(messages[j][idx], EncapsPad(c, secnonces[j], pubnonces[j], deckeys[j], enckeys, context, j, idx).value)
    {
      assert EncryptMulti(c, secnonces[j], pubnonces[j], deckeys[j], enckeys, messages[j], context, j) == Ok(cts[j]);
    }
  }

  /** The pads recipient idx removes are, sender by sender, the pads the
      senders added. */
  lemma {:induction false} ReceiverPads(c: Crypto, secnonces: seq<seq<byte>>, pubnonces: seq<seq<byte>>,
                                        deckeys: seq<seq<byte>>, enckeys: seq<seq<byte>>, context: seq<byte>,
                                        idx: nat, pads: seq<Scalar>)
    requires EcdhSymmetric(c)
    requires |secnonces| == |pubnonces| == |deckeys| == |enckeys| == |pads|
    requires idx < |enckeys| && enckeys[idx] == c.pubkeyGen(deckeys[idx])
    requires forall j :: 0 <= j < |enckeys| ==> pubnonces[j] == c.pubkeyGen(secnonces[j])
    requires forall j :: 0 <= j < |enckeys| ==>
               EncapsPad(c, secnonces[j], pubnonces[j], deckeys[j], enckeys, context, j, idx) == Ok(pads[j])
    ensures RecipientContext(idx, context).Ok?
    ensures Collect(DecryptPads(c, deckeys[idx], enckeys[idx], pubnonces, RecipientContext(idx, context).value, idx))
            == Ok(pads)
  {
    PadsMatch(c, secnonces[0], deckeys[0], enckeys, context, 0, deckeys[idx], pubnonces, idx);
    var context' := RecipientContext(idx, context).value;
    forall j | 0 <= j < |pubnonces|
      ensures DecryptPad(c, deckeys[idx], enckeys[idx], pubnonces, context', idx, j) == Ok(pads[j])
    {
      PadsMatch(c, secnonces[j], deckeys[j], enckeys, context, j, deckeys[idx], pubnonces, idx);
    }
    var rs := DecryptPads(c, deckeys[idx], enckeys[idx], pubnonces, context', idx);
    CollectOk(rs);
    var decrypted := Collect(rs);
    assert decrypted.Ok?;
    assert decrypted.value == pads;
  }

  /** Round trip of the encryption layer: every sender j encrypts its
      messages with `encrypt_multi`; recipient idx decrypts the sum of the
      ciphertexts addressed to it and obtains the sum of the messages
      addressed to it. */
  lemma DecryptSumOfEncryptions(c: Crypto, secnonces: seq<seq<byte>>, pubnonces: seq<seq<byte>>,
                                deckeys: seq<seq<byte>>, enckeys: seq<seq<byte>>,
                                messages: seq<seq<Scalar>>, cts: seq<seq<Scalar>>,
                                context: seq<byte>, idx: nat)
    requires EcdhSymmetric(c)
    requires |secnonces| == |pubnonces| == |deckeys| == |messages| == |cts| == |enckeys|
    requires idx < |enckeys| && enckeys[idx] == c.pubkeyGen(deckeys[idx])
    requires forall j :: 0 <= j < |enckeys| ==> pubnonces[j] == c.pubkeyGen(secnonces[j])
    requires forall j :: 0 <= j < |enckeys| ==>
               EncryptMulti(c, secnonces[j], pubnonces[j], deckeys[j], enckeys, messages[j], context, j) == Ok(cts[j])
    ensures forall j :: 0 <= j < |enckeys| ==> |cts[j]| == |messages[j]| == |enckeys|
    ensures Decryption(c, deckeys[idx], enckeys[idx], pubnonces, Sum(Column(cts, idx)), context, idx)
            == Ok(Sum(Column(messages, idx)))
  {
    CiphertextColumn(c, secnonces, pubnonces, deckeys, enckeys, messages, cts, context, idx);
    var pads := SenderPads(c, secnonces, pubnonces, deckeys, enckeys, context, idx);
    ReceiverPads(c, secnonces, pubnonces, deckeys, enckeys, context, idx, pads);
    DecryptionOk(c, deckeys[idx], enckeys[idx], pubnonces, Sum(Column(cts, idx)), context, idx, pads);
    SumOfAddsSub(Column(messages, idx), pads, Column(cts, idx));
  }

  /** End to end: when every participant j ran `participant_step1` in one
      session and SimplPedPop gave it the shares shares[j], then decrypting
      the coordinator's sum for recipient idx with the inputs
      `participant_step2` uses (the threshold SimplPedPop's state reports,
      the keys and index of idx's state, the reported pubnonces) yields the
      sum of the shares addressed to idx; and the pubnonce an honest
      coordinator reports for idx passes the tamper check. SimplPedPop's
      state reporting the threshold of step 1 is a hypothesis. */
  lemma {:induction false} ParticipantsRecoverShareSums(c: Crypto, sp: SimplPedPop, seeds: seq<seq<byte>>,
                                                        deckeys: seq<seq<byte>>, enckeys: seq<seq<byte>>, t: nat,
                                                        randoms: seq<seq<byte>>, states: seq<ParticipantState>,
                                                        pmsgs: seq<ParticipantMsg>, shares: seq<seq<Scalar>>, idx: nat)
    requires EcdhSymmetric(c)
    requires |seeds| == |deckeys| == |randoms| == |states| == |pmsgs| == |shares| == |enckeys|
    requires idx < |enckeys| && enckeys[idx] == c.pubkeyGen(deckeys[idx])
    requires forall j :: 0 <= j < |enckeys| ==>
               ParticipantStep1(c, sp, seeds[j], deckeys[j], enckeys, t, j, randoms[j]) == Ok((states[j], pmsgs[j]))
    requires t < TwoTo32 && sp.threshold(states[idx].simplState) == t
    requires forall j :: 0 <= j < |enckeys| ==>
               sp.participantStep1(DeriveSimplSeed(c, seeds[j], pmsgs[j].pubnonce, SerializeEncContext(t, enckeys).value),
                                   t, |enckeys|, j).Ok?
               && sp.participantStep1(DeriveSimplSeed(c, seeds[j], pmsgs[j].pubnonce, SerializeEncContext(t, enckeys).value),
                                      t, |enckeys|, j).value.2 == shares[j]
    ensures states[idx].enckeys == enckeys && states[idx].idx == idx
    ensures Pubnonces(pmsgs)[states[idx].idx] == states[idx].pubnonce
    ensures forall j :: 0 <= j < |enckeys| ==> |pmsgs[j].encShares| == |shares[j]| == |enckeys|
    ensures SerializeEncContext(sp.threshold(states[idx].simplState), states[idx].enckeys).Ok?
    ensures Decryption(c, deckeys[idx], states[idx].enckeys[states[idx].idx], Pubnonces(pmsgs),
                       Sum(Column(EncShares(pmsgs), idx)),
                       SerializeEncContext(sp.threshold(states[idx].simplState), states[idx].enckeys).value,
                       states[idx].idx)
            == Ok(Sum(Column(shares, idx)))
  {
    var n := |enckeys|;
    var encContext := SerializeEncContext(t, enckeys).value;
    var secnonces := seq(n, j requires 0 <= j < n => SecNonce(c, seeds[j], randoms[j], encContext));
    forall j | 0 <= j < n
      ensures Pubnonces(pmsgs)[j] == c.pubkeyGen(secnonces[j])
      ensures EncryptMulti(c, secnonces[j], Pubnonces(pmsgs)[j], deckeys[j], enckeys, shares[j], encContext, j)
              == Ok(EncShares(pmsgs)[j])
    {
      assert ParticipantStep1(c, sp, seeds[j], deckeys[j], enckeys, t, j, randoms[j]) == Ok((states[j], pmsgs[j]));
    }
    assert ParticipantStep1(c, sp, seeds[idx], deckeys[idx], enckeys, t, idx, randoms[idx]) == Ok((states[idx], pmsgs[idx]));
    DecryptSumOfEncryptions(c, secnonces, Pubnonces(pmsgs), deckeys, enckeys, shares, EncShares(pmsgs), encContext, idx);
  }

  /** A participant's transcript agrees with the coordinator's exactly when
      the SimplPedPop transcripts agree, given the same encryption keys and
      pubnonces. */
  lemma TranscriptsAgree(eqInput: seq<byte>, eqInput': seq<byte>, enckeys: seq<seq<byte>>, pubnonces: seq<seq<byte>>)
    ensures ExtendTranscript(eqInput, enckeys, pubnonces) == ExtendTranscript(eqInput', enckeys, pubnonces)
            <==> eqInput == eqInput'
  {
    var tail := Join(enckeys) + Join(pubnonces);
    if ExtendTranscript(eqInput, enckeys, pubnonces) == ExtendTranscript(eqInput', enckeys, pubnonces) {
      assert |eqInput| == |eqInput'|;
      assert eqInput == (eqInput + tail)[..|eqInput|];
      assert eqInput' == (eqInput' + tail)[..|eqInput'|];
    }
  }

  /** The extension binds the session into the transcript that is compared
      out of band: for keys of one width and pubnonces of one width, in
      lists of the same lengths, equal extended transcripts come from equal
      SimplPedPop transcripts, equal key lists and equal pubnonce lists. So
      a coordinator that hands two participants different keys or pubnonces
      makes their transcripts differ. */
  lemma TranscriptBinding(eqInput: seq<byte>, enckeys: seq<seq<byte>>, pubnonces: seq<seq<byte>>,
                          eqInput': seq<byte>, enckeys': seq<seq<byte>>, pubnonces': seq<seq<byte>>,
                          wk: nat, wp: nat)
    requires wk > 0 && FixedWidth(enckeys, wk) && FixedWidth(enckeys', wk) && |enckeys| == |enckeys'|
    requires wp > 0 && FixedWidth(pubnonces, wp) && FixedWidth(pubnonces', wp) && |pubnonces| == |pubnonces'|
    ensures ExtendTranscript(eqInput, enckeys, pubnonces) == ExtendTranscript(eqInput', enckeys', pubnonces')
            ==> eqInput == eqInput' && enckeys == enckeys' && pubnonces == pubnonces'
  {
    if ExtendTranscript(eqInput, enckeys, pubnonces) == ExtendTranscript(eqInput', enckeys', pubnonces') {
      var tr := ExtendTranscript(eqInput, enckeys, pubnonces);
      FixedWidthLength(enckeys, wk);
      FixedWidthLength(enckeys', wk);
      FixedWidthLength(pubnonces, wp);
      FixedWidthLength(pubnonces', wp);
      var e, k := |eqInput|, |enckeys| * wk;
      assert |eqInput'| == e;
      assert tr[..e] == eqInput && tr[..e] == eqInput';
      assert tr[e..e + k] == Join(enckeys) && tr[e..e + k] == Join(enckeys');
      assert tr[e + k..] == Join(pubnonces) && tr[e + k..] == Join(pubnonces');
      JoinInjective(enckeys, enckeys', wk);
      JoinInjective(pubnonces, pubnonces', wp);
    }
  }
}
