# EncPedPop encryption layer in Dafny

EncPedPop is the layer of the ChillDKG distributed key generation protocol
that carries the secret shares of the secret-sharing core SimplPedPop
encrypted through an untrusted coordinator. Each sender masks the share it
sends to participant i with a pad, which is a scalar modulo the secp256k1
group order. The coordinator adds up, for every recipient, the ciphertexts
addressed to it. The recipient recomputes every sender's pad for its own
index and subtracts them, which leaves the sum of the plaintext shares
addressed to it.

The project models two variants, each in its own module:

- `EncPedPop` (`encpedpop.dfy`) models `python/chilldkg_ref/encpedpop.py`, the
  nonce-based variant. It covers:
  - the "Hashed ElGamal" multi-recipient KEM (`ecdh`, `self_pad`,
    `encaps_multi`), where each pad is bound to the recipient index by a
    4-byte big-endian prefix on the context;
  - additive masking (`encrypt_multi`) and its inverse (`decrypt_sum`);
  - the session context layout;
  - the participant's two steps: step 1 derives the nonce, step 2 checks
    the pubnonce for tampering and extends the transcript;
  - the coordinator's aggregation.
- `EncPedPopCorrectness` (`encpedpop_correctness.dfy`) proves the round trip
  of the nonce-based variant across all participants.
- `RefEncPedPop` (`refencpedpop.dfy`) models `reference/encpedpop.py`, the
  older variant:
  - there is one ECDH pad per pair of signers;
  - each signer keeps its own share and sends a zero in its place;
  - after decryption, the signer adds its own share back.
- `Scalars`, `Bytes` and `Wrappers` hold the shared pieces:
  - scalars modulo the group order;
  - `int_from_bytes`, `to_bytes(4, "big")` and `b"".join`;
  - the session context be4(t) ‖ join(enckeys), which both variants build;
  - the `Result` type, which stands for Python's exceptions (`ValueError`,
    `IndexError`, `OverflowError`, a failed `assert`, and
    `InvalidContributionError(index or None, reason)`).

The primitives the code calls but does not define are fields of function
type in a `Crypto` record and are passed as parameters. These are:

- raw ECDH, where `None` stands for the `ValueError` of an invalid key;
- `tagged_hash_bip_dkg`;
- `prf`;
- `pubkey_gen_plain`.

SimplPedPop is a record of functions over abstract types in the same way.
Its only modelled property is the length of the share vector, and the code
checks that length itself.

Diffie-Hellman agreement cannot be proved without the curve, so it is a
hypothesis:

- nonce-based variant: `EcdhSymmetric(c)` states that
  `ecdh(a, pubkey_gen(b)) == ecdh(b, pubkey_gen(a))`;
- reference variant: `KeysAgree` states that the session's key pairs agree
  pairwise.

Only the round-trip lemmas and their helpers assume it:

- `PadsMatch`, `ReceiverPads`, `DecryptSumOfEncryptions` and
  `ParticipantsRecoverShareSums` assume `EcdhSymmetric`;
- `PadsSymmetric`, `RemovedPads` and `SharesSumRoundTrip` assume `KeysAgree`.

## Model

| member | source | states |
|---|---|---|
| Wrappers.CollectOk | python/chilldkg_ref/encpedpop.py:54-68 | A loop that appends one computed value per participant and lets the first exception escape succeeds exactly when every computation does, and then returns their values in order. The same shape is the loops at python/chilldkg_ref/encpedpop.py:98-109, reference/encpedpop.py:36-40 and reference/encpedpop.py:85-96. |
| Wrappers.CollectErr | python/chilldkg_ref/encpedpop.py:54-68 | A failed loop has a first failing computation, and its error is the result. |
| Wrappers.CollectFirstError | python/chilldkg_ref/encpedpop.py:54-68 | In such a loop, the first failing computation decides the error. |
| Wrappers.CollectAbort | python/chilldkg_ref/encpedpop.py:54-68 | A computation that fails after a successful prefix is the error of the whole loop. |
| Wrappers.CollectStep | python/chilldkg_ref/encpedpop.py:54-68 | A successful computation appends its value to the result of the prefix. |
| EncPedPop.EcdhPad | python/chilldkg_ref/encpedpop.py:17-28 | The ECDH pad succeeds exactly when raw ECDH succeeds and the shared secret plus both public keys make 98 bytes. A failed raw ECDH gives ValueError; a wrong length gives the failed assertion. |
| EncPedPop.Ecdh | python/chilldkg_ref/encpedpop.py:17-28 | Growing `data` step by step (shared secret, then the keys in an order set by `sending`, then the context) yields the pad above, and on success the prefix before the context is exactly 2·33+32 bytes. |
| EncPedPop.EcdhPrefixOrder | python/chilldkg_ref/encpedpop.py:22-25 | A sender (own key A, peer B) and a receiver (own key B, peer A) build byte-identical hash input. |
| EncPedPop.EcdhPadsAgree | python/chilldkg_ref/encpedpop.py:17-28 | When both sides get the same raw shared secret, the sending pad equals the receiving pad for every context. |
| EncPedPop.RecipientContext | python/chilldkg_ref/encpedpop.py:55 | The per-recipient context is 4 bytes that decode to i, followed by the unchanged context. OverflowError exactly when i does not fit in 4 bytes. |
| EncPedPop.EncapsMulti | python/chilldkg_ref/encpedpop.py:39-69 | The loop computes the pads recipient by recipient, and the first failing pad's error escapes. On success it returns exactly `len(enckeys)` pads. Pad i is computed over `be4(i) ‖ context`. It is `self_pad` exactly when i == idx, and otherwise the sending ECDH pad with `enckeys[i]`. |
| EncPedPop.EncryptMulti | python/chilldkg_ref/encpedpop.py:72-83 | Encryption succeeds exactly when there are as many messages as keys and every pad succeeds. Then ciphertext i = message i + pad i. A pad error propagates, and otherwise a length mismatch is ValueError (`zip(strict=True)`). |
| EncPedPop.Decryption | python/chilldkg_ref/encpedpop.py:86-110 | Decryption gives IndexError when idx ≥ `len(pubnonces)`. It gives OverflowError when idx does not fit in 4 bytes. Otherwise it succeeds exactly when every removed pad does, with the first failing pad's error. On success, the result is the aggregate minus the sum of all pads for context `be4(idx) ‖ context`. |
| EncPedPop.DecryptSum | python/chilldkg_ref/encpedpop.py:86-110 | The accumulator loop computes exactly that value, and raises IndexError first when idx is out of range. Pad i is the self pad at i == idx and the receiving ECDH pad with `pubnonces[i]` elsewhere, and the first failing pad's error escapes. |
| Bytes.SerializeEncContext | python/chilldkg_ref/encpedpop.py:141-144 | The context is 4 bytes that decode to t, followed by the join of the keys. Its length is 4 + Σ len(enckeys[i]). OverflowError exactly when t ≥ 2^32. |
| Bytes.EncContextBinding | python/chilldkg_ref/encpedpop.py:141-144 | For keys of one fixed width, equal session contexts come from equal t and equal key lists. |
| Bytes.EncContextsDiffer | reference/encpedpop.py:80 | Take keys on both sides of one fixed positive width, and thresholds t, t' below 2^32 (`Bytes.DistinctSessions`). Then sessions that differ in t or in the key list have different contexts. The older variant builds the same bytes inline. |
| EncPedPop.SimplSeedBindsSession | python/chilldkg_ref/encpedpop.py:147-148 | Take pubnonces of one length, keys of one fixed positive width, and thresholds t, t' below 2^32. Then two inputs `pubnonce ‖ ctx` of `derive_simpl_seed` (`DeriveSimplSeed`) are equal only for the same pubnonce, t and keys. |
| EncPedPop.RecipientContextInjective | python/chilldkg_ref/encpedpop.py:55 | A per-recipient context `be4(i) ‖ context` determines both i and the context. |
| EncPedPop.NonceAndPadsBindSession | python/chilldkg_ref/encpedpop.py:163-165 | Take randomness of one length, keys on both sides of one fixed positive width, and thresholds t, t' below 2^32 (`Bytes.DistinctSessions`). Then sessions that differ in t or in the key list give the nonce's PRF (`SecNonce`) distinct inputs `random ‖ ctx`. They also give every recipient index distinct pad contexts `be4(i) ‖ ctx` (line 55), for the self pad and for ECDH alike. |
| EncPedPop.SelfPadsAgree | python/chilldkg_ref/encpedpop.py:31-36 | `self_pad` is the PRF of the decryption key under tag "encaps_multi self_pad" over `be4(idx) ‖ context`. The pad a participant adds to its own share is the pad it removes, with no ECDH and whatever the nonce and keys. |
| EncPedPop.ParticipantStep1 | python/chilldkg_ref/encpedpop.py:151-185 | Step 1 fails the assertion unless t < 2^32 and `len(random)` == 32. An error from SimplPedPop or from encryption propagates, and a share vector of the wrong length fails the assertion. On success: the pubnonce in the message and in the state is `pubkey_gen(secnonce)`; the state records enckeys and idx; there are n encrypted shares, and they are `encrypt_multi` of SimplPedPop's shares. |
| EncPedPop.ParticipantStep2 | python/chilldkg_ref/encpedpop.py:188-209 | Step 2 gives IndexError when idx is past the pubnonces. A wrong reported pubnonce gives `InvalidContribution(None, …)`. Otherwise it gives the decrypted share to SimplPedPop, and the result carries SimplPedPop's transcript followed by `join(enckeys) ‖ join(pubnonces)`. Every error propagates. |
| EncPedPop.CoordinatorStep | python/chilldkg_ref/encpedpop.py:217-252 | A message count different from n is ValueError, and a SimplPedPop error propagates. The first participant whose `enc_shares` length is not n is blamed with `InvalidContribution(i, …)`. Success happens exactly when none of these occurs. The result holds the pubnonces in message order and the transcript `eq ‖ join(enckeys) ‖ join(pubnonces)`. Aggregate i is Σ_p `pmsgs[p].enc_shares[i]`, for n aggregates. |
| EncPedPopCorrectness.PadsMatch | python/chilldkg_ref/encpedpop.py:54-108 | Under ECDH agreement, sender j's pad for recipient idx equals the pad recipient idx removes for sender j, including the self pad when j == idx. |
| EncPedPopCorrectness.CiphertextColumn | python/chilldkg_ref/encpedpop.py:81-82 | Entry idx of each sender's ciphertexts is entry idx of its messages plus its pad for idx. |
| EncPedPopCorrectness.ReceiverPads | python/chilldkg_ref/encpedpop.py:96-109 | Under ECDH agreement, the pads recipient idx removes are, sender by sender, the pads the senders added. |
| EncPedPopCorrectness.DecryptSumOfEncryptions | python/chilldkg_ref/encpedpop.py:72-110 | Round trip: `decrypt_sum` of Σ_senders `encrypt_multi(...)[idx]` is Σ_senders `messages_sender[idx]`. |
| EncPedPopCorrectness.ParticipantsRecoverShareSums | python/chilldkg_ref/encpedpop.py:151-204 | End to end: after every participant's step 1 and the coordinator's sum, decrypting with step 2's own inputs yields the sum of the SimplPedPop shares addressed to idx. Those inputs are the context from `simpl_state.t`, `enckeys[idx]` and idx of the state, and the reported pubnonces. This holds under the hypothesis that SimplPedPop's state reports the t of step 1. The pubnonce an honest coordinator reports passes the tamper check. |
| EncPedPopCorrectness.TranscriptsAgree | python/chilldkg_ref/encpedpop.py:208 | A participant's extended transcript equals the coordinator's exactly when SimplPedPop's transcripts are equal, for the same keys and pubnonces. |
| EncPedPopCorrectness.TranscriptBinding | python/chilldkg_ref/encpedpop.py:208 | The keys and pubnonces appended to the transcript are bound into it. For keys of one positive width and pubnonces of one positive width, in lists of equal lengths, equal extended transcripts come from equal SimplPedPop transcripts, equal key lists and equal pubnonce lists. |
| Bytes.IntFromBytes | python/chilldkg_ref/encpedpop.py:28 | The big-endian value of a byte string fits in as many bytes as the string has. |
| Bytes.BigEndian | python/chilldkg_ref/encpedpop.py:144 | Encoding a value that fits in w bytes gives w bytes that `int_from_bytes` decodes back to the value. |
| Bytes.BigEndianOfIntFromBytes | python/chilldkg_ref/encpedpop.py:28 | Decoding, then encoding at the same width, gives the bytes back. |
| Bytes.ToBytes4 | python/chilldkg_ref/encpedpop.py:144 | `to_bytes(4, "big")` succeeds exactly below 2^32, with four bytes that decode back to the value; otherwise OverflowError. |
| Bytes.Join | python/chilldkg_ref/encpedpop.py:144 | The join's length is the sum of the lengths. |
| Bytes.JoinInjective | python/chilldkg_ref/encpedpop.py:144 | Joining strings of one positive width loses nothing: equal joins come from equal lists. |
| Scalars.FromInt | python/chilldkg_ref/encpedpop.py:32-36 | `Scalar(x)` is the scalar congruent to x modulo the group order. |
| Scalars.Sum | python/chilldkg_ref/encpedpop.py:235 | `Scalar.sum`, adding one scalar at a time from zero, is the integer sum reduced modulo the group order. |
| Scalars.Add | python/chilldkg_ref/encpedpop.py:82 | Scalar addition is addition modulo the group order. |
| Scalars.Sub | python/chilldkg_ref/encpedpop.py:109 | Scalar subtraction is subtraction modulo the group order. |
| Scalars.SubAdd | python/chilldkg_ref/encpedpop.py:109 | Subtracting the pad that was added recovers the message. |
| Scalars.SumOfAdds | python/chilldkg_ref/encpedpop.py:234-236 | The sum of masked values is the sum of the values plus the sum of the masks (homomorphic aggregation). |
| Scalars.SumOfAddsSub | python/chilldkg_ref/encpedpop.py:234-236 | Removing the summed masks from the summed ciphertexts leaves the summed plaintexts. |
| Scalars.SumZeroAt | reference/encpedpop.py:87-97 | A zero placeholder at idx contributes nothing: adding the real entry back gives the full sum. |
| RefEncPedPop.Ecdh | reference/encpedpop.py:16-22 | The pair pad succeeds exactly when raw ECDH does and fails only with ValueError. |
| RefEncPedPop.PadsSymmetric | reference/encpedpop.py:16-22 | For agreeing key pairs, both ends of a pair compute the same pad. |
| RefEncPedPop.Encrypt | reference/encpedpop.py:25-26 | Encryption fails exactly when the pad does, only with ValueError. Removing the pad from the ciphertext gives the share back. |
| RefEncPedPop.PeerPad | reference/encpedpop.py:37-39 | Nothing is removed for the signer's own index, and a pad is removed for every other index. |
| RefEncPedPop.Decryption | reference/encpedpop.py:29-40 | Decryption succeeds exactly when every other signer's key gives a pad, and fails only with ValueError. On success the removed pads are 0 at idx and the pair pad elsewhere, and adding them back to the result gives the ciphertext sum. |
| RefEncPedPop.DecryptSum | reference/encpedpop.py:29-40 | The loop computes the ciphertext sum minus Σ_{i≠idx} pad_i, and the first failing pad's ValueError escapes. idx is never checked. |
| RefEncPedPop.SeedBindsSession | reference/encpedpop.py:78-81 | Take seeds of one length, keys on both sides of one fixed positive width, and thresholds t, t' below 2^32 (`Bytes.DistinctSessions`). Then sessions that differ in t or in the key list give `tagged_hash("EncPedPop seed", ·)` (`SeedFor`) distinct inputs `seed ‖ ctx`. |
| RefEncPedPop.EncShare | reference/encpedpop.py:86-96 | Entry i is `Scalar(0)` at idx and `encrypt(shares[i], …)` elsewhere, and on success it decrypts to `shares[i]`. Any failure is `InvalidContribution(i, "Participant sent invalid encryption key")`. |
| RefEncPedPop.EncSharesFirstError | reference/encpedpop.py:91-96 | The first invalid key of another signer blames that key's index for the whole round. |
| RefEncPedPop.EncryptShares | reference/encpedpop.py:85-96 | The loop computes the entries signer by signer, `Scalar(0)` at idx, and the first failing entry's blame escapes. |
| RefEncPedPop.SignerRound1 | reference/encpedpop.py:72-100 | Round 1 fails the assertion when t ≥ 2^32. The SimplPedPop seed is `tagged_hash("EncPedPop seed", seed ‖ be4(t) ‖ join(enckeys))`, with n overwritten by `len(enckeys)`. A SimplPedPop error propagates, and a share vector of the wrong length fails the assertion. Encryption failures are blamed as above. `shares[idx]` gives IndexError when idx ≥ n. Otherwise the state keeps t, the keys, idx and `shares[idx]`, and the message carries the encrypted shares. |
| RefEncPedPop.SignerPreFinalize | reference/encpedpop.py:103-117 | The context is recomputed from the stored t, which gives OverflowError when t ≥ 2^32. The step decrypts, adds the kept share and gives that sum to SimplPedPop. `eta` is extended by `join(enckeys)`. Every error propagates. |
| RefEncPedPop.EncryptedColumn | reference/encpedpop.py:85-92 | Entry idx of signer j's message is `shares_j[idx]` plus the pad of the pair (j, idx), or 0 when j == idx. |
| RefEncPedPop.RemovedPads | reference/encpedpop.py:36-39 | For agreeing key pairs, the pads signer idx removes are the pads the other signers added. |
| RefEncPedPop.ColumnSplit | reference/encpedpop.py:85-92 | The column of entries idx splits into the kept shares (0 at idx) plus the pair pads. |
| RefEncPedPop.SharesSumRoundTrip | reference/encpedpop.py:85-112 | Round trip: for agreeing key pairs, decrypting Σ_j `enc_shares_j[idx]` and adding `self_share` gives Σ_j `shares_j[idx]`. |

## Left out

- The secp256k1 arithmetic is not modelled: point decoding, `ecdh_libsecp256k1`, `ecdh_raw` and `pubkey_gen_plain` are uninterpreted functions. ECDH agreement is a hypothesis of the round-trip lemmas, because it cannot be derived without the curve.
- `tagged_hash_bip_dkg` and `prf` are uninterpreted functions. So `self_pad` and the nonce and seed derivations are deterministic by construction. So the model cannot say that a different context yields a different pad or seed. It proves only that the hash inputs differ (`EncContextsDiffer`, `NonceAndPadsBindSession`, `SimplSeedBindsSession`, `SeedBindsSession`).
- `pubkey_gen_plain` is modelled as total. The source's error for an invalid secret nonce (zero, or not below the group order) is not modelled.
- SimplPedPop is not part of this model. Its steps are uninterpreted functions over abstract records, and `state.t` is the `threshold` field. Nothing ties that field to the t of step 1, so `ParticipantsRecoverShareSums` takes it as a hypothesis. Only the length check on its shares is modelled, and the code makes that check itself.
- Where `random` comes from, and how `enc_secshares[i]` reaches participant i, are outside these files.
- The security properties are cryptographic arguments, not functional behaviour: IND-CPA of the KEM, secrecy against the coordinator, and what goes wrong on nonce reuse.
- Indices and the threshold are natural numbers. Python's negative indices (`pubnonces[-1]`, and `shares[idx]` with a negative idx) are not modelled. Neither is a negative `t`, which passes `assert t < 2**32` and then raises OverflowError in `to_bytes`.
- There is no concurrency in these files.
- The nonce tag is spelled `"encpodpop secnonce"` in the source, and the model keeps that spelling.
- The nonce-based `encaps_multi` does not catch the `ValueError` that an invalid `enckeys[i]` causes, so it reaches the caller as a plain `ValueError`. The model follows the code, not the rule that such keys are blamed on their owner. Only the reference variant blames them, as `InvalidContribution(i, …)`.
- Neither variant checks that `enckeys[idx]` is the caller's own key, and the model does not check it.
- RefEncPedPop.DecryptSum: like the source, it checks no bound on idx. An idx outside the signers removes every pad.
