/** Byte strings: the 4-byte big-endian integer encoding, `int_from_bytes`,
    `b"".join`, and the session context layout be4(t) ‖ join(enckeys) that
    both EncPedPop variants build. */
module Bytes {
  import opened Wrappers

  newtype byte = x: int | 0 <= x < 256

  const TwoTo32: nat := 0x1_0000_0000

  /** 256 to the power w: the number of values that fit in w bytes. */
  function Pow256(w: nat): nat {
    if w == 0 then 1 else 256 * Pow256(w - 1)
  }

  /** `int_from_bytes`: the big-endian value of a byte string, which fits in
      as many bytes as the string has. */
  function IntFromBytes(b: seq<byte>): (x: nat)
    ensures x < Pow256(|b|)
  {
    if b == [] then 0 else IntFromBytes(b[..|b| - 1]) * 256 + b[|b| - 1] as nat
  }

  /** `x.to_bytes(w, byteorder="big")` of a value that fits: w bytes, most
      significant first. */
  function BigEndian(x: nat, w: nat): (b: seq<byte>)
    requires x < Pow256(w)
    ensures |b| == w && IntFromBytes(b) == x
  {
    if w == 0 then []
    else
      var b := BigEndian(x / 256, w - 1) + [(x % 256) as byte];
      assert b[..|b| - 1] == BigEndian(x / 256, w - 1);
      b
  }

  /** Decoding and re-encoding at the same width gives the bytes back, so
      `int_from_bytes` loses nothing at a fixed width. */
  lemma {:induction false} BigEndianOfIntFromBytes(b: seq<byte>)
    ensures BigEndian(IntFromBytes(b), |b|) == b
  {
    if b != [] {
      var init := b[..|b| - 1];
      var x := IntFromBytes(b);
      assert x / 256 == IntFromBytes(init) && x % 256 == b[|b| - 1] as int;
      BigEndianOfIntFromBytes(init);
      assert b == init + [b[|b| - 1]];
    }
  }

  /** `x.to_bytes(4, byteorder="big")`, which raises OverflowError when x
      does not fit in 4 bytes. */
  function ToBytes4(x: nat): (r: Result<seq<byte>>)
    ensures r.Ok? <==> x < TwoTo32
    ensures r.Ok? ==> |r.value| == 4 && IntFromBytes(r.value) == x
    ensures r.Err? ==> r.error == OverflowError
  {
    assert Pow256(4) == TwoTo32;
    if x < TwoTo32 then Ok(BigEndian(x, 4)) else Err(OverflowError)
  }

  /** The sum of the lengths of the strings. */
  function TotalLength(ks: seq<seq<byte>>): nat {
    if ks == [] then 0 else TotalLength(ks[..|ks| - 1]) + |ks[|ks| - 1]|
  }

  /** `b"".join(ks)`: the strings concatenated in order. */
  function Join(ks: seq<seq<byte>>): (r: seq<byte>)
    ensures |r| == TotalLength(ks)
  {
    if ks == [] then [] else Join(ks[..|ks| - 1]) + ks[|ks| - 1]
  }

  /** Every string in the list has length w. */
  predicate FixedWidth(ks: seq<seq<byte>>, w: nat) {
    forall i :: 0 <= i < |ks| ==> |ks[i]| == w
  }

  lemma {:induction false} FixedWidthLength(ks: seq<seq<byte>>, w: nat)
    requires FixedWidth(ks, w)
    ensures TotalLength(ks) == |ks| * w
  {
    if ks != [] {
      FixedWidthLength(ks[..|ks| - 1], w);
    }
  }

  lemma MulCancel(a: nat, b: nat, w: nat)
    requires w > 0 && a * w == b * w
    ensures a == b
  {
  }

  /** Joining strings of a fixed positive width loses nothing: equal joins
      come from equal lists. */
  lemma {:induction false} JoinInjective(ks: seq<seq<byte>>, ks': seq<seq<byte>>, w: nat)
    requires w > 0 && FixedWidth(ks, w) && FixedWidth(ks', w)
    requires Join(ks) == Join(ks')
    ensures ks == ks'
  {
    FixedWidthLength(ks, w);
    FixedWidthLength(ks', w);
    MulCancel(|ks|, |ks'|, w);
    if ks != [] {
      var n := |ks|;
      var init, init' := ks[..n - 1], ks'[..n - 1];
      FixedWidthLength(init, w);
      FixedWidthLength(init', w);
      assert Join(ks) == Join(init) + ks[n - 1];
      assert Join(ks') == Join(init') + ks'[n - 1];
      assert |Join(init)| == |Join(init')| == (n - 1) * w;
      assert Join(init) == Join(ks)[..(n - 1) * w] == Join(init');
      assert ks[n - 1] == Join(ks)[(n - 1) * w..] == ks'[n - 1];
      JoinInjective(init, init', w);
      assert ks == init + [ks[n - 1]];
      assert ks' == init' + [ks'[n - 1]];
    }
  }

  /** `serialize_enc_context`: be4(t) followed by every encryption key in
      order; OverflowError when t does not fit in 4 bytes. The older variant
      builds the same bytes inline. */
  function SerializeEncContext(t: nat, enckeys: seq<seq<byte>>): (r: Result<seq<byte>>)
    ensures r.Ok? <==> t < TwoTo32
    ensures r.Err? ==> r.error == OverflowError
    ensures r.Ok? ==> |r.value| == 4 + TotalLength(enckeys) && IntFromBytes(r.value[..4]) == t
                      && r.value[4..] == Join(enckeys)
  {
    var prefix :- ToBytes4(t);
    assert (prefix + Join(enckeys))[..4] == prefix;
    Ok(prefix + Join(enckeys))
  }

  /** The session context binds the threshold and the whole list of
      fixed-size encryption keys: equal contexts come from equal inputs. */
  lemma {:induction false} EncContextBinding(t: nat, enckeys: seq<seq<byte>>, t': nat, enckeys': seq<seq<byte>>, width: nat)
    requires width > 0 && FixedWidth(enckeys, width) && FixedWidth(enckeys', width)
    requires SerializeEncContext(t, enckeys).Ok?
    requires SerializeEncContext(t, enckeys) == SerializeEncContext(t', enckeys')
    ensures t == t' && enckeys == enckeys'
  {
    var ctx := SerializeEncContext(t, enckeys).value;
    assert IntFromBytes(ctx[..4]) == t && IntFromBytes(ctx[..4]) == t';
    JoinInjective(enckeys, enckeys', width);
  }

  /** Sessions that differ in the threshold or in the key list, for keys
      of one fixed positive width and thresholds below 2^32: both contexts
      serialize and they are not the same session. */
  predicate DistinctSessions(t: nat, enckeys: seq<seq<byte>>, t': nat, enckeys': seq<seq<byte>>, width: nat) {
    width > 0 && FixedWidth(enckeys, width) && FixedWidth(enckeys', width)
    && t < TwoTo32 && t' < TwoTo32 && (t != t' || enckeys != enckeys')
  }

  /** Distinct sessions have distinct contexts. */
  lemma EncContextsDiffer(t: nat, enckeys: seq<seq<byte>>, t': nat, enckeys': seq<seq<byte>>, width: nat)
    requires DistinctSessions(t, enckeys, t', enckeys', width)
    ensures SerializeEncContext(t, enckeys).value != SerializeEncContext(t', enckeys').value
  {
    if SerializeEncContext(t, enckeys).value == SerializeEncContext(t', enckeys').value {
      EncContextBinding(t, enckeys, t', enckeys', width);
    }
  }
}
