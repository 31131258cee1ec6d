/** The change reports a peripheral sends on a get-changes request: the
    firmware's packed little-endian structs (`KnobChanges`, `SliderChanges`)
    and the host's `struct.unpack` of them. */
module Reports {
  import opened Common

  /** A C `int8_t`. */
  type int8 = x: int | -128 <= x < 128

  /** A C `uint16_t`. */
  type u16 = x: int | 0 <= x < 0x1_0000

  /** The byte holding an `int8_t` in two's complement. */
  function Int8Byte(v: int8): (b: byte)
    ensures b % 256 == v % 256
  {
    if v >= 0 then v else v + 256
  }

  /** The `int8_t` a byte holds (`struct` format `b`). */
  function Int8(b: byte): (v: int8)
    ensures v % 256 == b
    ensures v < 0 <==> b >= 128
  {
    if b < 128 then b else b - 256
  }

  /** Two's complement is a bijection between bytes and `int8_t`. */
  lemma Int8Bijection(b: byte, v: int8)
    ensures Int8(Int8Byte(v)) == v
    ensures Int8Byte(Int8(b)) == b
  {
  }

  // ---------------------------------------------------------------------
  // Knob report

  /** `struct KnobChanges`: per-encoder accumulated rotation, and the
      pressed and released flags. */
  datatype KnobChanges = KnobChanges(delta: seq<int8>, pressed: seq<byte>, released: seq<byte>)

  /** All three arrays have `n` entries. */
  predicate KnobShaped(c: KnobChanges, n: nat) {
    |c.delta| == n && |c.pressed| == n && |c.released| == n
  }

  /** The struct's memory image: the deltas, then the pressed flags, then
      the released flags, one byte each. */
  function EncodeKnob(c: KnobChanges): (buf: seq<byte>)
    ensures |buf| == |c.delta| + |c.pressed| + |c.released|
    ensures forall i :: 0 <= i < |c.delta| ==> Int8(buf[i]) == c.delta[i]
    ensures buf[|c.delta|..] == c.pressed + c.released
  {
    seq(|c.delta|, i requires 0 <= i < |c.delta| => Int8Byte(c.delta[i])) + c.pressed + c.released
  }

  /** `get_encoder_values`: unpacks `<{n}b{n}B{n}B`. `None` models the
      `struct.error` raised when the buffer is not exactly `3n` bytes. */
  function DecodeKnob(buf: seq<byte>, n: nat): (r: Option<KnobChanges>)
    ensures r.Some? <==> |buf| == 3 * n
    ensures r.Some? ==> KnobShaped(r.value, n)
  {
    if |buf| != 3 * n then None
    else Some(KnobChanges(
      seq(n, i requires 0 <= i < n => Int8(buf[i])),
      buf[n..2 * n],
      buf[2 * n..]))
  }

  /** The host reads back exactly the struct the firmware wrote. */
  lemma KnobRoundTrip(c: KnobChanges, n: nat)
    requires KnobShaped(c, n)
    ensures DecodeKnob(EncodeKnob(c), n) == Some(c)
  {
    var buf := EncodeKnob(c);
    var d := DecodeKnob(buf, n).value;
    assert d.delta == c.delta;
    assert buf[n..] == c.pressed + c.released;
    assert buf[n..2 * n] == (c.pressed + c.released)[..n];
    assert buf[2 * n..] == (c.pressed + c.released)[n..];
  }

  /** Every buffer of the right length is the image of the struct decoded
      from it, so decoding loses nothing. */
  lemma KnobDecodeEncode(buf: seq<byte>, n: nat)
    requires |buf| == 3 * n
    ensures EncodeKnob(DecodeKnob(buf, n).value) == buf
  {
    var c := DecodeKnob(buf, n).value;
    var e := EncodeKnob(c);
    forall i | 0 <= i < |buf|
      ensures e[i] == buf[i]
    {
      if i < n {
        Int8Bijection(buf[i], c.delta[i]);
      } else {
        assert e[i] == e[n..][i - n];
      }
    }
  }

  // ---------------------------------------------------------------------
  // Slider report

  /** `struct SliderChanges`: per-slider level and changed flag. */
  datatype SliderChanges = SliderChanges(value: seq<u16>, changed: seq<byte>)

  /** Both arrays have `n` entries. */
  predicate SliderShaped(c: SliderChanges, n: nat) {
    |c.value| == n && |c.changed| == n
  }

  /** A little-endian `uint16_t` from its low and high bytes. */
  function U16Le(lo: byte, hi: byte): u16 {
    lo as int + 256 * (hi as int)
  }

  /** The low and high bytes of a `uint16_t`. */
  function Lo(v: u16): byte { v % 256 }
  function Hi(v: u16): byte { v / 256 }

  /** Splitting a `uint16_t` into bytes and joining them are inverse. */
  lemma SplitJoin(v: u16, lo: byte, hi: byte)
    ensures U16Le(Lo(v), Hi(v)) == v
    ensures Lo(U16Le(lo, hi)) == lo && Hi(U16Le(lo, hi)) == hi
  {
  }

  /** The levels as consecutive little-endian byte pairs. */
  function LeBytes(vs: seq<u16>): (r: seq<byte>)
    ensures |r| == 2 * |vs|
    ensures forall i :: 0 <= i < |vs| ==> r[2 * i] == Lo(vs[i]) && r[2 * i + 1] == Hi(vs[i])
  {
    if vs == [] then []
    else
      var rest := LeBytes(vs[1..]);
      PrependPair(vs[0], vs[1..], rest);
      assert vs == [vs[0]] + vs[1..];
      [Lo(vs[0]), Hi(vs[0])] + rest
  }

  lemma PrependPair(x: u16, vs: seq<u16>, rest: seq<byte>)
    requires |rest| == 2 * |vs|
    requires forall i :: 0 <= i < |vs| ==> rest[2 * i] == Lo(vs[i]) && rest[2 * i + 1] == Hi(vs[i])
    ensures var r := [Lo(x), Hi(x)] + rest; var ws := [x] + vs;
      forall i :: 0 <= i < |ws| ==> r[2 * i] == Lo(ws[i]) && r[2 * i + 1] == Hi(ws[i])
  {
    var r := [Lo(x), Hi(x)] + rest;
    var ws := [x] + vs;
    forall i | 0 <= i < |ws|
      ensures r[2 * i] == Lo(ws[i]) && r[2 * i + 1] == Hi(ws[i])
    {
      if i > 0 {
        assert ws[i] == vs[i - 1];
        assert r[2 * i] == rest[2 * (i - 1)] && r[2 * i + 1] == rest[2 * (i - 1) + 1];
      }
    }
  }

  /** The struct's memory image: each level as two little-endian bytes,
      then the changed flags. */
  function EncodeSlider(c: SliderChanges): (buf: seq<byte>)
    ensures |buf| == 2 * |c.value| + |c.changed|
    ensures forall i :: 0 <= i < |c.value| ==> U16Le(buf[2 * i], buf[2 * i + 1]) == c.value[i]
    ensures buf[2 * |c.value|..] == c.changed
  {
    var lo := LeBytes(c.value);
    forall i | 0 <= i < |c.value|
      ensures U16Le(lo[2 * i], lo[2 * i + 1]) == c.value[i]
    {
      SplitJoin(c.value[i], 0, 0);
    }
    lo + c.changed
  }

  /** `get_slider_values`: unpacks `<{n}H{n}B`. `None` models the
      `struct.error` raised when the buffer is not exactly `3n` bytes. */
  function DecodeSlider(buf: seq<byte>, n: nat): (r: Option<SliderChanges>)
    ensures r.Some? <==> |buf| == 3 * n
    ensures r.Some? ==> SliderShaped(r.value, n)
  {
    if |buf| != 3 * n then None
    else Some(SliderChanges(
      seq(n, i requires 0 <= i < n => U16Le(buf[2 * i], buf[2 * i + 1])),
      buf[2 * n..]))
  }

  /** The host reads back exactly the struct the firmware wrote. */
  lemma SliderRoundTrip(c: SliderChanges, n: nat)
    requires SliderShaped(c, n)
    ensures DecodeSlider(EncodeSlider(c), n) == Some(c)
  {
    var buf := EncodeSlider(c);
    var d := DecodeSlider(buf, n).value;
    forall i | 0 <= i < n
      ensures d.value[i] == c.value[i]
    {
      assert d.value[i] == U16Le(buf[2 * i], buf[2 * i + 1]);
    }
    assert d.value == c.value;
  }

  /** The byte pair an index falls in. */
  function Halve(i: nat): (k: nat)
    ensures i == 2 * k || i == 2 * k + 1
  {
    i / 2
  }

  /** Every buffer of the right length is the image of the struct decoded
      from it. */
  lemma SliderDecodeEncode(buf: seq<byte>, n: nat)
    requires |buf| == 3 * n
    ensures EncodeSlider(DecodeSlider(buf, n).value) == buf
  {
    var c := DecodeSlider(buf, n).value;
    PairsJoin(buf[..2 * n], c.value);
    assert buf == buf[..2 * n] + buf[2 * n..];
  }

  lemma PairAt(bytes: seq<byte>, vs: seq<u16>, e: seq<byte>, k: nat)
    requires |bytes| == 2 * |vs| == |e| && k < |vs|
    requires vs[k] == U16Le(bytes[2 * k], bytes[2 * k + 1])
    requires e[2 * k] == Lo(vs[k]) && e[2 * k + 1] == Hi(vs[k])
    ensures e[2 * k] == bytes[2 * k] && e[2 * k + 1] == bytes[2 * k + 1]
  {
    SplitJoin(0, bytes[2 * k], bytes[2 * k + 1]);
  }

  /** Re-splitting levels joined from byte pairs gives the pairs back. */
  lemma PairsJoin(bytes: seq<byte>, vs: seq<u16>)
    requires |bytes| == 2 * |vs|
    requires forall k :: 0 <= k < |vs| ==> vs[k] == U16Le(bytes[2 * k], bytes[2 * k + 1])
    ensures LeBytes(vs) == bytes
  {
    var e := LeBytes(vs);
    forall i | 0 <= i < |bytes|
      ensures e[i] == bytes[i]
    {
      var k := Halve(i);
      PairAt(bytes, vs, e, k);
    }
  }
}
