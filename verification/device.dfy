/** The host's record of one bus-attached peripheral (`TWIDevice`): its bus
    address, its multiplexer channel and the identity bytes it reported,
    rendered as a hexadecimal "friend code". */
module TwiDevice {
  import opened Common

  /** The hexadecimal digit for `n` in 0..15, `a`-`f` or `A`-`F` above 9. */
  function Digit(n: int, upper: bool): char
    requires 0 <= n < 16
  {
    if n < 10 then ('0' as int + n) as char
    else if upper then ('A' as int + n - 10) as char
    else ('a' as int + n - 10) as char
  }

  /** A byte as two lower-case hexadecimal digits (what `hexlify` emits). */
  function HexLower(b: byte): string {
    [Digit(b / 16, false), Digit(b % 16, false)]
  }

  /** A byte as two upper-case hexadecimal digits (the `02X` format). */
  function HexUpper(b: byte): string {
    [Digit(b / 16, true), Digit(b % 16, true)]
  }

  /** Lower-case hexadecimal rendering of a byte string, two digits per byte. */
  function Hexlify(s: seq<byte>): (r: string)
    ensures |r| == 2 * |s|
    ensures forall i :: 0 <= i < |s| ==> r[2 * i .. 2 * i + 2] == HexLower(s[i])
  {
    if s == [] then ""
    else
      var rest := Hexlify(s[1..]);
      var r := HexLower(s[0]) + rest;
      assert forall i :: 1 <= i < |s| ==> r[2 * i .. 2 * i + 2] == rest[2 * (i - 1) .. 2 * (i - 1) + 2];
      r
  }

  /** The value of one hexadecimal digit of either case. */
  function DigitValue(c: char): Option<int> {
    if '0' <= c <= '9' then Some(c as int - '0' as int)
    else if 'a' <= c <= 'f' then Some(c as int - 'a' as int + 10)
    else if 'A' <= c <= 'F' then Some(c as int - 'A' as int + 10)
    else None
  }

  /** The byte two hexadecimal digits stand for. */
  function PairValue(hi: char, lo: char): Option<byte> {
    match (DigitValue(hi), DigitValue(lo))
    case (Some(h), Some(l)) => Some(h * 16 + l)
    case _ => None
  }

  /** Inverse of `Hexlify`: the bytes an even-length hexadecimal string
      spells, or `None` when it is not one. */
  function Unhexlify(t: string): Option<seq<byte>>
    decreases |t|
  {
    if t == [] then Some([])
    else if |t| == 1 then None
    else match (PairValue(t[0], t[1]), Unhexlify(t[2..]))
      case (Some(b), Some(rest)) => Some([b] + rest)
      case _ => None
  }

  lemma PairValueLower(b: byte)
    ensures PairValue(HexLower(b)[0], HexLower(b)[1]) == Some(b)
  {
  }

  lemma PairValueUpper(b: byte)
    ensures PairValue(HexUpper(b)[0], HexUpper(b)[1]) == Some(b)
  {
  }

  /** Hex rendering loses nothing: reading the digits back gives the bytes. */
  lemma {:induction false} UnhexlifyHexlify(s: seq<byte>)
    ensures Unhexlify(Hexlify(s)) == Some(s)
  {
    if s != [] {
      var t := Hexlify(s);
      assert t == HexLower(s[0]) + Hexlify(s[1..]);
      assert t[2..] == Hexlify(s[1..]);
      PairValueLower(s[0]);
      UnhexlifyHexlify(s[1..]);
      assert [s[0]] + s[1..] == s;
    }
  }

  /** The reply to an identity request: exactly eleven bytes, because the
      host reads into an eleven-byte buffer. */
  type FriendBytes = s: seq<byte> | |s| == 11 witness [0, 0, 0, 0, 0, 0, 0, 0, 0, 0, 0]

  /** One registered peripheral. `typeId` is the first identity byte and
      `rawSerial` the rest. */
  datatype Device = Device(addr: int, channel: int, typeId: byte, rawSerial: seq<byte>)

  /** The identity bytes the device was built from. */
  function RawCode(d: Device): seq<byte> {
    [d.typeId] + d.rawSerial
  }

  /** Builds a device from raw identity bytes; `None` models the exception
      Python raises when the bytes are missing or empty. */
  function FromRaw(addr: int, channel: int, raw: Option<seq<byte>>): (r: Option<Device>)
    ensures r.Some? <==> raw.Some? && |raw.value| > 0
    ensures r.Some? ==> r.value.addr == addr && r.value.channel == channel
    ensures r.Some? ==> RawCode(r.value) == raw.value
  {
    match raw
    case Some(bytes) =>
      if |bytes| == 0 then None
      else
        var d := Device(addr, channel, bytes[0], bytes[1..]);
        assert RawCode(d) == bytes;
        Some(d)
    case None => None
  }

  /** The friend code: the type id as two upper-case hexadecimal digits
      followed by the lower-case hexadecimal rendering of the serial. */
  function FriendCode(d: Device): string {
    HexUpper(d.typeId) + Hexlify(d.rawSerial)
  }

  /** Reads a friend code back into its type id and serial bytes. */
  function ParseFriendCode(fc: string): Option<(byte, seq<byte>)> {
    if |fc| < 2 then None
    else match (PairValue(fc[0], fc[1]), Unhexlify(fc[2..]))
      case (Some(t), Some(serial)) => Some((t, serial))
      case _ => None
  }

  /** The friend code records the whole identity: parsing it gives back the
      type id and the serial. */
  lemma FriendCodeRoundTrip(d: Device)
    ensures ParseFriendCode(FriendCode(d)) == Some((d.typeId, d.rawSerial))
    ensures |FriendCode(d)| == 2 + 2 * |d.rawSerial|
  {
    var fc := FriendCode(d);
    assert fc[2..] == Hexlify(d.rawSerial);
    PairValueUpper(d.typeId);
    UnhexlifyHexlify(d.rawSerial);
  }

  /** Two devices share a friend code exactly when they carry the same
      identity bytes, whatever their addresses. */
  lemma FriendCodeInjective(d1: Device, d2: Device)
    ensures FriendCode(d1) == FriendCode(d2) <==> RawCode(d1) == RawCode(d2)
  {
    FriendCodeRoundTrip(d1);
    FriendCodeRoundTrip(d2);
    if RawCode(d1) == RawCode(d2) {
      assert d1.typeId == RawCode(d1)[0] == RawCode(d2)[0] == d2.typeId;
      assert d1.rawSerial == RawCode(d1)[1..] == RawCode(d2)[1..] == d2.rawSerial;
    }
  }

  /** Equality of devices for registry purposes (`__eq__`): same address on
      the same channel; the identity is not compared. */
  predicate SameDevice(a: Device, b: Device) {
    a.addr == b.addr && a.channel == b.channel
  }

  /** What the device hashes on (`__hash__`). */
  function Key(d: Device): (int, int) {
    (d.addr, d.channel)
  }

  /** Hashing agrees with equality: equal devices have equal keys and equal
      keys make equal devices, whatever identity bytes each carries. */
  lemma KeyMatchesEquality(a: Device, b: Device)
    ensures SameDevice(a, b) <==> Key(a) == Key(b)
    ensures SameDevice(a, b) == SameDevice(b, a)
  {
  }
}
