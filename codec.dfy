/**
 * The relay board's wire codec: the fixed 12-byte Modbus-TCP requests and
 * the decoding of the relay bitmask, the device address and the firmware
 * version from the board's replies.
 *
 * A request is the MBAP header of the Modbus Messaging on TCP/IP
 * Implementation Guide (transaction 1, protocol 0, length 6, unit 1), a
 * function code and four payload bytes. The socket round trip is not
 * modelled: each operation takes the outcome of the exchange as a
 * parameter.
 */
module Codec {
  import opened Wrappers
  import opened Bits

  type byte = x: int | 0 <= x < 256

  // Header fields shared by every request.
  const TransactionId := 0x0001
  const ProtocolId := 0x0000
  const Length := 0x06
  const UnitId := 0x01

  // Function codes and register addresses the integration uses.
  const ReadCoils := 0x01
  const ReadHoldingRegisters := 0x03
  const FlashRelay := 0x05
  const DeviceAddressRegister := 0x4000
  const SoftwareVersionRegister := 0x8000

  /**
   * One socket round trip: the bytes `recv(1024)` returned (possibly none,
   * when the peer closed), or a failure raised by `socket`, `connect`,
   * `sendall` or `recv`.
   */
  datatype Exchange = Reply(data: seq<byte>) | SocketFailure

  /** The exceptions a decoder lets escape to its caller. */
  datatype Error = SocketError | IndexError

  /** How a Python call ends: it returns a value or raises. */
  datatype Call<T> = Returned(value: T) | Raised(error: Error)

  /** The first eight message bytes: MBAP header, unit id, function code. */
  function Header(functionCode: int): (h: seq<int>)
    ensures h == [0x00, 0x01, 0x00, 0x00, 0x00, 0x06, 0x01, functionCode]
  {
    [Shr(TransactionId, 8), Low8(TransactionId),
     Shr(ProtocolId, 8), Low8(ProtocolId),
     Shr(Length, 8), Low8(Length),
     UnitId,
     functionCode]
  }

  /**
   * The message list `_send_modbus_command` builds. Function 0x05 is the
   * board's flash command: command byte 0x02 and a 16-bit interval for a
   * nonzero interval, all zero otherwise. Every other function code reads
   * one register starting at `relayAddress`; `interval` is then unused.
   */
  function Message(functionCode: int, relayAddress: int, interval: int): (m: seq<int>)
    ensures |m| == 12
    ensures m[..8] == [0x00, 0x01, 0x00, 0x00, 0x00, 0x06, 0x01, functionCode]
  {
    Header(functionCode) +
    if functionCode == FlashRelay then
      [if interval != 0 then 0x02 else 0x00,
       relayAddress,
       if interval != 0 then Low8(Shr(interval, 8)) else 0x00,
       if interval != 0 then Low8(interval) else 0x00]
    else
      [Shr(relayAddress, 8), Low8(relayAddress), 0x00, 0x01]
  }

  /** Whether every element of a message list fits in a byte. */
  predicate AllBytes(m: seq<int>)
  {
    forall i :: 0 <= i < |m| ==> 0 <= m[i] < 256
  }

  /** Python's `bytes(message)`; None where it raises ValueError. */
  function ToBytes(m: seq<int>): (r: Option<seq<byte>>)
    ensures r.Some? <==> AllBytes(m)
    ensures r.Some? ==> |r.value| == |m| && forall i :: 0 <= i < |m| ==> r.value[i] == m[i]
  {
    if AllBytes(m) then Some(seq(|m|, i requires 0 <= i < |m| => m[i] as byte)) else None
  }

  /**
   * The arguments for which `bytes(message)` succeeds: a byte-sized
   * function code, and a byte-sized relay address for the flash command
   * or a 16-bit start address for a register read.
   */
  predicate Encodable(functionCode: int, relayAddress: int)
  {
    && 0 <= functionCode < 256
    && if functionCode == FlashRelay then 0 <= relayAddress < 256 else 0 <= relayAddress < 65536
  }

  lemma MessageEncodable(functionCode: int, relayAddress: int, interval: int)
    ensures AllBytes(Message(functionCode, relayAddress, interval)) <==> Encodable(functionCode, relayAddress)
  {
    var m := Message(functionCode, relayAddress, interval);
    HighByteRange(relayAddress);
    if AllBytes(m) {
      assert 0 <= m[7] < 256 && 0 <= m[8] < 256 && 0 <= m[9] < 256;
    }
  }

  /**
   * `_send_modbus_command`: the reply bytes, unchanged, when the message
   * could be encoded and the exchange succeeded; None when anything raised.
   */
  function SendCommand(functionCode: int, relayAddress: int, interval: int, exchange: Exchange): (r: Option<seq<byte>>)
    ensures r.Some? <==> Encodable(functionCode, relayAddress) && exchange.Reply?
    ensures r.Some? ==> r.value == exchange.data
  {
    MessageEncodable(functionCode, relayAddress, interval);
    match ToBytes(Message(functionCode, relayAddress, interval))
    case None => None
    case Some(_) =>
      match exchange
      case Reply(data) => Some(data)
      case SocketFailure => None
  }

  /**
   * Interval 0 is the frame the switch's turn-off sends: command byte and
   * interval bytes all zero.
   */
  lemma FlashOffPayload(relayAddress: int)
    ensures Message(FlashRelay, relayAddress, 0)[8..] == [0x00, relayAddress, 0x00, 0x00]
  {
  }

  /**
   * Any nonzero interval, negative ones included, gives command byte 0x02
   * and the interval's two low bytes big-endian, i.e. the interval
   * modulo 2^16.
   */
  lemma FlashTimedPayload(relayAddress: int, interval: int)
    requires interval != 0
    ensures var m := Message(FlashRelay, relayAddress, interval);
      && m[8] == 0x02 && m[9] == relayAddress
      && m[10] == (interval / 256) % 256 && m[11] == interval % 256
      && Word(m[10], m[11]) == interval % 65536
  {
    assert Pow2(8) == 256;
    WordOfSplit(interval);
  }

  /**
   * Every other function code reads one register at `relayAddress`,
   * whatever the interval; a 16-bit address is recovered from bytes 8
   * and 9.
   */
  lemma RegisterReadPayload(functionCode: int, relayAddress: int, interval: int)
    requires functionCode != FlashRelay
    ensures var m := Message(functionCode, relayAddress, interval);
      && m[8..] == [relayAddress / 256, relayAddress % 256, 0x00, 0x01]
      && m == Message(functionCode, relayAddress, 0)
      && (0 <= relayAddress < 65536 ==> 0 <= m[8] < 256 && Word(m[8], m[9]) == relayAddress)
  {
    assert Pow2(8) == 256;
    if 0 <= relayAddress < 65536 {
      SplitInRange(relayAddress);
    }
  }

  /** The frames of the repository's own examples, as this code builds them. */
  lemma FrameExamples()
    ensures ToBytes(Message(FlashRelay, 1, 10)) == Some([0x00, 0x01, 0x00, 0x00, 0x00, 0x06, 0x01, 0x05, 0x02, 0x01, 0x00, 0x0A])
    ensures Message(FlashRelay, 1, 0)[8..] == [0x00, 0x01, 0x00, 0x00]
    ensures Message(FlashRelay, 1, -1)[8..] == [0x02, 0x01, 0xFF, 0xFF]
    ensures Message(ReadHoldingRegisters, DeviceAddressRegister, 0)[8..] == [0x40, 0x00, 0x00, 0x01]
    ensures Message(ReadHoldingRegisters, SoftwareVersionRegister, 0)[8..] == [0x80, 0x00, 0x00, 0x01]
  {
    var m := Message(FlashRelay, 1, 10);
    FlashTimedPayload(1, 10);
    assert m == [0x00, 0x01, 0x00, 0x00, 0x00, 0x06, 0x01, 0x05, 0x02, 0x01, 0x00, 0x0A];
    assert AllBytes(m);
    assert ToBytes(m).value == m;
    FlashTimedPayload(1, -1);
    RegisterReadPayload(ReadHoldingRegisters, DeviceAddressRegister, 0);
    RegisterReadPayload(ReadHoldingRegisters, SoftwareVersionRegister, 0);
  }

  // ---------------------------------------------------------------------
  // Relay status

  /** The fixed request `_read_relay_status` sends. */
  function StatusRequest(): (m: seq<int>)
    ensures |m| == 12 && m[..8] == Header(ReadCoils)
    ensures Word(m[8], m[9]) == 0 && Word(m[10], m[11]) == 8
    ensures AllBytes(m)
  {
    [0x00, 0x01, 0x00, 0x00, 0x00, 0x06, 0x01, 0x01, 0x00, 0x00, 0x00, 0x08]
  }


  /** The number whose bit i is bits[i]: the sum of bits[i] * 2^i. */
  function BitsValue(bits: seq<int>): int
  {
    if bits == [] then 0 else bits[0] + 2 * BitsValue(bits[1..])
  }

  predicate IsBitList(bits: seq<int>)
  {
    forall i :: 0 <= i < |bits| ==> bits[i] == 0 || bits[i] == 1
  }

  /** The low n bits of x, least significant first, add up to x mod 2^n. */
  lemma {:induction false} LowBitsValue(x: int, n: nat)
    ensures BitsValue(seq(n, i requires 0 <= i < n => Shr(x, i) % 2)) == x % Pow2(n)
    decreases n
  {
    var s := seq(n, i requires 0 <= i < n => Shr(x, i) % 2);
    if n > 0 {
      var t := seq(n - 1, i requires 0 <= i < n - 1 => Shr(x / 2, i) % 2);
      assert s[1..] == t;
      LowBitsValue(x / 2, n - 1);
      DivDiv(x, 2, Pow2(n - 1));
    }
  }

  /**
   * Relay i's status is `(status_byte >> i) & 1`, for i in 0 .. 7: eight
   * 0/1 entries whose weighted sum is the status byte itself, so no bit is
   * lost or invented.
   */
  function StatusBits(statusByte: byte): (status: seq<int>)
    ensures |status| == 8 && IsBitList(status)
    ensures BitsValue(status) == statusByte
  {
    LowBitsValue(statusByte, 8);
    assert Pow2(8) == 256;
    seq(8, bit requires 0 <= bit < 8 => Shr(statusByte, bit) % 2)
  }

  /** Shifting the value of a bit list right by k drops its first k bits. */
  lemma {:induction false} ShrBitsValue(bits: seq<int>, k: nat)
    requires IsBitList(bits) && k <= |bits|
    ensures Shr(BitsValue(bits), k) == BitsValue(bits[k..])
    decreases k
  {
    if k > 0 {
      assert BitsValue(bits) / 2 == BitsValue(bits[1..]);
      ShrBitsValue(bits[1..], k - 1);
      assert bits[1..][k - 1..] == bits[k..];
    }
  }

  /** A bit list's value is non-negative and below 2^|bits|. */
  lemma {:induction false} BitsValueRange(bits: seq<int>)
    requires IsBitList(bits)
    ensures 0 <= BitsValue(bits) < Pow2(|bits|)
    decreases |bits|
  {
    if bits != [] {
      BitsValueRange(bits[1..]);
    }
  }

  /** Every list of eight relay bits is the decoding of exactly one status byte. */
  lemma StatusBitsOfValue(bits: seq<int>)
    requires |bits| == 8 && IsBitList(bits)
    ensures 0 <= BitsValue(bits) < 256
    ensures StatusBits(BitsValue(bits) as byte) == bits
  {
    BitsValueRange(bits);
    assert Pow2(8) == 256;
    var v := BitsValue(bits) as byte;
    forall i | 0 <= i < 8
      ensures StatusBits(v)[i] == bits[i]
    {
      ShrBitsValue(bits, i);
      assert BitsValue(bits[i..]) == bits[i] + 2 * BitsValue(bits[i..][1..]);
    }
  }

  /**
   * `_read_relay_status`: a socket failure and an empty reply both raise
   * (the handler logs and re-raises); otherwise the last reply byte is
   * unpacked into eight relay states, least significant bit first.
   */
  function ReadRelayStatus(exchange: Exchange): (r: Call<seq<int>>)
    ensures exchange.SocketFailure? ==> r == Raised(SocketError)
    ensures exchange.Reply? && exchange.data == [] ==> r == Raised(IndexError)
    ensures exchange.Reply? && exchange.data != [] ==>
      && r.Returned? && |r.value| == 8 && IsBitList(r.value)
      && BitsValue(r.value) == exchange.data[|exchange.data| - 1]
  {
    match exchange
    case SocketFailure => Raised(SocketError)
    case Reply(response) =>
      if |response| == 0 then Raised(IndexError)
      else
        Returned(StatusBits(response[|response| - 1]))
  }

  /** Only the last reply byte is consulted. */
  lemma StatusUsesLastByteOnly(a: seq<byte>, b: seq<byte>)
    requires a != [] && b != [] && a[|a| - 1] == b[|b| - 1]
    ensures ReadRelayStatus(Reply(a)) == ReadRelayStatus(Reply(b))
  {
  }

  // ---------------------------------------------------------------------
  // Device address and firmware version

  /**
   * `_read_device_address`: reads register 0x4000 and returns the byte at
   * offset 9. No reply, or an empty one, gives None; a non-empty reply of
   * at most 9 bytes raises IndexError.
   */
  function ReadDeviceAddress(exchange: Exchange): (r: Call<Option<byte>>)
    ensures r == Returned(None) <==> exchange.SocketFailure? || exchange.data == []
    ensures r.Raised? <==> exchange.Reply? && 0 < |exchange.data| <= 9
    ensures r.Raised? ==> r.error == IndexError
    ensures r.Returned? && r.value.Some? ==> exchange.Reply? && 9 < |exchange.data| && r.value.value == exchange.data[9]
  {
    var response := SendCommand(ReadHoldingRegisters, DeviceAddressRegister, 0, exchange);
    if response.Some? && |response.value| > 0 then
      if 9 < |response.value| then Returned(Some(response.value[9])) else Raised(IndexError)
    else
      Returned(None)
  }

  /** The address does not depend on any byte other than the one at offset 9. */
  lemma DeviceAddressUsesByteNineOnly(a: seq<byte>, b: seq<byte>)
    requires 9 < |a| && 9 < |b| && a[9] == b[9]
    ensures ReadDeviceAddress(Reply(a)) == ReadDeviceAddress(Reply(b)) == Returned(Some(a[9]))
  {
  }

  /** The character of a decimal digit. */
  function DigitChar(d: int): (c: char)
    requires 0 <= d < 10
    ensures '0' <= c <= '9' && c as int - '0' as int == d
  {
    (d + '0' as int) as char
  }

  predicate IsDigits(s: string)
  {
    forall i :: 0 <= i < |s| ==> '0' <= s[i] <= '9'
  }

  /** The number a string of decimal digits denotes, most significant first. */
  function DigitsValue(s: string): nat
    requires IsDigits(s)
  {
    if s == [] then 0 else DigitsValue(s[..|s| - 1]) * 10 + (s[|s| - 1] as int - '0' as int)
  }

  /** Python's `str(n)` for a natural number: digits without leading zeros. */
  function Decimal(n: nat): (s: string)
    ensures |s| >= 1 && IsDigits(s)
    ensures |s| > 1 ==> s[0] != '0'
    ensures DigitsValue(s) == n
  {
    if n < 10 then [DigitChar(n)]
    else
      var prefix := Decimal(n / 10);
      var s := prefix + [DigitChar(n % 10)];
      assert s[..|s| - 1] == prefix;
      s
  }

  /**
   * `f"V{v / 100:.2f}"`: "V", the integer part, a point and two fraction
   * digits. For 0 <= v < 2^16 the float v / 100 rounds to two places
   * exactly as the integer quotient and remainder by 100 spell it.
   */
  function VersionString(v: nat): (s: string)
    ensures |s| >= 5 && s[0] == 'V' && s[|s| - 3] == '.'
    ensures IsDigits(s[1..|s| - 3]) && IsDigits(s[|s| - 2..])
    ensures |s| == 5 || s[1] != '0'
  {
    "V" + Decimal(v / 100) + "." + [DigitChar(v % 100 / 10), DigitChar(v % 10)]
  }

  /**
   * Reads a version string back into the register value it renders; the
   * integer part must be written without leading zeros.
   */
  function ParseVersion(s: string): Option<nat>
  {
    if && |s| >= 5 && s[0] == 'V' && s[|s| - 3] == '.'
       && IsDigits(s[1..|s| - 3]) && IsDigits(s[|s| - 2..])
       && (|s| == 5 || s[1] != '0')
    then Some(DigitsValue(s[1..|s| - 3]) * 100 + DigitsValue(s[|s| - 2..]))
    else None
  }

  /** Rendering loses nothing: the version string determines the register value. */
  lemma VersionRoundTrip(v: nat)
    ensures ParseVersion(VersionString(v)) == Some(v)
  {
    var whole := Decimal(v / 100);
    var frac := [DigitChar(v % 100 / 10), DigitChar(v % 10)];
    var s := VersionString(v);
    assert s == "V" + whole + "." + frac;
    assert s[1..|s| - 3] == whole;
    assert s[|s| - 2..] == frac;
    assert frac[..1] == [DigitChar(v % 100 / 10)];
    assert DigitsValue(frac[..1]) == v % 100 / 10 by {
      assert frac[..1][..0] == [];
    }
    DivDiv(v, 10, 10);
    DivModUnique(v % 100, 10, (v / 10) % 10, v % 10);
    assert DigitsValue(frac) == v % 100;
  }

  /** A digit character is rendered back from its own value. */
  lemma DigitCharOf(c: char)
    requires '0' <= c <= '9'
    ensures DigitChar(c as int - '0' as int) == c
  {
  }

  /** A digit string without a leading zero denotes a positive number, unless it is one digit. */
  lemma {:induction false} DigitsValuePositive(s: string)
    requires IsDigits(s) && |s| >= 1 && s[0] != '0'
    ensures DigitsValue(s) >= 1
    decreases |s|
  {
    if |s| > 1 {
      DigitsValuePositive(s[..|s| - 1]);
    }
  }

  /** `str` of the value of a digit string without leading zeros is that string. */
  lemma {:induction false} DecimalOfDigits(s: string)
    requires IsDigits(s) && |s| >= 1 && (|s| == 1 || s[0] != '0')
    ensures Decimal(DigitsValue(s)) == s
    decreases |s|
  {
    var c := s[|s| - 1];
    var d := c as int - '0' as int;
    DigitCharOf(c);
    if |s| == 1 {
      assert s == [c];
    } else {
      var prefix := s[..|s| - 1];
      DigitsValuePositive(prefix);
      DecimalOfDigits(prefix);
      var n := DigitsValue(s);
      assert n == DigitsValue(prefix) * 10 + d;
      DivModUnique(n, 10, DigitsValue(prefix), d);
      assert s == prefix + [c];
    }
  }

  /** Two digits are rendered back from their value's tens and units. */
  lemma TwoDigitsOf(frac: string)
    requires IsDigits(frac) && |frac| == 2
    ensures DigitsValue(frac) < 100
    ensures frac == [DigitChar(DigitsValue(frac) / 10), DigitChar(DigitsValue(frac) % 10)]
  {
    var t, u := frac[0] as int - '0' as int, frac[1] as int - '0' as int;
    assert frac[..1] == [frac[0]];
    assert DigitsValue(frac[..1]) == t by {
      assert frac[..1][..0] == [];
    }
    assert DigitsValue(frac) == t * 10 + u;
    DivModUnique(DigitsValue(frac), 10, t, u);
    DigitCharOf(frac[0]);
    DigitCharOf(frac[1]);
  }

  /** A string that parses is the rendering of the value it parses to. */
  lemma ParsedIsRendered(s: string)
    requires ParseVersion(s).Some?
    ensures s == VersionString(ParseVersion(s).value)
  {
    var whole, frac := s[1..|s| - 3], s[|s| - 2..];
    var w, f := DigitsValue(whole), DigitsValue(frac);
    var v := ParseVersion(s).value;
    assert v == w * 100 + f;
    TwoDigitsOf(frac);
    DivModUnique(v, 100, w, f);
    DecimalOfDigits(whole);
    assert Decimal(v / 100) == whole;
    assert [DigitChar(v % 100 / 10), DigitChar(v % 10)] == frac by {
      assert v == (w * 10 + f / 10) * 10 + f % 10;
      DivModUnique(v, 10, w * 10 + f / 10, f % 10);
    }
    assert s == "V" + whole + "." + frac;
  }

  /**
   * The converse of the round trip: the only string that parses to v is
   * the one the code renders for v, so a decoder promising
   * `ParseVersion(s) == Some(v)` promises exactly `s == VersionString(v)`.
   */
  lemma VersionParseExact(s: string, v: nat)
    ensures ParseVersion(s) == Some(v) <==> s == VersionString(v)
  {
    if s == VersionString(v) {
      VersionRoundTrip(v);
    }
    if ParseVersion(s) == Some(v) {
      ParsedIsRendered(s);
    }
  }

  /**
   * `_read_software_version`: reads register 0x8000, combines the bytes at
   * offsets 9 and 10 big-endian and renders them. No reply, or an empty
   * one, gives None; a non-empty reply of at most 10 bytes raises IndexError.
   */
  function ReadSoftwareVersion(exchange: Exchange): (r: Call<Option<string>>)
    ensures r == Returned(None) <==> exchange.SocketFailure? || exchange.data == []
    ensures r.Raised? <==> exchange.Reply? && 0 < |exchange.data| <= 10
    ensures r.Raised? ==> r.error == IndexError
    ensures r.Returned? && r.value.Some? ==>
      && exchange.Reply? && 10 < |exchange.data|
      && ParseVersion(r.value.value) == Some(Word(exchange.data[9], exchange.data[10]))
      && r.value.value == VersionString(Word(exchange.data[9], exchange.data[10]))
  {
    var response := SendCommand(ReadHoldingRegisters, SoftwareVersionRegister, 0, exchange);
    if response.Some? && |response.value| > 0 then
      if 10 < |response.value| then
        var version: nat := Word(response.value[9], response.value[10]);
        VersionRoundTrip(version);
        Returned(Some(VersionString(version)))
      else
        Raised(IndexError)
    else
      Returned(None)
  }

  /** The repository's decoder examples, with the outcome this code gives each. */
  lemma DecoderExamples()
    ensures ReadRelayStatus(Reply([0x00, 0x01, 0x00, 0x00, 0x00, 0x05, 0x01, 0x01, 0x01, 0x01])) == Returned([1, 0, 0, 0, 0, 0, 0, 0])
    ensures ReadRelayStatus(Reply([0x00, 0x01, 0x00, 0x00, 0x00, 0x05, 0x01, 0x01])) == Returned([1, 0, 0, 0, 0, 0, 0, 0])
    ensures ReadDeviceAddress(Reply([0x00, 0x01, 0x00, 0x00, 0x00, 0x06, 0x01, 0x03, 0x02, 0x01, 0x00])) == Returned(Some(1))
    ensures ReadSoftwareVersion(Reply([0x00, 0x01, 0x00, 0x00, 0x00, 0x06, 0x01, 0x03, 0x02, 0x01, 0x90])) == Returned(Some("V4.00"))
    ensures VersionString(100) == "V1.00" && VersionString(0) == "V0.00"
    ensures ReadDeviceAddress(SocketFailure) == Returned(None) && ReadSoftwareVersion(SocketFailure) == Returned(None)
  {
    StatusBitsOfValue([1, 0, 0, 0, 0, 0, 0, 0]);
    assert Word(0x01, 0x90) == 400;
    assert VersionString(400) == "V4.00";
  }
}
