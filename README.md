# Waveshare Modbus relay integration: wire codec and configuration flow

A Dafny model of the core of a Home Assistant integration for Waveshare's
Modbus-TCP relay boards. It covers two parts:

- **The wire codec** (`utils.py`). It builds the fixed 12-byte requests:
  the MBAP header of the Modbus Messaging on TCP/IP Implementation Guide
  (section 3.1.3), a function code and four payload bytes. It also decodes
  three things from the board's replies: the 8-relay status bitmask, the
  device address byte and the firmware version string.
- **The configuration flow** (`config_flow.py`). The user step adds a
  board and the reconfigure step edits one. Each step searches the existing
  entries for a duplicate IP address, checks the channel count, probes the
  connection, and then either creates or updates the entry or shows the
  form again with an errors map.

The model has four modules:

- `Wrappers` holds `Option`.
- `Bits` states Python's `>>` and `& 0xFF` on unbounded integers, and the
  division lemmas behind them.
- `Codec` models `utils.py` as pure functions.
- `ConfigFlow` models `config_flow.py`. Each step is a method with an
  `errors` map variable and a search loop with `break`. Each method is
  proved against declarative predicates (`IpTaken`, `IpTakenByOther`,
  `ValidationErrors`).

Modelling decisions:

- Bytes are the subset type `byte = 0..255`. A request is first the
  Python list of integers (`Message`). `bytes(message)` is `ToBytes`, which
  gives None where Python raises ValueError.
- The socket round trip is a parameter: `Exchange = Reply(data) | SocketFailure`.
  The connection probe is a parameter too: `Probe = Connected | CannotConnect | Unexpected`.
- A decoder that may raise returns `Call<T> = Returned(T) | Raised(Error)`.
  This makes the IndexError on short non-empty replies explicit, and also
  the status read re-raising a socket failure.
- `f"V{v / 100:.2f}"` becomes `"V" + str(v div 100) + "." + two digits of v mod 100`.
  For the register values this code can produce (0 .. 65535), rounding
  v/100 to two places gives exactly these digits, so no floating point
  is needed.

Where the code and its tests (and cli.py) differ, the model follows the
code:

- Interval 0 gives payload `00 addr 00 00`, not `00 addr FF 00`.
- Interval -1 gives `02 addr FF FF`, not `00 addr 00 00`. Every nonzero
  interval, negative ones included, is a timed flash of `interval mod 2^16`.
- `_read_relay_status` takes no start or count. It always asks for 8
  coils from 0 and decodes the last reply byte, whatever the reply's
  length. A short reply is decoded, not rejected.
- No code detects exception frames (`function_code | 0x80`) or checks the
  reply length. A non-empty reply that is too short raises IndexError in
  the address and version reads.
- The device address is the single byte at offset 9.

## Model

| member | source | states |
|---|---|---|
| `Bits.Shr` | custom_components/waveshare_relay/utils.py:17-35 | Python's `x >> k` is floor division by 2^k for every integer, negative ones included |
| `Bits.Low8` | custom_components/waveshare_relay/utils.py:17-25 | Python's `x & 0xFF` is a byte congruent to x modulo 256, for negative x too |
| `Bits.WordOfSplit` | custom_components/waveshare_relay/utils.py:24-25 | the two masked bytes `(x >> 8) & 0xFF`, `x & 0xFF` read back big-endian give x mod 65536 |
| `Bits.HighByteRange` | custom_components/waveshare_relay/utils.py:35 | the unmasked high byte `x >> 8` is a valid byte exactly when 0 <= x < 65536 |
| `Codec.Header` | custom_components/waveshare_relay/utils.py:9-21 | the header fields computed by shifts and masks are the bytes 00 01 00 00 00 06 01 followed by the function code |
| `Codec.Message` | custom_components/waveshare_relay/utils.py:14-37 | every message is 12 elements long and begins 00 01 00 00 00 06 01 and the function code, in both branches |
| `Codec.ToBytes` | custom_components/waveshare_relay/utils.py:42 | `bytes(message)` succeeds exactly when every element is in 0..255, and then keeps every element |
| `Codec.MessageEncodable` | custom_components/waveshare_relay/utils.py:14-42 | the message encodes exactly when the function code is a byte and the relay address is a byte (flash) or a 16-bit address (register read) |
| `Codec.SendCommand` | custom_components/waveshare_relay/utils.py:7-48 | returns the received bytes unchanged exactly when the message encodes and the exchange succeeded; otherwise None |
| `Codec.FlashOffPayload` | custom_components/waveshare_relay/utils.py:22-25 | interval 0 gives payload 00, relay address, 00, 00 (the turn-off frame) |
| `Codec.FlashTimedPayload` | custom_components/waveshare_relay/utils.py:22-25 | any nonzero interval gives 02, relay address, (interval div 256) mod 256, interval mod 256, so the last two bytes are interval mod 65536 big-endian |
| `Codec.RegisterReadPayload` | custom_components/waveshare_relay/utils.py:27-37 | other function codes give start address high, low, 00 01 whatever the interval; a 16-bit address is recovered from bytes 8-9 |
| `Codec.FrameExamples` | custom_components/waveshare_relay/utils.py:14-37 | the example frames: interval 10 gives 02 01 00 0A; interval 0 gives 00 01 00 00; interval -1 gives 02 01 FF FF; registers 0x4000 and 0x8000 give 40 00 00 01 and 80 00 00 01 |
| `Codec.StatusRequest` | custom_components/waveshare_relay/utils.py:52-60 | the status request is 12 valid bytes: the common header with function 0x01, start coil 0 and quantity 8 |
| `Codec.StatusBits` | custom_components/waveshare_relay/utils.py:70 | unpacking a status byte yields 8 entries, each 0 or 1, whose sum of status[i]·2^i is the byte |
| `Codec.StatusBitsOfValue` | custom_components/waveshare_relay/utils.py:69-70 | every list of 8 bits is the unpacking of the byte it encodes (unpacking is a bijection onto 8-bit lists) |
| `Codec.ReadRelayStatus` | custom_components/waveshare_relay/utils.py:50-75 | a socket failure re-raises; an empty reply raises IndexError; otherwise 8 relay bits whose value is the last reply byte |
| `Codec.StatusUsesLastByteOnly` | custom_components/waveshare_relay/utils.py:69 | two non-empty replies with the same last byte decode to the same status |
| `Codec.ReadDeviceAddress` | custom_components/waveshare_relay/utils.py:77-82 | None exactly for no reply or an empty reply; IndexError exactly for a non-empty reply of at most 9 bytes; otherwise the byte at offset 9 |
| `Codec.DeviceAddressUsesByteNineOnly` | custom_components/waveshare_relay/utils.py:81 | replies that agree at offset 9 give the same address, that byte, whatever follows it |
| `Codec.Decimal` | custom_components/waveshare_relay/utils.py:89 | the integer part is rendered as decimal digits without leading zeros that read back as the number |
| `Codec.VersionString` | custom_components/waveshare_relay/utils.py:89 | the rendering is `V`, a digit string without leading zeros, `.` and exactly two digits |
| `Codec.DecimalOfDigits` | custom_components/waveshare_relay/utils.py:89 | a digit string without leading zeros is the decimal rendering of its own value, so the integer part is determined by its value |
| `Codec.VersionRoundTrip` | custom_components/waveshare_relay/utils.py:88-89 | the rendered `V<x>.<yy>` string determines the register value: parsing it gives back v |
| `Codec.VersionParseExact` | custom_components/waveshare_relay/utils.py:88-89 | a string parses to v exactly when it is the rendering of v: no other spelling (leading zeros, one or three fraction digits) reads back as v |
| `Codec.ReadSoftwareVersion` | custom_components/waveshare_relay/utils.py:84-90 | None exactly for no reply or an empty reply; IndexError exactly for a non-empty reply of at most 10 bytes; otherwise exactly the rendering of response[9]·256 + response[10], which parses back to that value |
| `Codec.DecoderExamples` | tests/test_utils.py:119-186 | the example replies: status byte 1 gives [1,0,0,0,0,0,0,0] (also for the 8-byte reply, which is decoded rather than rejected); address reply gives 1; version 0x0190 gives "V4.00"; 100 gives "V1.00" and 0 gives "V0.00"; a failed exchange gives None |
| `ConfigFlow.ValidateConnection` | custom_components/waveshare_relay/config_flow.py:125-136 | OSError and timeouts become CannotConnect, other exceptions escape, and a completed connection returns |
| `ConfigFlow.EntryData` | custom_components/waveshare_relay/config_flow.py:53-59 | stored entry data holds exactly the five fields, and reading them back gives the user input |
| `ConfigFlow.ValidationErrorsCases` | custom_components/waveshare_relay/config_flow.py:42-65 | "channels" is an error exactly when channels <= 0; "base" is an error exactly when the probe failed (cannot_connect or unknown); the two can coexist; there is no error exactly when channels > 0 and the probe connected |
| `ConfigFlow.HasIp` | custom_components/waveshare_relay/config_flow.py:37 | `entry.data.get("ip_address") == ip` holds exactly when the entry stores ip_address as that string; an entry without one never matches |
| `ConfigFlow.AsyncStepUser` | custom_components/waveshare_relay/config_flow.py:30-67 | no input gives the form with no errors; a duplicate IP gives exactly {"base": "already_configured"} without probing; otherwise the probe runs; an entry (title device_name, the five fields) is created exactly when channels > 0 and the probe connected; otherwise the form carries the validation errors |
| `ConfigFlow.ReconfigureDefaults` | custom_components/waveshare_relay/config_flow.py:115-119 | the reconfigure form's defaults hold exactly the five fields, each the current entry's stored value when present and otherwise "", 502, "Waveshare Relay", 8, True |
| `ConfigFlow.ReconfigureDefaultsCases` | custom_components/waveshare_relay/config_flow.py:108-121 | the reconfigure form is pre-filled with a stored entry's own five values; missing fields fall back to "", 502, "Waveshare Relay", 8, True |
| `ConfigFlow.AsyncStepReconfigure` | custom_components/waveshare_relay/config_flow.py:69-123 | the duplicate search skips entries with the reconfigured entry's unique id; the probe runs exactly when no other entry has the IP; update-and-abort with reason "reconfigured" and the five fields exactly when channels > 0 and the probe connected; otherwise abort "entry_not_found" when the current entry is missing, or the reconfigure form with its defaults and the recorded errors |
| `ConfigFlow.SelfExclusion` | custom_components/waveshare_relay/config_flow.py:77-80 | every reconfigure conflict is also a user-step conflict; an entry never conflicts with itself; without a conflict, all entries with the IP share the reconfigured entry's unique id |

## Left out

- Socket I/O: `socket.socket`, `connect`, `sendall`, `recv(1024)` and `socket.create_connection`. The model takes the outcome of the exchange as a parameter. It does not relate the reply to the request that was sent.
- Logging calls. They do not affect control flow.
- The voluptuous schemas, including `Range(min=1, max=32)` and the coercions. The steps take already-coerced input; only the schema default values appear, as form defaults.
- `_get_reconfigure_entry` and `async_get_entry` are host lookups. Their results are parameters, and the model does not cover the first one raising.
- Exceptions raised by the host's `async_create_entry` or `async_update_reload_and_abort` inside the `try`. These would be reported as "unknown"; they are host behaviour.
- Exception-frame detection and the exception-message table in const.py. No modelled code uses them.
- The platform files (switch.py, sensor.py, number.py, `__init__.py`), the polling and countdown tasks, float parsing of interval states, and cli.py. These are host glue and interactive I/O.
- ReadSoftwareVersion: the float formatting of `v / 100` is modelled by integer quotient and remainder. This is exact only for the byte-pair values 0..65535 the code can produce.
