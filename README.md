# VESC serial protocol: a verified model

This project models the host side of the serial protocol that a Python
e-bike controller uses to talk to a VESC motor controller. It also models the
helpers around it.

- **Frames.** A payload travels in a frame with these parts:
  - a start byte: 2 when the length takes one byte, 3 when it takes two big-endian bytes;
  - the length;
  - the payload;
  - the big-endian CRC-16/XMODEM of the payload;
  - the end byte 3.
- **Frame reader.** The reader takes a frame off the serial stream. It checks the start byte, then the end byte, then the checksum.
- **Commands.** Each command sends a frame. It accepts a reply only when the reply's first payload byte echoes the command id.
  - The telemetry reply (COMM_GET_VALUES) holds fifteen signed big-endian fields at fixed offsets, scaled to engineering units.
  - The ADC, parked-status and firmware-version replies are read alongside it.
- **Bike helpers.** Speed from motor rpm, the throttle percentage, and parking or unparking the bike. Parking records the outcome in a module-wide flag.

Modules:

- `Bytes`: bytes, big-endian fields, and the outcome of a Python call.
  - `Call` is `Returned(v)` or `Raised`. Its `:-` form propagates an exception the way Python does.
- `Crc16`: the checksum.
  - `ComputeCrc16` is the source's nested loop over one accumulator.
  - The register is a 16-bit word, so the source's `& 0xFFFF` after every bit step becomes the word's own wrap-around.
- `Serial`: a class for the serial port.
  - `input` holds the bytes that arrive before the read timeout.
  - `written` logs everything written.
- `Frame`: frame building (`CreateVescPacket`, `BuildPacket`) and frame reading.
  - `DecodeFrame` is the specification. It returns the outcome and the number of bytes consumed.
  - `ReadPacket` is the method that does the source's reads on the link.
- `Telemetry`: `parse_get_values` (`ParseGetValues`, with the moving cursor of its `unpack` in `UnpackFields`).
  - It is specified by `GetValues`.
  - It has a partner encoder, `EncodeRaw`, with which it round-trips.
- `Commands`: the query and command functions: the frame each one sends, and how the reply is checked and interpreted.
- `Utils`: speed, throttle, and a class `ParkFlag` holding the module-wide `parked` flag with the park and unpark methods.

The model keeps these behaviours of the source:

- The frame reader raises an exception in these cases; this is the `ShortRead` outcome:
  - the stream ends inside the length;
  - the stream ends inside the payload-plus-checksum part;
  - the stream ends inside the checksum.

  It reports a rejection (None) only for a bad start byte, a bad or missing end byte, or a bad checksum.
- A long-form frame is accepted whatever its length field says, including lengths below 256.
- The park and unpark helpers check the first raw byte of the reply, not a decoded frame (see Findings).

## Model

| member | source | states |
|---|---|---|
| Bytes.UIntRoundTrip | vesc.py:88-90 | reading back a '>H' field packed from n gives n, for every n the field can hold |
| Bytes.UIntBytesOfUInt | vesc.py:88-90 | packing the value read from a byte string gives the byte string back |
| Bytes.SIntRoundTrip | vesc.py:105-109 | signed '>h' / '>i' fields read back every value they can hold |
| Bytes.SIntBytesOfSInt | vesc.py:105-109 | packing the signed value read from a byte string gives the byte string back |
| Bytes.SIntFits | vesc.py:105-109 | the signed value read from a non-empty byte string fits a field of that width |
| Serial.SerialLink.Read | vesc.py:84-91 | a read of n bytes returns the first min(n, available) bytes and removes exactly those |
| Serial.SerialLink.Write | vesc.py:139 | a write appends the buffer to the log and leaves the input alone |
| Crc16.Checksum | vesc.py:23-33 | the checksum lies in 0..0xFFFF |
| Crc16.ComputeCrc16 | vesc.py:23-33 | the byte loop with the eight-step bit loop computes exactly the checksum of the data |
| Crc16.ShiftByte | vesc.py:27-32 | the inner loop performs eight bit steps (shift, XOR 0x1021 when bit 15 was set, drop bit 16) |
| Crc16.ShiftOnce | vesc.py:28-32 | one bit step sets bit 0 exactly when bit 15 was set (the polynomial's constant term), and loses no bit when bit 15 was clear |
| Crc16.ParkModeVector | vesc.py:23-33 | the checksum of the PARK_MODE payload [0xC8] is 0x5844 |
| Crc16.ShiftOnceUndone | vesc.py:28-32 | one bit step can be undone, so it never maps two registers to one |
| Crc16.ShiftInjective | vesc.py:27-32 | any number of bit steps keeps distinct registers distinct |
| Crc16.PrefixesDiffer | vesc.py:25-32 | two payloads that differ in one byte have different registers on every longer prefix |
| Crc16.ByteChangeDetected | vesc.py:23-33 | replacing any one payload byte by a different value changes the checksum |
| Frame.EncodeFrame | vesc.py:34-58 | a frame is the header, the payload and the 3-byte trailer: len+5 bytes below 256, len+6 from 256 on |
| Frame.CreateVescPacket | vesc.py:34-58 | the buffer appended step by step, with the loop-computed checksum, is exactly the encoded frame |
| Frame.PackedFrame | vesc.py:69-81 | the struct-packed assembly equals the encoded frame for every payload below 65536 bytes |
| Frame.BuildPacket | vesc.py:69-81 | build_packet(id) is create_vesc_packet([id]) |
| Frame.ParkModeFrame | vesc.py:69-81 | build_packet(200) is 02 01 C8 58 44 03 |
| Frame.DecodeFrame | vesc.py:83-99 | the reader rejects for a bad start exactly when the stream is empty or starts with neither 2 nor 3, and never consumes more than the stream |
| Frame.DecodeBody | vesc.py:89-99 | reading the body never consumes more than the stream holds |
| Frame.ReadPacket | vesc.py:83-99 | the reads on the link consume exactly what the decoder says and return its outcome; nothing is written |
| Frame.ReadBody | vesc.py:89-99 | the payload, checksum and end-byte reads and the two checks agree with DecodeBody |
| Frame.BodyRoundTrip | vesc.py:89-99 | a payload followed by its trailer is read back whole, consuming len+3 bytes |
| Frame.HeaderRead | vesc.py:84-88 | after the header the host sends, whatever follows is read as a body of the announced length |
| Frame.FrameRoundTrip | vesc.py:83-99 | every frame the host sends (payload below 65536 bytes), followed by anything, reads back as its payload and consumes exactly the frame |
| Frame.AcceptedBody | vesc.py:89-99 | an accepted body is exactly the payload followed by its checksum and end byte |
| Frame.AcceptedFrameIsWellFormed | vesc.py:83-99 | the bytes consumed for an accepted payload are exactly its short-form or long-form frame |
| Frame.CrcCorruptionRejected | vesc.py:96-97 | a frame whose checksum bytes were replaced by different ones is rejected for its checksum |
| Frame.EndCorruptionRejected | vesc.py:91-94 | a frame with a wrong end byte, or cut off before it, is rejected for its end byte |
| Frame.PayloadCorruptionRejected | vesc.py:96-97 | changing any one payload byte of a frame gets it rejected for its checksum |
| Frame.TruncatedFrameRaises | vesc.py:88-90 | a frame cut off inside its length, payload or checksum makes the reader raise |
| Telemetry.Unpack | vesc.py:105-109 | an unpack returns exactly when the slice at the cursor holds the whole field, and raises otherwise |
| Telemetry.DutyCycle | vesc.py:117-118 | the duty cycle never exceeds 0.9; it is raw*0.0009 up to a raw 1000, and 0.9 from there on |
| Telemetry.Scale | vesc.py:111-134 | each raw field is recovered from its value: tenths for temperatures and voltage (0.5 V offset), hundredths for currents, thousandths for amp-hours, ten-thousandths for watt-hours, counts as read |
| Telemetry.GetValues | vesc.py:101-134 | the parse raises exactly when fewer than 52 bytes arrive, the ADC query raised or returned None, or the firmware query raised; otherwise the duty cycle is at most 0.9 and the ADC pair, parked flag and firmware string are passed through |
| Telemetry.UnpackFields | vesc.py:105-127 | the fifteen cursor-advancing unpacks raise exactly when fewer than 52 bytes arrived, and otherwise yield the fields at their offsets |
| Telemetry.ParseGetValues | vesc.py:101-134 | the cursor walk computes GetValues: raises when the ADC query raised or returned None, when fewer than 52 bytes arrive, or when the firmware query raised |
| Telemetry.RawFieldsRoundTrip | vesc.py:111-127 | the fifteen fields packed at their offsets, followed by anything, decode to themselves |
| Telemetry.FieldsRoundTrip | vesc.py:105-127 | every reply of 52 bytes or more is the packing of the fields read from it: they fit their widths and re-pack to its first 52 bytes |
| Telemetry.ValuesRoundTrip | vesc.py:101-134 | a packed body decodes to the scaled values of the packed fields |
| Telemetry.TrailingBytesIgnored | vesc.py:101-134 | bytes past the 52nd do not change the result |
| Commands.VescReading | vesc.py:156-166 | Vesc returns what get_vesc_values returns, or None when it raised |
| Commands.Decimal | vesc.py:197 | the decimal rendering is a non-empty string of digits |
| Commands.DecimalRoundTrip | vesc.py:197 | the decimal rendering reads back as the number |
| Commands.FwString | vesc.py:197 | the version string has at least 3 characters: digits with exactly one '.', right after the major number |
| Commands.FwStringUnambiguous | vesc.py:194-199 | "major.minor" is never "unknown" and determines both numbers |
| Commands.MotorLimitsPayload | vesc.py:265-271 | the motor-limits payload is 17 bytes: the id 203 and four packed floats at bytes 1, 5, 9 and 13 |
| Commands.ClampDuty | vesc.py:172 | the duty sent lies in [0, 1], equals the request inside that range, and is 0 below it and 1 above it |
| Commands.ClampMonotone | vesc.py:172 | clamping preserves the order of requests |
| Commands.GetAdcValues | vesc.py:146-154 | sends the GET_ADC_VALUES frame and returns the ADC reply of what the reader decodes |
| Commands.GetVescValues | vesc.py:136-145 | sends the GET_VALUES frame; on an echoed reply it decodes the bytes after the id, otherwise None; a reader exception propagates |
| Commands.GetFwVersion | vesc.py:186-199 | sends the FW_VERSION frame and returns the version reply of what the reader decodes |
| Commands.IsVescParked | vesc.py:238-260 | sends the GET_PARKED_STATUS frame and returns the parked reply of what the reader decodes |
| Commands.SetMotorCurrentLimit | vesc.py:262-300 | sends the 17-byte payload framed and succeeds exactly when the reply is accepted; sends nothing and fails when a value does not pack |
| Commands.SetDutyCycle | vesc.py:168-178 | sends the SET_DUTY frame of the clamped duty, and nothing when the value does not pack |
| Commands.AdcReply | vesc.py:151-154 | raises exactly on a reader exception or an echoed reply shorter than 3 bytes; None exactly for a missing or foreign reply; otherwise the two bytes after the id |
| Commands.ValuesReply | vesc.py:142-145 | None exactly for a missing or foreign reply; on an echoed reply, the outcome of parsing the bytes after the id; a reader exception raises |
| Commands.FwReply | vesc.py:194-199 | raises exactly on a reader exception or an echoed reply shorter than 3 bytes; "unknown" exactly for a missing or foreign reply; otherwise "major.minor" of the two bytes after the id |
| Commands.ParkedReply | vesc.py:246-257 | a flag exactly when the reply echoes 202 and holds a second byte; True exactly when that byte is non-zero |
| Commands.MotorLimitsAccepted | vesc.py:281-298 | accepted exactly when a reply arrived, echoes 203 and carries at least the 12 bytes of three floats after the id |
| Commands.AdcOfFrame | vesc.py:146-154 | a framed reply gives the two bytes after id 204, None for another id, and raises when it is too short |
| Commands.FwOfFrame | vesc.py:186-199 | a framed reply gives "unknown" exactly when it does not echo id 0, raises when fewer than two bytes follow the id, and otherwise gives "major.minor" from the two bytes after it |
| Commands.ParkedOfFrame | vesc.py:238-260 | a framed reply gives a flag exactly when it echoes id 202 and holds the flag byte; the flag is that byte being non-zero |
| Commands.ValuesOfFrame | vesc.py:136-145 | a framed GET_VALUES reply carrying packed fields gives their scaled values |
| Commands.MotorLimitsOfFrame | vesc.py:277-298 | a framed reply is accepted exactly when it echoes id 203 and holds at least 13 bytes |
| Utils.Round2 | utils.py:11 | the rounded speed is within 0.005 of the exact value and a whole number of hundredths |
| Utils.CalculateSpeed | utils.py:6-11 | 0 below 1000 rpm; otherwise raises exactly for a gear ratio of 0, and else is within 0.005 of rpm·circumference/ratio·60/1000, in whole hundredths |
| Utils.ThrottlePercentage | utils.py:13-15 | raises exactly for a maximum current of 0; otherwise lies in [0, 100], is the raw share inside that range, and 100 or 0 outside it |
| Utils.ThrottleMonotone | utils.py:13-15 | more input current never gives less throttle |
| Utils.ParkFlag.constructor | utils.py:5 | the flag starts as None |
| Utils.ParkFlag.ParkBike | utils.py:22-39 | sends the PARK_MODE frame, reads one byte, and succeeds and records parked exactly when that byte is 200; otherwise the flag is unchanged |
| Utils.ParkFlag.UnparkBike | utils.py:42-57 | sends the PARK_UNLOCK frame, reads one byte, and succeeds and records not parked exactly when that byte is 201; otherwise the flag is unchanged |
| Utils.ParkFlag.ParkBikeFramed | utils.py:22-39 | the park command with the reply read as a frame: succeeds exactly when the payload echoes 200 |
| Utils.ParkFlag.UnparkBikeFramed | utils.py:42-57 | the unpark command with the reply read as a frame: succeeds exactly when the payload echoes 201 |
| Utils.FramedReplyRejectedAsWritten | utils.py:28-29 | a reply in frame format never passes the raw first-byte check |
| Utils.FramedReplyAccepted | utils.py:28-29 | read as a frame, a reply passes exactly when its payload starts with the command id; the echoed command always does |

## Left out

- Opening the serial port is not modelled. This covers `vesc_serial` and a port that fails to open, which makes the next write raise AttributeError.
  - Each command is given a link that is already open.
  - The read timeout is the end of `input`.
- Every `print` is left out.
- `index.py` (web and websocket handlers, concurrency), `modules/clutch.py` (a stub) and `config.py` (port settings) are not part of this model.
- `set_battery_cut` is left out: it calls the `struct` module itself, so it always raises, catches the error and returns False without sending anything.
- `set_current` is left out: it uses an undefined `serial_con` and always raises.
- `set_max_current_limit` is left out: it sends a bare float with no command id.
- `set_rpm` and `disable_input` are left out: they only print or write without reading anything back.
- IEEE-754 single precision is not modelled.
  - The '>f' packing (`struct.pack`) is the parameter `pack`. It returns None where struct raises (a value too large for a float).
  - Python's float arithmetic is exact real arithmetic. That covers the scale factors, the duty cap, the speed formula and the clamps.
- Utils.CalculateSpeed: the default argument `gear_ratio=1` is not a separate member; the default call is `CalculateSpeed(rpm, c, 1.0)`.
- Utils.Round2: rounds the exact real half to even. Python's `round` works on the binary double, so results can differ at ties that are not exactly representable.
- Telemetry.ParseGetValues: the ADC, parked-status and firmware queries it makes are parameters holding their outcomes. Their order relative to the field unpacks, and the frames they exchange, are not modelled.
- Commands.MotorLimitsAccepted: the `isinstance(response[0], bytes)` test never holds for a bytes reply and is dropped. The three floats of the reply always unpack and are only printed.
- Frame.DecodeBody: its own contract states only the consumption bound. Its meaning is stated by Frame.BodyRoundTrip, Frame.AcceptedBody and the corruption lemmas.
- Frame.FrameRoundTrip: payloads of 65536 bytes or more are not covered. The two-byte length keeps only the low 16 bits, as the source's masking does, so their frames do not read back.

## Findings

| source | as written | input that shows it | evidently intended | confidence | as-written member | corrected member |
|---|---|---|---|---|---|---|
| utils.py:28-29 | park_bike and unpark_bike read one raw byte and compare it with the command id | the controller answers PARK_MODE with the frame 02 01 C8 58 44 03: the byte read is 2, so the call returns False and `parked` is not set | read the reply with the frame reader, as every other command does, and compare the payload's first byte with the id | medium (the firmware's reply format is not in the repository); not executed | Utils.FramedReplyRejectedAsWritten | Utils.FramedReplyAccepted |
