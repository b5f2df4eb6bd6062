/** The controller commands: the frame each one sends, the check of the
    reply's first byte against the command id, and what the caller is given.
    A reply is read with the frame reader; an exception the reader raises
    either reaches the caller or is caught, as each command does. */
module Commands {
  import opened Bytes
  import opened Serial
  import opened Frame
  import opened Telemetry

  const FwVersionId: byte := 0
  const GetValuesId: byte := 4
  const SetDutyId: byte := 5
  const GetParkedStatusId: byte := 202
  const SetMotorLimitsId: byte := 203
  const GetAdcValuesId: byte := 204

  /** The reader returned a non-empty payload whose first byte is id: the
      source's `payload and payload[0] == id`. */
  predicate Echoes(o: ReadOutcome, id: byte)
  {
    o.Received? && |o.payload| > 0 && o.payload[0] == id
  }

  /** `get_adc_values` after the reply is read: the two bytes after the id,
      None for a missing or foreign reply, and an IndexError when the reply
      is the id alone or the id and one byte. */
  function AdcReply(o: ReadOutcome): (r: Call<Option<AdcPair>>)
    ensures r.Raised? <==> o.ShortRead? || (Echoes(o, GetAdcValuesId) && |o.payload| < 3)
    ensures r == Returned(None) <==> !o.ShortRead? && !Echoes(o, GetAdcValuesId)
    ensures r.Returned? && r.value.Some? ==>
              Echoes(o, GetAdcValuesId) && r.value.value == AdcPair(o.payload[1], o.payload[2])
  {
    if o.ShortRead? then Raised
    else if !Echoes(o, GetAdcValuesId) then Returned(None)
    else if |o.payload| < 3 then Raised
    else Returned(Some(AdcPair(o.payload[1], o.payload[2])))
  }

  /** `get_vesc_values` after the reply is read: the telemetry decoded from
      the bytes after the id, or None for a missing or foreign reply. */
  function ValuesReply(o: ReadOutcome, adc: Call<Option<AdcPair>>, parked: Option<bool>, fw: Call<string>)
    : (r: Call<Option<Values>>)
    ensures r == Returned(None) <==> !o.ShortRead? && !Echoes(o, GetValuesId)
    ensures r.Raised? <==> o.ShortRead? || (Echoes(o, GetValuesId) && GetValues(o.payload[1..], adc, parked, fw).Raised?)
    ensures r.Returned? && r.value.Some? ==>
              Echoes(o, GetValuesId) && GetValues(o.payload[1..], adc, parked, fw) == Returned(r.value.value)
  {
    if o.ShortRead? then Raised
    else if !Echoes(o, GetValuesId) then Returned(None)
    else match GetValues(o.payload[1..], adc, parked, fw)
      case Raised => Raised
      case Returned(v) => Returned(Some(v))
  }

  /** `Vesc`: the telemetry, with every exception turned into None. */
  function VescReading(o: ReadOutcome, adc: Call<Option<AdcPair>>, parked: Option<bool>, fw: Call<string>)
    : (r: Option<Values>)
    ensures ValuesReply(o, adc, parked, fw) == Returned(r) || (ValuesReply(o, adc, parked, fw).Raised? && r.None?)
  {
    match ValuesReply(o, adc, parked, fw)
    case Raised => None
    case Returned(v) => v
  }

  /** One decimal digit. */
  function Digit(d: nat): (c: char)
    requires d < 10
    ensures '0' <= c <= '9'
  {
    ('0' as int + d) as char
  }

  /** The value of one decimal digit. */
  function DigitValue(c: char): int
  {
    c as int - '0' as int
  }

  /** Python's `str` of a non-negative int: decimal digits, no leading zero. */
  function Decimal(n: nat): (s: string)
    ensures |s| >= 1
    ensures forall i :: 0 <= i < |s| ==> '0' <= s[i] <= '9'
  {
    if n < 10 then [Digit(n)] else Decimal(n / 10) + [Digit(n % 10)]
  }

  /** Reading a string of decimal digits back as a number. */
  function DecimalValue(s: string): int
  {
    if s == [] then 0 else DecimalValue(s[..|s| - 1]) * 10 + DigitValue(s[|s| - 1])
  }

  /** The decimal string reads back as the number it was made from. */
  lemma {:induction false} DecimalRoundTrip(n: nat)
    ensures DecimalValue(Decimal(n)) == n
  {
    var s := Decimal(n);
    if n >= 10 {
      DecimalRoundTrip(n / 10);
      assert s[..|s| - 1] == Decimal(n / 10);
    }
  }

  /** The version string `f"{major}.{minor}"`. */
  function FwString(major: byte, minor: byte): (s: string)
    ensures |s| >= 3
    ensures forall i :: 0 <= i < |s| ==> (s[i] == '.' <==> i == |Decimal(major)|)
    ensures forall i :: 0 <= i < |s| && i != |Decimal(major)| ==> '0' <= s[i] <= '9'
  {
    Decimal(major) + "." + Decimal(minor)
  }

  /** The version string is never the placeholder "unknown", and it
      determines both numbers. */
  lemma FwStringUnambiguous(a: byte, b: byte, c: byte, d: byte)
    ensures FwString(a, b) != "unknown"
    ensures FwString(a, b) == FwString(c, d) ==> a == c && b == d
  {
    var s := FwString(a, b);
    var da, dc := Decimal(a), Decimal(c);
    assert s[|da|] == '.';
    assert "unknown"[0] == 'u';
    if s == FwString(c, d) {
      assert s[|dc|] == '.';
      if |da| < |dc| {
        assert false;
      } else if |dc| < |da| {
        assert false;
      }
      assert da == s[..|da|] == dc;
      assert Decimal(b) == s[|da| + 1..] == Decimal(d);
      DecimalRoundTrip(a);
      DecimalRoundTrip(c);
      DecimalRoundTrip(b);
      DecimalRoundTrip(d);
    }
  }

  /** `get_vecs_fw_version` after the reply is read: "major.minor" from the
      two bytes after the id, "unknown" for a missing or foreign reply, and
      an IndexError when the reply is too short to hold both numbers. */
  function FwReply(o: ReadOutcome): (r: Call<string>)
    ensures r.Raised? <==> o.ShortRead? || (Echoes(o, FwVersionId) && |o.payload| < 3)
    ensures r == Returned("unknown") <==> !o.ShortRead? && !Echoes(o, FwVersionId)
    ensures r.Returned? && Echoes(o, FwVersionId) ==> r.value == FwString(o.payload[1], o.payload[2])
  {
    if o.ShortRead? then Raised
    else if !Echoes(o, FwVersionId) then Returned("unknown")
    else if |o.payload| < 3 then Raised
    else
      FwStringUnambiguous(o.payload[1], o.payload[2], 0, 0);
      Returned(FwString(o.payload[1], o.payload[2]))
  }

  /** `is_vesc_parked` after the reply is read: whether the byte after the
      id is non-zero; every failure, an exception included, gives None. */
  function ParkedReply(o: ReadOutcome): (r: Option<bool>)
    ensures r.Some? <==> Echoes(o, GetParkedStatusId) && |o.payload| >= 2
    ensures r == Some(true) <==> Echoes(o, GetParkedStatusId) && |o.payload| >= 2 && o.payload[1] != 0
  {
    if !Echoes(o, GetParkedStatusId) || |o.payload| < 2 then None
    else Some(o.payload[1] != 0)
  }

  /** `set_motor_current_limit` after the reply is read: success needs a
      reply of at least 13 bytes whose first byte is the command id; the
      three floats after it always unpack. */
  function MotorLimitsAccepted(o: ReadOutcome): (r: bool)
    ensures r <==> Echoes(o, SetMotorLimitsId) && |o.payload[1..]| >= 12
    ensures r ==> o.Received?
  {
    o.Received? && |o.payload| >= 13 && o.payload[0] == SetMotorLimitsId
  }

  /** A float packed as '>f'. */
  type Word = s: seq<byte> | |s| == 4 witness [0, 0, 0, 0]

  /** The COMM_SET_MOTOR_LIMITS payload, '>Bffff': the id, the motor
      current, the battery current, the field-weakening current and 0.0. */
  function MotorLimitsPayload(motor: Word, battery: Word, fieldWeakening: Word, zero: Word): (p: seq<byte>)
    ensures |p| == 17 && p[0] == SetMotorLimitsId
    ensures p[1..5] == motor && p[5..9] == battery && p[9..13] == fieldWeakening && p[13..] == zero
  {
    [SetMotorLimitsId] + motor + battery + fieldWeakening + zero
  }

  /** The duty cycle the source sends: the requested one clamped to [0, 1]. */
  function ClampDuty(duty: real): (r: real)
    ensures 0.0 <= r <= 1.0
    ensures 0.0 <= duty <= 1.0 ==> r == duty
    ensures duty < 0.0 ==> r == 0.0
    ensures duty > 1.0 ==> r == 1.0
  {
    if duty < 0.0 then 0.0 else if duty > 1.0 then 1.0 else duty
  }

  /** Clamping never reverses the order of two requests. */
  lemma ClampMonotone(a: real, b: real)
    requires a <= b
    ensures ClampDuty(a) <= ClampDuty(b)
  {
  }

  /** The source's `get_adc_values` on a serial link. */
  method GetAdcValues(link: SerialLink) returns (r: Call<Option<AdcPair>>)
    modifies link
    ensures link.written == old(link.written) + [EncodeFrame([GetAdcValuesId])]
    ensures r == AdcReply(DecodeFrame(old(link.input)).outcome)
    ensures link.input == old(link.input)[DecodeFrame(old(link.input)).consumed..]
  {
    link.Write(BuildPacket(GetAdcValuesId));
    var payload := ReadPacket(link);
    return AdcReply(payload);
  }

  /** The source's `get_vesc_values` on a serial link, given what the three
      queries made while decoding return. */
  method GetVescValues(link: SerialLink, adc: Call<Option<AdcPair>>, parked: Option<bool>, fw: Call<string>)
    returns (r: Call<Option<Values>>)
    modifies link
    ensures link.written == old(link.written) + [EncodeFrame([GetValuesId])]
    ensures r == ValuesReply(DecodeFrame(old(link.input)).outcome, adc, parked, fw)
    ensures link.input == old(link.input)[DecodeFrame(old(link.input)).consumed..]
  {
    link.Write(BuildPacket(GetValuesId));
    var payload := ReadPacket(link);
    if payload.ShortRead? {
      return Raised;
    }
    if payload.Received? && |payload.payload| > 0 && payload.payload[0] == GetValuesId {
      var values :- ParseGetValues(payload.payload[1..], adc, parked, fw);
      return Returned(Some(values));
    }
    return Returned(None);
  }

  /** The source's `get_vecs_fw_version` on a serial link. */
  method GetFwVersion(link: SerialLink) returns (r: Call<string>)
    modifies link
    ensures link.written == old(link.written) + [EncodeFrame([FwVersionId])]
    ensures r == FwReply(DecodeFrame(old(link.input)).outcome)
    ensures link.input == old(link.input)[DecodeFrame(old(link.input)).consumed..]
  {
    var packet := CreateVescPacket([FwVersionId]);
    link.Write(packet);
    var response := ReadPacket(link);
    return FwReply(response);
  }

  /** The source's `is_vesc_parked` on a serial link. */
  method IsVescParked(link: SerialLink) returns (r: Option<bool>)
    modifies link
    ensures link.written == old(link.written) + [EncodeFrame([GetParkedStatusId])]
    ensures r == ParkedReply(DecodeFrame(old(link.input)).outcome)
    ensures link.input == old(link.input)[DecodeFrame(old(link.input)).consumed..]
  {
    link.Write(BuildPacket(GetParkedStatusId));
    var payload := ReadPacket(link);
    return ParkedReply(payload);
  }

  /** The source's `set_motor_current_limit`. `pack` is struct's '>f'
      packing, None where struct raises (a value too large for a float);
      then nothing is sent and the result is False. */
  method SetMotorCurrentLimit(link: SerialLink, pack: real -> Option<Word>,
                              motorCurrent: real, batteryCurrent: real, fieldWeakening: real)
    returns (ok: bool)
    modifies link
    ensures var m, b, f, z := pack(motorCurrent), pack(batteryCurrent), pack(fieldWeakening), pack(0.0);
            if m.Some? && b.Some? && f.Some? && z.Some? then
              link.written == old(link.written) + [EncodeFrame(MotorLimitsPayload(m.value, b.value, f.value, z.value))] &&
              ok == MotorLimitsAccepted(DecodeFrame(old(link.input)).outcome) &&
              link.input == old(link.input)[DecodeFrame(old(link.input)).consumed..]
            else
              !ok && link.written == old(link.written) && link.input == old(link.input)
  {
    var m, b, f, z := pack(motorCurrent), pack(batteryCurrent), pack(fieldWeakening), pack(0.0);
    if m.None? || b.None? || f.None? || z.None? {
      return false;
    }
    var payload := MotorLimitsPayload(m.value, b.value, f.value, z.value);
    var packet := CreateVescPacket(payload);
    link.Write(packet);
    var response := ReadPacket(link);
    ok := MotorLimitsAccepted(response);
  }

  /** The source's `set_duty_cycle`: clamp, pack '>Bf', frame and write. */
  method SetDutyCycle(link: SerialLink, pack: real -> Option<Word>, duty: real)
    modifies link
    ensures var w := pack(ClampDuty(duty));
            link.written == old(link.written) + (if w.Some? then [EncodeFrame([SetDutyId] + w.value)] else [])
    ensures link.input == old(link.input)
  {
    var clamped := ClampDuty(duty);
    var w := pack(clamped);
    if w.None? {
      return;
    }
    var packet := CreateVescPacket([SetDutyId] + w.value);
    link.Write(packet);
  }

  /** The ADC query answered with a well-formed frame. */
  lemma AdcOfFrame(p: seq<byte>, rest: seq<byte>)
    requires |p| < 65536
    ensures var r := AdcReply(DecodeFrame(EncodeFrame(p) + rest).outcome);
            (|p| == 0 || p[0] != GetAdcValuesId ==> r == Returned(None)) &&
            (|p| > 0 && p[0] == GetAdcValuesId && |p| < 3 ==> r == Raised) &&
            (|p| >= 3 && p[0] == GetAdcValuesId ==> r == Returned(Some(AdcPair(p[1], p[2]))))
  {
    FrameRoundTrip(p, rest);
  }

  /** The firmware query answered with a well-formed frame: "unknown"
      exactly when it does not echo the id, an IndexError when fewer than
      two bytes follow the id, and otherwise the version string. */
  lemma FwOfFrame(p: seq<byte>, rest: seq<byte>)
    requires |p| < 65536
    ensures var r := FwReply(DecodeFrame(EncodeFrame(p) + rest).outcome);
            (r == Returned("unknown") <==> |p| == 0 || p[0] != FwVersionId) &&
            (|p| > 0 && p[0] == FwVersionId && |p| < 3 ==> r == Raised) &&
            (|p| >= 3 && p[0] == FwVersionId ==> r == Returned(FwString(p[1], p[2])))
  {
    FrameRoundTrip(p, rest);
    if |p| >= 3 {
      FwStringUnambiguous(p[1], p[2], 0, 0);
    }
  }

  /** The parked-status query answered with a well-formed frame. */
  lemma ParkedOfFrame(p: seq<byte>, rest: seq<byte>)
    requires |p| < 65536
    ensures var r := ParkedReply(DecodeFrame(EncodeFrame(p) + rest).outcome);
            r.Some? <==> |p| >= 2 && p[0] == GetParkedStatusId
    ensures var r := ParkedReply(DecodeFrame(EncodeFrame(p) + rest).outcome);
            r.Some? ==> r.value == (p[1] != 0)
  {
    FrameRoundTrip(p, rest);
  }

  /** The telemetry query answered with a well-formed frame that carries
      packed fields: the caller gets them at their scale factors. */
  lemma ValuesOfFrame(raw: seq<int>, extra: seq<byte>, rest: seq<byte>, adc: AdcPair, parked: Option<bool>, fw: string)
    requires Fits(raw) && 1 + ValuesSize + |extra| < 65536
    ensures var p := [GetValuesId] + EncodeRaw(raw) + extra;
            ValuesReply(DecodeFrame(EncodeFrame(p) + rest).outcome, Returned(Some(adc)), parked, Returned(fw))
              == Returned(Some(Scale(raw, adc, parked, fw)))
  {
    var body := EncodeRaw(raw);
    var p := [GetValuesId] + body + extra;
    assert |p| == 1 + ValuesSize + |extra|;
    FrameRoundTrip(p, rest);
    assert DecodeFrame(EncodeFrame(p) + rest).outcome == Received(p);
    DropHead(GetValuesId, body, extra);
    ValuesRoundTrip(raw, extra, adc, parked, fw);
    assert Echoes(Received(p), GetValuesId);
  }

  lemma DropHead(x: byte, a: seq<byte>, b: seq<byte>)
    ensures ([x] + a + b)[1..] == a + b
  {
  }

  /** The motor-limits command answered with a well-formed frame succeeds
      exactly when the frame echoes the id and has at least 13 bytes. */
  lemma MotorLimitsOfFrame(p: seq<byte>, rest: seq<byte>)
    requires |p| < 65536
    ensures MotorLimitsAccepted(DecodeFrame(EncodeFrame(p) + rest).outcome)
        <==> |p| >= 13 && p[0] == SetMotorLimitsId
  {
    FrameRoundTrip(p, rest);
  }
}
