/** The bike-side helpers: speed from motor rpm, throttle percentage from
    the input current, and parking the bike through the controller, which
    records the outcome in a module-wide flag. */
module Utils {
  import opened Bytes
  import opened Serial
  import opened Frame
  import opened Commands

  const ParkModeId: byte := 200
  const ParkUnlockId: byte := 201

  /** Motor speeds below this many rpm count as idle. */
  const IdleRpm: real := 1000.0

  /** `round(x, 2)` on exact reals: the nearest multiple of 0.01, ties going
      to the even multiple. */
  function Round2(x: real): (r: real)
    ensures -0.005 <= r - x <= 0.005
    ensures (r * 100.0).Floor as real == r * 100.0
  {
    var n := (x * 100.0).Floor;
    var frac := x * 100.0 - n as real;
    var m := if frac > 0.5 then n + 1 else if frac < 0.5 then n else if n % 2 == 0 then n else n + 1;
    assert (m as real / 100.0) * 100.0 == m as real;
    m as real / 100.0
  }

  /** The source's `calculate_speed`: 0 when idle, otherwise rpm times the
      wheel circumference over the gear ratio, in metres per minute,
      converted to km/h and rounded to two decimals; a gear ratio of 0
      raises ZeroDivisionError unless the motor is idle. The source's
      default gear ratio of 1 is the call `CalculateSpeed(rpm, c, 1.0)`. */
  function CalculateSpeed(rpm: real, wheelCircumference: real, gearRatio: real): (r: Call<real>)
    ensures rpm < IdleRpm ==> r == Returned(0.0)
    ensures rpm >= IdleRpm ==> (r.Raised? <==> gearRatio == 0.0)
    ensures rpm >= IdleRpm && r.Returned? ==>
              var exact := rpm * wheelCircumference / gearRatio * 60.0 / 1000.0;
              -0.005 <= r.value - exact <= 0.005 && (r.value * 100.0).Floor as real == r.value * 100.0
  {
    if rpm < IdleRpm then Returned(0.0)
    else if gearRatio == 0.0 then Raised
    else
      var speed := rpm * wheelCircumference / gearRatio;
      var speedKmh := speed * 60.0 / 1000.0;
      Returned(Round2(speedKmh))
  }

  /** The throttle as a share of the maximum current, before clamping. */
  function RawThrottle(currentIn: real, maxCurrent: real): real
    requires maxCurrent != 0.0
  {
    currentIn / maxCurrent * 100.0
  }

  /** The source's `calculate_throttle_percentage`: the share clamped to
      [0, 100]; a maximum current of 0 raises ZeroDivisionError. */
  function ThrottlePercentage(currentIn: real, maxCurrent: real): (r: Call<real>)
    ensures r.Raised? <==> maxCurrent == 0.0
    ensures r.Returned? ==> 0.0 <= r.value <= 100.0
    ensures r.Returned? && 0.0 <= RawThrottle(currentIn, maxCurrent) <= 100.0 ==>
              r.value == RawThrottle(currentIn, maxCurrent)
    ensures r.Returned? && RawThrottle(currentIn, maxCurrent) > 100.0 ==> r.value == 100.0
    ensures r.Returned? && RawThrottle(currentIn, maxCurrent) < 0.0 ==> r.value == 0.0
  {
    if maxCurrent == 0.0 then Raised
    else
      var rawThrottle := currentIn / maxCurrent * 100.0;
      Returned(MaxReal(MinReal(rawThrottle, 100.0), 0.0))
  }

  /** More input current never gives less throttle. */
  lemma ThrottleMonotone(a: real, b: real, maxCurrent: real)
    requires a <= b && maxCurrent > 0.0
    ensures ThrottlePercentage(a, maxCurrent).value <= ThrottlePercentage(b, maxCurrent).value
  {
    assert a / maxCurrent <= b / maxCurrent by {
      assert b / maxCurrent - a / maxCurrent == (b - a) / maxCurrent;
    }
  }

  /** The first byte read back is id: the source's `response and
      response[0] == id` on a one-byte read. */
  predicate FirstByteIs(s: seq<byte>, id: byte)
  {
    |s| > 0 && s[0] == id
  }

  /** The module-wide `parked` flag: None until a park or unpark command is
      confirmed. */
  class ParkFlag {
    var parked: Option<bool>

    constructor ()
      ensures parked == None
    {
      parked := None;
    }

    /** The source's `park_bike`: send the PARK_MODE frame, read one byte,
        and record the bike as parked when that byte is the command id. */
    method ParkBike(link: SerialLink) returns (ok: bool)
      modifies this, link
      ensures link.written == old(link.written) + [EncodeFrame([ParkModeId])]
      ensures link.input == old(link.input)[Min(1, |old(link.input)|)..]
      ensures ok == FirstByteIs(old(link.input), ParkModeId)
      ensures parked == if ok then Some(true) else old(parked)
    {
      var packet := CreateVescPacket([ParkModeId]);
      link.Write(packet);
      var response := link.Read(1);
      if |response| > 0 && response[0] == ParkModeId {
        parked := Some(true);
        return true;
      }
      return false;
    }

    /** The source's `unpark_bike`: the same with PARK_UNLOCK, recording the
        bike as not parked. */
    method UnparkBike(link: SerialLink) returns (ok: bool)
      modifies this, link
      ensures link.written == old(link.written) + [EncodeFrame([ParkUnlockId])]
      ensures link.input == old(link.input)[Min(1, |old(link.input)|)..]
      ensures ok == FirstByteIs(old(link.input), ParkUnlockId)
      ensures parked == if ok then Some(false) else old(parked)
    {
      var packet := CreateVescPacket([ParkUnlockId]);
      link.Write(packet);
      var response := link.Read(1);
      if |response| > 0 && response[0] == ParkUnlockId {
        parked := Some(false);
        return true;
      }
      return false;
    }

    /** `park_bike` reading the reply as a frame, as every other command
        does: the bike is recorded as parked when the reply's payload starts
        with the command id; a reply cut short counts as a failure. */
    method ParkBikeFramed(link: SerialLink) returns (ok: bool)
      modifies this, link
      ensures link.written == old(link.written) + [EncodeFrame([ParkModeId])]
      ensures link.input == old(link.input)[DecodeFrame(old(link.input)).consumed..]
      ensures ok == Echoes(DecodeFrame(old(link.input)).outcome, ParkModeId)
      ensures parked == if ok then Some(true) else old(parked)
    {
      var packet := CreateVescPacket([ParkModeId]);
      link.Write(packet);
      var response := ReadPacket(link);
      if Echoes(response, ParkModeId) {
        parked := Some(true);
        return true;
      }
      return false;
    }

    /** `unpark_bike` reading the reply as a frame. */
    method UnparkBikeFramed(link: SerialLink) returns (ok: bool)
      modifies this, link
      ensures link.written == old(link.written) + [EncodeFrame([ParkUnlockId])]
      ensures link.input == old(link.input)[DecodeFrame(old(link.input)).consumed..]
      ensures ok == Echoes(DecodeFrame(old(link.input)).outcome, ParkUnlockId)
      ensures parked == if ok then Some(false) else old(parked)
    {
      var packet := CreateVescPacket([ParkUnlockId]);
      link.Write(packet);
      var response := ReadPacket(link);
      if Echoes(response, ParkUnlockId) {
        parked := Some(false);
        return true;
      }
      return false;
    }
  }

  /** As written, a reply in the controller's own frame format is never
      accepted: its first byte is a start byte, 2 or 3, never 200 or 201. */
  lemma FramedReplyRejectedAsWritten(p: seq<byte>, rest: seq<byte>)
    ensures !FirstByteIs(EncodeFrame(p) + rest, ParkModeId)
    ensures !FirstByteIs(EncodeFrame(p) + rest, ParkUnlockId)
  {
    var f := EncodeFrame(p) + rest;
    assert f[0] == Header(p)[0];
  }

  /** Reading the reply as a frame accepts exactly the frames whose payload
      starts with the command id; in particular the echo of the command. */
  lemma FramedReplyAccepted(p: seq<byte>, rest: seq<byte>)
    requires |p| < 65536
    ensures Echoes(DecodeFrame(EncodeFrame(p) + rest).outcome, ParkModeId) <==> |p| > 0 && p[0] == ParkModeId
    ensures Echoes(DecodeFrame(EncodeFrame(p) + rest).outcome, ParkUnlockId) <==> |p| > 0 && p[0] == ParkUnlockId
    ensures Echoes(DecodeFrame(EncodeFrame([ParkModeId]) + rest).outcome, ParkModeId)
  {
    FrameRoundTrip(p, rest);
    FrameRoundTrip([ParkModeId], rest);
  }
}
