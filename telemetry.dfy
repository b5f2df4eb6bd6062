/** The reply to COMM_GET_VALUES: fifteen signed big-endian fields at fixed
    offsets (52 bytes in all), scaled to engineering units, together with the
    ADC reading, the parked flag and the firmware version, which the decoder
    fetches from the controller while it decodes. */
module Telemetry {
  import opened Bytes

  /** Number of fields and number of bytes they occupy. */
  const FieldCount: nat := 15
  const ValuesSize: nat := 52

  /** Width in bytes of field k: the two temperatures, the duty cycle and the
      input voltage are '>h' (2 bytes), every other field is '>i' (4 bytes). */
  function Width(k: nat): (w: nat)
    requires k < FieldCount
    ensures w == 2 || w == 4
  {
    if k == 0 || k == 1 || k == 6 || k == 8 then 2 else 4
  }

  /** Where field k starts: the cursor after the k fields before it. */
  function Offset(k: nat): nat
    requires k <= FieldCount
  {
    if k == 0 then 0 else Offset(k - 1) + Width(k - 1)
  }

  /** The cursor advances by the width of the field it passes. */
  lemma OffsetNext(k: nat)
    requires k < FieldCount
    ensures Offset(k + 1) == Offset(k) + Width(k)
  {
  }

  /** Where each field starts, written out; the last entry is the end of the
      last field. */
  lemma OffsetTable()
    ensures Offset(0) == 0 && Offset(1) == 2 && Offset(2) == 4 && Offset(3) == 8
    ensures Offset(4) == 12 && Offset(5) == 16 && Offset(6) == 20 && Offset(7) == 22
    ensures Offset(8) == 26 && Offset(9) == 28 && Offset(10) == 32 && Offset(11) == 36
    ensures Offset(12) == 40 && Offset(13) == 44 && Offset(14) == 48 && Offset(15) == 52
  {
  }

  /** The fields end at byte 52. */
  lemma OffsetEnd()
    ensures Offset(FieldCount) == ValuesSize
  {
    OffsetTable();
  }

  /** Every offset lies within the body. */
  lemma {:induction false} OffsetBound(k: nat)
    requires k <= FieldCount
    ensures Offset(k) <= ValuesSize
    decreases FieldCount - k
  {
    if k < FieldCount {
      OffsetBound(k + 1);
      OffsetNext(k);
    } else {
      OffsetEnd();
    }
  }

  /** `struct.unpack(fmt, data[i:i+size])[0]` for a signed format: a slice
      shorter than the format makes struct raise. */
  function Unpack(data: seq<byte>, i: nat, size: nat): (r: Call<int>)
    ensures r.Returned? <==> i + size <= |data|
  {
    if i + size <= |data| then Returned(SInt(data[i..i + size])) else Raised
  }

  /** Field k of a reply that holds all of them. */
  function RawField(data: seq<byte>, k: nat): int
    requires k < FieldCount && |data| >= ValuesSize
  {
    OffsetBound(k + 1);
    SInt(data[Offset(k)..Offset(k + 1)])
  }

  /** The fifteen raw fields, in order. */
  function RawFields(data: seq<byte>): (r: seq<int>)
    requires |data| >= ValuesSize
    ensures |r| == FieldCount
  {
    seq(FieldCount, k requires 0 <= k < FieldCount => RawField(data, k))
  }

  /** The fields at their offsets, written out. */
  lemma RawFieldsLayout(data: seq<byte>)
    requires |data| >= ValuesSize
    ensures RawFields(data) == [
      SInt(data[0..2]), SInt(data[2..4]), SInt(data[4..8]), SInt(data[8..12]),
      SInt(data[12..16]), SInt(data[16..20]), SInt(data[20..22]), SInt(data[22..26]),
      SInt(data[26..28]), SInt(data[28..32]), SInt(data[32..36]), SInt(data[36..40]),
      SInt(data[40..44]), SInt(data[44..48]), SInt(data[48..52])]
  {
    OffsetTable();
  }

  /** The two ADC channels `get_adc_values` returns. */
  datatype AdcPair = AdcPair(adc1: byte, adc2: byte)

  /** The dictionary `parse_get_values` builds. */
  datatype Values = Values(
    tempMosfet: real,
    tempMotor: real,
    currentMotor: real,
    currentBattery: real,
    id: real,
    iq: real,
    dutyCycle: real,
    rpm: int,
    vIn: real,
    ampHours: real,
    ampHoursCharged: real,
    wattHours: real,
    wattHoursCharged: real,
    tachometer: int,
    tachometerAbs: int,
    adc1: byte,
    adc2: byte,
    isParked: Option<bool>,
    vescFw: string)

  /** The duty cycle the controller reports in thousandths, capped at 1.0
      and scaled to 90 %. */
  function DutyCycle(raw: int): (r: real)
    ensures r <= 0.9
    ensures raw <= 1000 ==> r == raw as real * 0.0009
    ensures raw >= 1000 ==> r == 0.9
  {
    MinReal(raw as real / 1000.0, 1.0) * 0.9
  }

  /** The scale factors applied to the raw fields; the contract reads each
      raw field back from the value it became. */
  function Scale(raw: seq<int>, adc: AdcPair, parked: Option<bool>, fw: string): (v: Values)
    requires |raw| == FieldCount
    ensures v.tempMosfet * 10.0 == raw[0] as real && v.tempMotor * 10.0 == raw[1] as real
    ensures v.currentMotor * 100.0 == raw[2] as real && v.currentBattery * 100.0 == raw[3] as real
    ensures v.id * 100.0 == raw[4] as real && v.iq * 100.0 == raw[5] as real
    ensures v.dutyCycle == DutyCycle(raw[6]) && v.rpm == raw[7]
    ensures (v.vIn - 0.5) * 10.0 == raw[8] as real
    ensures v.ampHours * 1000.0 == raw[9] as real && v.ampHoursCharged * 1000.0 == raw[10] as real
    ensures v.wattHours * 10000.0 == raw[11] as real && v.wattHoursCharged * 10000.0 == raw[12] as real
    ensures v.tachometer == raw[13] && v.tachometerAbs == raw[14]
    ensures v.adc1 == adc.adc1 && v.adc2 == adc.adc2 && v.isParked == parked && v.vescFw == fw
  {
    Values(
      raw[0] as real / 10.0,
      raw[1] as real / 10.0,
      raw[2] as real / 100.0,
      raw[3] as real / 100.0,
      raw[4] as real / 100.0,
      raw[5] as real / 100.0,
      DutyCycle(raw[6]),
      raw[7],
      raw[8] as real / 10.0 + 0.5,
      raw[9] as real / 1000.0,
      raw[10] as real / 1000.0,
      raw[11] as real / 10000.0,
      raw[12] as real / 10000.0,
      raw[13],
      raw[14],
      adc.adc1,
      adc.adc2,
      parked,
      fw)
  }

  /** What `parse_get_values` ends with, given the outcome of its calls to
      `get_adc_values`, `is_vesc_parked` and `get_vecs_fw_version`: it raises
      when the ADC query raised, when the data holds fewer than 52 bytes,
      when the ADC query returned None (indexing None) or when the firmware
      query raised. */
  function GetValues(data: seq<byte>, adc: Call<Option<AdcPair>>, parked: Option<bool>, fw: Call<string>): (r: Call<Values>)
    ensures |data| < ValuesSize || adc.Raised? || fw.Raised? || adc == Returned(None) ==> r.Raised?
    ensures r.Raised? ==> |data| < ValuesSize || adc.Raised? || fw.Raised? || adc == Returned(None)
    ensures r.Returned? ==>
              r.value.dutyCycle <= 0.9 && r.value.isParked == parked && r.value.vescFw == fw.value &&
              r.value.adc1 == adc.value.value.adc1 && r.value.adc2 == adc.value.value.adc2
  {
    if adc.Raised? || |data| < ValuesSize || adc.value.None? || fw.Raised? then Raised
    else Returned(Scale(RawFields(data), adc.value.value, parked, fw.value))
  }

  /** The fifteen unpacks of `parse_get_values`, in order, each advancing
      the cursor by the width of its field: the first one that runs past the
      data raises, so the walk raises exactly when fewer than 52 bytes
      arrived, and otherwise yields the fields at their offsets. */
  method UnpackFields(data: seq<byte>) returns (r: Call<seq<int>>)
    ensures r.Raised? <==> |data| < ValuesSize
    ensures r.Returned? ==> r.value == RawFields(data)
  {
    var i := 0;
    var tempMosfet :- Unpack(data, i, 2);
    i := i + 2;
    var tempMotor :- Unpack(data, i, 2);
    i := i + 2;
    var currentMotor :- Unpack(data, i, 4);
    i := i + 4;
    var currentBattery :- Unpack(data, i, 4);
    i := i + 4;
    var id :- Unpack(data, i, 4);
    i := i + 4;
    var iq :- Unpack(data, i, 4);
    i := i + 4;
    var dutyRaw :- Unpack(data, i, 2);
    i := i + 2;
    var rpm :- Unpack(data, i, 4);
    i := i + 4;
    var vIn :- Unpack(data, i, 2);
    i := i + 2;
    var ampHours :- Unpack(data, i, 4);
    i := i + 4;
    var ampHoursCharged :- Unpack(data, i, 4);
    i := i + 4;
    var wattHours :- Unpack(data, i, 4);
    i := i + 4;
    var wattHoursCharged :- Unpack(data, i, 4);
    i := i + 4;
    var tachometer :- Unpack(data, i, 4);
    i := i + 4;
    var tachometerAbs :- Unpack(data, i, 4);
    i := i + 4;
    RawFieldsLayout(data);
    r := Returned([tempMosfet, tempMotor, currentMotor, currentBattery, id, iq, dutyRaw, rpm,
                   vIn, ampHours, ampHoursCharged, wattHours, wattHoursCharged, tachometer, tachometerAbs]);
  }

  /** The source's `parse_get_values`: the ADC query, the fifteen unpacks,
      then the ADC pair indexed and the firmware query, in that order; the
      first exception ends it. */
  method ParseGetValues(data: seq<byte>, adc: Call<Option<AdcPair>>, parked: Option<bool>, fw: Call<string>)
    returns (r: Call<Values>)
    ensures r == GetValues(data, adc, parked, fw)
  {
    var adcValues :- adc;
    var raw :- UnpackFields(data);
    if adcValues.None? {
      return Raised;
    }
    var fwVersion :- fw;
    r := Returned(Scale(raw, adcValues.value, parked, fwVersion));
  }

  /** Every raw value fits the signed field that carries it. */
  predicate Fits(raw: seq<int>)
  {
    |raw| == FieldCount && forall k :: 0 <= k < FieldCount ==> FitsSigned(raw[k], Width(k))
  }

  /** The first k fields, packed as the controller packs them. */
  function EncodeUpTo(raw: seq<int>, k: nat): (r: seq<byte>)
    requires |raw| == FieldCount && k <= FieldCount
    ensures |r| == Offset(k)
  {
    if k == 0 then [] else EncodeUpTo(raw, k - 1) + SIntBytes(raw[k - 1], Width(k - 1))
  }

  /** The 52-byte COMM_GET_VALUES body that carries the raw fields; each
      field is taken modulo its width, which changes nothing when Fits. */
  function EncodeRaw(raw: seq<int>): (r: seq<byte>)
    requires |raw| == FieldCount
    ensures |r| == ValuesSize
  {
    OffsetEnd();
    EncodeUpTo(raw, FieldCount)
  }

  /** A slice of a concatenation that lies in its first part. */
  lemma SliceOfFirst(a: seq<byte>, b: seq<byte>, x: nat, y: nat)
    requires x <= y <= |a|
    ensures (a + b)[x..y] == a[x..y]
  {
  }

  /** The last part of a concatenation, as a slice of it. */
  lemma SliceOfLast(a: seq<byte>, b: seq<byte>)
    ensures (a + b)[|a|..|a| + |b|] == b
  {
  }

  /** The last of the first k packed fields lies at its offset. */
  lemma LastField(raw: seq<int>, k: nat)
    requires |raw| == FieldCount && 0 < k <= FieldCount
    ensures Offset(k - 1) < Offset(k)
    ensures EncodeUpTo(raw, k)[Offset(k - 1)..Offset(k)] == SIntBytes(raw[k - 1], Width(k - 1))
  {
    var front, last := EncodeUpTo(raw, k - 1), SIntBytes(raw[k - 1], Width(k - 1));
    assert EncodeUpTo(raw, k) == front + last;
    OffsetNext(k - 1);
    SliceOfLast(front, last);
  }

  /** Packing one more field leaves the bytes before it alone. */
  lemma EarlierBytes(raw: seq<int>, k: nat, lo: nat, hi: nat)
    requires |raw| == FieldCount && 0 < k <= FieldCount && lo <= hi <= Offset(k - 1)
    ensures EncodeUpTo(raw, k)[lo..hi] == EncodeUpTo(raw, k - 1)[lo..hi]
  {
    var front, last := EncodeUpTo(raw, k - 1), SIntBytes(raw[k - 1], Width(k - 1));
    assert EncodeUpTo(raw, k) == front + last;
    SliceOfFirst(front, last, lo, hi);
  }

  /** Offsets grow with the field index. */
  lemma {:induction false} OffsetMono(j: nat, k: nat)
    requires j <= k <= FieldCount
    ensures Offset(j) <= Offset(k)
    decreases k - j
  {
    if j < k {
      OffsetMono(j, k - 1);
      OffsetNext(k - 1);
    }
  }

  /** Field j lies at its offset among the first k packed fields. */
  lemma {:induction false} EncodedField(raw: seq<int>, k: nat, j: nat)
    requires |raw| == FieldCount && j < k <= FieldCount && Offset(j + 1) <= Offset(k)
    ensures EncodeUpTo(raw, k)[Offset(j)..Offset(j + 1)] == SIntBytes(raw[j], Width(j))
    decreases k
  {
    if j == k - 1 {
      LastField(raw, k);
    } else {
      OffsetNext(j);
      OffsetMono(j + 1, k - 1);
      EncodedField(raw, k - 1, j);
      var lo, hi := Offset(j), Offset(j + 1);
      EarlierBytes(raw, k, lo, hi);
      assert EncodeUpTo(raw, k)[lo..hi] == EncodeUpTo(raw, k - 1)[lo..hi];
    }
  }

  /** Field k lies at its offset in the packed body. */
  lemma PackedFieldAt(raw: seq<int>, k: nat)
    requires |raw| == FieldCount && k < FieldCount
    ensures Offset(k) < Offset(k + 1) <= ValuesSize
    ensures EncodeRaw(raw)[Offset(k)..Offset(k + 1)] == SIntBytes(raw[k], Width(k))
  {
    OffsetNext(k);
    OffsetMono(k + 1, FieldCount);
    OffsetEnd();
    EncodedField(raw, FieldCount, k);
  }

  /** Decoding the packed fields, followed by anything, gives them back. */
  lemma RawFieldsRoundTrip(raw: seq<int>, rest: seq<byte>)
    requires Fits(raw)
    ensures RawFields(EncodeRaw(raw) + rest) == raw
  {
    var encoded := EncodeRaw(raw);
    var data := encoded + rest;
    forall k | 0 <= k < FieldCount
      ensures RawFields(data)[k] == raw[k]
    {
      var lo, hi := Offset(k), Offset(k + 1);
      PackedFieldAt(raw, k);
      SliceOfFirst(encoded, rest, lo, hi);
      SIntRoundTrip(raw[k], Width(k));
      assert RawField(data, k) == raw[k];
    }
  }

  /** A COMM_GET_VALUES body the controller packed from raw fields decodes
      to those fields at their scale factors (see Scale); bytes past the 52nd
      are ignored. */
  lemma ValuesRoundTrip(raw: seq<int>, rest: seq<byte>, adc: AdcPair, parked: Option<bool>, fw: string)
    requires Fits(raw)
    ensures GetValues(EncodeRaw(raw) + rest, Returned(Some(adc)), parked, Returned(fw))
         == Returned(Scale(raw, adc, parked, fw))
  {
    RawFieldsRoundTrip(raw, rest);
  }

  /** Re-packing the first k fields read from a reply rebuilds its first
      bytes, up to the end of field k - 1. */
  lemma {:induction false} EncodeUpToOfFields(data: seq<byte>, k: nat)
    requires |data| >= ValuesSize && k <= FieldCount
    ensures Offset(k) <= |data|
    ensures EncodeUpTo(RawFields(data), k) == data[..Offset(k)]
  {
    OffsetBound(k);
    if k > 0 {
      EncodeUpToOfFields(data, k - 1);
      RepackedField(data, k - 1);
      AppendField(RawFields(data), data, k);
    }
  }

  /** Packing field k - 1 after the bytes of the fields before it extends
      them by the bytes it was read from. */
  lemma AppendField(raw: seq<int>, data: seq<byte>, k: nat)
    requires |raw| == FieldCount && 0 < k <= FieldCount
    requires Offset(k - 1) <= Offset(k) <= |data|
    requires EncodeUpTo(raw, k - 1) == data[..Offset(k - 1)]
    requires SIntBytes(raw[k - 1], Width(k - 1)) == data[Offset(k - 1)..Offset(k)]
    ensures EncodeUpTo(raw, k) == data[..Offset(k)]
  {
    PrefixSplit(data, Offset(k - 1), Offset(k));
  }

  /** Re-packing field k read from a reply rebuilds its bytes. */
  lemma RepackedField(data: seq<byte>, k: nat)
    requires |data| >= ValuesSize && k < FieldCount
    ensures Offset(k) <= Offset(k + 1) <= |data|
    ensures SIntBytes(RawFields(data)[k], Width(k)) == data[Offset(k)..Offset(k + 1)]
  {
    OffsetNext(k);
    OffsetBound(k + 1);
    var field := data[Offset(k)..Offset(k + 1)];
    assert RawFields(data)[k] == SInt(field);
    SIntBytesOfSInt(field);
  }

  /** The other direction of the body round trip: every reply of 52 bytes or
      more is the packing of the fields read from it, followed by the rest,
      so ValuesRoundTrip covers every reply that does not raise. */
  lemma FieldsRoundTrip(data: seq<byte>)
    requires |data| >= ValuesSize
    ensures Fits(RawFields(data))
    ensures EncodeRaw(RawFields(data)) == data[..ValuesSize]
  {
    RawFieldsFit(data);
    OffsetEnd();
    EncodeUpToOfFields(data, FieldCount);
  }

  /** Every field read from a reply fits the signed field it came from. */
  lemma RawFieldsFit(data: seq<byte>)
    requires |data| >= ValuesSize
    ensures Fits(RawFields(data))
  {
    forall k | 0 <= k < FieldCount
      ensures FitsSigned(RawFields(data)[k], Width(k))
    {
      OffsetNext(k);
      OffsetBound(k + 1);
      SIntFits(data[Offset(k)..Offset(k + 1)]);
    }
  }

  /** Only the first 52 bytes matter: whatever follows them is ignored. */
  lemma TrailingBytesIgnored(data: seq<byte>, extra: seq<byte>, adc: Call<Option<AdcPair>>, parked: Option<bool>, fw: Call<string>)
    requires |data| >= ValuesSize
    ensures GetValues(data + extra, adc, parked, fw) == GetValues(data, adc, parked, fw)
  {
    forall k | 0 <= k < FieldCount
      ensures RawFields(data + extra)[k] == RawFields(data)[k]
    {
      OffsetBound(k + 1);
      SliceOfFirst(data, extra, Offset(k), Offset(k + 1));
    }
    assert RawFields(data + extra) == RawFields(data);
  }
}
