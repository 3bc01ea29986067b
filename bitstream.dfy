/**
 * `AvcBitstream.parseVideoDecoderConfig`: the decoder configuration read
 * from the first sequence parameter set (SPS) of an H.264 stream. The SPS
 * parser itself is a foreign library; it enters as a function parameter and
 * its output record as a datatype.
 */
module Bitstream {
  import opened Interfaces
  import opened Wrappers

  /** `frame_crop_{left,right,top,bottom}_offset` of section 7.4.2.1.1 of
      ITU-T H.264. */
  datatype FrameCropping = FrameCropping(leftOffset: nat, rightOffset: nat, topOffset: nat, bottomOffset: nat)

  /** The SPS fields the configuration reads; `frameCropping` is `None` where
      the parser returns `false`. */
  datatype Sps = Sps(
    profileIdc: nat,
    levelIdc: nat,
    picWidthInMbsMinus1: nat,
    frameMbsOnlyFlag: bool,
    picHeightInMapUnitsMinus1: nat,
    frameCropping: Option<FrameCropping>)

  datatype HardwareAcceleration = NoPreference | PreferHardware | PreferSoftware

  datatype VideoDecoderConfig = VideoDecoderConfig(
    codec: string,
    codedWidth: int,
    codedHeight: int,
    hardwareAcceleration: HardwareAcceleration)

  const PrematureEnd: string := "Premature end of AVC bitstream before an SPS NALU was found"

  // ---------------------------------------------------------------------
  // Picture size

  /** Macroblock columns times 16, less twice the horizontal crop. */
  function CodedWidth(sps: Sps): int
  {
    (sps.picWidthInMbsMinus1 + 1) * 16
      - (match sps.frameCropping
         case None => 0
         case Some(c) => c.rightOffset * 2 + c.leftOffset * 2)
  }

  /** Map-unit rows times 16, doubled for field coding, less twice the
      vertical crop. */
  function CodedHeight(sps: Sps): int
  {
    (2 - (if sps.frameMbsOnlyFlag then 1 else 0)) * ((sps.picHeightInMapUnitsMinus1 + 1) * 16)
      - (match sps.frameCropping
         case None => 0
         case Some(c) => (c.topOffset + c.bottomOffset) * 2)
  }

  /** The cropped luma width of section 7.4.2.1.1 of ITU-T H.264 for 4:2:0
      sampling: `PicWidthInSamplesL - CropUnitX * (left + right)` with
      `CropUnitX = SubWidthC = 2`. */
  function StandardCroppedWidth(sps: Sps): int
  {
    var picWidthInSamples := (sps.picWidthInMbsMinus1 + 1) * 16;
    var cropUnitX := 2;
    match sps.frameCropping
    case None => picWidthInSamples
    case Some(c) => picWidthInSamples - cropUnitX * (c.leftOffset + c.rightOffset)
  }

  /** The cropped luma height of section 7.4.2.1.1 of ITU-T H.264 for 4:2:0
      sampling: `FrameHeightInMbs * 16 - CropUnitY * (top + bottom)` with
      `FrameHeightInMbs = (2 - frame_mbs_only_flag) * PicHeightInMapUnits`
      and `CropUnitY = SubHeightC * (2 - frame_mbs_only_flag)`. */
  function StandardCroppedHeight(sps: Sps): int
  {
    var fieldFactor := if sps.frameMbsOnlyFlag then 1 else 2;
    var frameHeightInMbs := fieldFactor * (sps.picHeightInMapUnitsMinus1 + 1);
    var cropUnitY := 2 * fieldFactor;
    match sps.frameCropping
    case None => frameHeightInMbs * 16
    case Some(c) => frameHeightInMbs * 16 - cropUnitY * (c.topOffset + c.bottomOffset)
  }

  /** The width always agrees with the standard's cropped width. */
  lemma CodedWidthIsStandard(sps: Sps)
    ensures CodedWidth(sps) == StandardCroppedWidth(sps)
    ensures CodedWidth(sps) % 2 == 0
  {
    var w := sps.picWidthInMbsMinus1 + 1;
    match sps.frameCropping
    case None =>
      assert CodedWidth(sps) == 2 * (8 * w);
    case Some(c) =>
      assert CodedWidth(sps) == 2 * (8 * w - c.rightOffset - c.leftOffset);
  }

  /** The height agrees with the standard's cropped height for frame-coded
      (progressive) streams and whenever there is no vertical crop; for a
      field-coded stream with a vertical crop it crops half as much. */
  lemma CodedHeightAgainstStandard(sps: Sps)
    ensures sps.frameMbsOnlyFlag ==> CodedHeight(sps) == StandardCroppedHeight(sps)
    ensures !sps.frameMbsOnlyFlag ==>
      CodedHeight(sps) == StandardCroppedHeight(sps)
        + (match sps.frameCropping
           case None => 0
           case Some(c) => 2 * (c.topOffset + c.bottomOffset))
  {
  }

  /** Without cropping the size is whole macroblocks: 16 per column, and 16
      per map-unit row (32 for field coding). */
  lemma UncroppedSizeInMacroblocks(sps: Sps)
    requires sps.frameCropping == None
    ensures CodedWidth(sps) == 16 * (sps.picWidthInMbsMinus1 + 1)
    ensures CodedHeight(sps) == (if sps.frameMbsOnlyFlag then 16 else 32) * (sps.picHeightInMapUnitsMinus1 + 1)
  {
  }

  // ---------------------------------------------------------------------
  // Codec string (section 3 of RFC 6381)

  function HexDigit(d: nat): (c: char)
    requires d < 16
    ensures DigitValue(c) == d
  {
    "0123456789abcdef"[d]
  }

  /** The value of a lower-case hexadecimal digit (0 for any other character). */
  function DigitValue(c: char): nat
  {
    if '0' <= c <= '9' then (c - '0') as nat
    else if 'a' <= c <= 'f' then (c - 'a') as nat + 10
    else 0
  }

  predicate IsHexDigit(c: char)
  {
    '0' <= c <= '9' || 'a' <= c <= 'f'
  }

  /** `n.toString(16)`: lower-case hexadecimal without leading zeros. */
  function ToHex(n: nat): (s: string)
    ensures |s| >= 1 && (forall i :: 0 <= i < |s| ==> IsHexDigit(s[i]))
    ensures n < 16 <==> |s| == 1
    ensures s[0] == '0' <==> n == 0
    decreases n
  {
    if n < 16 then [HexDigit(n)] else ToHex(n / 16) + [HexDigit(n % 16)]
  }

  /** Reads a hexadecimal string, most significant digit first. */
  function FromHex(s: string): nat
  {
    if s == [] then 0 else FromHex(s[..|s| - 1]) * 16 + DigitValue(s[|s| - 1])
  }

  /** `toString(16)` loses nothing: reading it back gives the number. */
  lemma {:induction false} HexRoundTrip(n: nat)
    ensures FromHex(ToHex(n)) == n
    decreases n
  {
    if n < 16 {
      var s := ToHex(n);
      assert s[..0] == [];
    } else {
      var s := ToHex(n);
      assert s[..|s| - 1] == ToHex(n / 16);
      HexRoundTrip(n / 16);
    }
  }

  /** `s.padStart(width, '0')`. */
  function PadStart(s: string, width: nat): (r: string)
    ensures |r| == if |s| >= width then |s| else width
    ensures r[|r| - |s|..] == s
    ensures forall i :: 0 <= i < |r| - |s| ==> r[i] == '0'
  {
    if |s| >= width then s else seq(width - |s|, _ => '0') + s
  }

  /** Two hexadecimal digits of a byte-sized value. */
  function Hex2(n: nat): string
  {
    PadStart(ToHex(n), 2)
  }

  /** For a byte-sized value the two digits are its high and low nibbles. */
  lemma Hex2Digits(n: nat)
    requires n < 256
    ensures Hex2(n) == [HexDigit(n / 16), HexDigit(n % 16)]
  {
    if n >= 16 {
      assert ToHex(n / 16) == [HexDigit(n / 16)];
    }
  }

  /** `avc1.PP00LL}`: profile, a zero constraint byte, level, and the
      closing brace the template literal writes after the level. */
  function CodecString(profileIdc: nat, levelIdc: nat): string
  {
    "avc1." + Hex2(profileIdc) + "00" + Hex2(levelIdc) + "}"
  }

  /** For byte-sized fields the codec string has a fixed shape and both
      fields can be read back from it. */
  lemma CodecStringLayout(profileIdc: nat, levelIdc: nat)
    requires profileIdc < 256 && levelIdc < 256
    ensures |CodecString(profileIdc, levelIdc)| == 12
    ensures CodecString(profileIdc, levelIdc)[..5] == "avc1."
    ensures CodecString(profileIdc, levelIdc)[7..9] == "00"
    ensures CodecString(profileIdc, levelIdc)[11] == '}'
    ensures DigitValue(CodecString(profileIdc, levelIdc)[5]) * 16 + DigitValue(CodecString(profileIdc, levelIdc)[6]) == profileIdc
    ensures DigitValue(CodecString(profileIdc, levelIdc)[9]) * 16 + DigitValue(CodecString(profileIdc, levelIdc)[10]) == levelIdc
  {
    Hex2Digits(profileIdc);
    Hex2Digits(levelIdc);
    var s := CodecString(profileIdc, levelIdc);
    assert s == "avc1." + [HexDigit(profileIdc / 16), HexDigit(profileIdc % 16)] + "00"
              + [HexDigit(levelIdc / 16), HexDigit(levelIdc % 16)] + "}";
    assert s[5] == HexDigit(profileIdc / 16) && s[6] == HexDigit(profileIdc % 16);
    assert s[9] == HexDigit(levelIdc / 16) && s[10] == HexDigit(levelIdc % 16);
    NibbleSplit(profileIdc);
    NibbleSplit(levelIdc);
  }

  lemma NibbleSplit(n: nat)
    ensures (n / 16) * 16 + n % 16 == n
  {
  }

  /** Different byte-sized profile or level values give different codec strings. */
  lemma CodecStringInjective(p: nat, l: nat, p': nat, l': nat)
    requires p < 256 && l < 256 && p' < 256 && l' < 256
    ensures CodecString(p, l) == CodecString(p', l') ==> p == p' && l == l'
  {
    CodecStringLayout(p, l);
    CodecStringLayout(p', l');
  }

  // ---------------------------------------------------------------------
  // First-SPS selection

  /** The index of the first unit of type `t`, if any. */
  function FirstIndexOfType(nalus: seq<AvcNalu>, t: NalUnitType): (r: Option<nat>)
    ensures r.Some? ==>
      r.value < |nalus| && IsTypedNalu(nalus[r.value], t)
      && forall j :: 0 <= j < r.value ==> !IsTypedNalu(nalus[j], t)
    ensures r.None? ==> forall j :: 0 <= j < |nalus| ==> !IsTypedNalu(nalus[j], t)
  {
    if nalus == [] then None
    else if IsTypedNalu(nalus[0], t) then Some(0)
    else match FirstIndexOfType(nalus[1..], t)
      case None => None
      case Some(i) => Some(i + 1)
  }

  /** `naluBody.subarray(1)`: the payload after the header byte. */
  function Rbsp(nalu: AvcNalu): (r: seq<byte>)
    ensures |nalu.naluBody| > 0 ==> [nalu.naluBody[0]] + r == nalu.naluBody
    ensures |nalu.naluBody| == 0 ==> r == []
  {
    if |nalu.naluBody| == 0 then [] else nalu.naluBody[1..]
  }

  function ConfigFromSps(sps: Sps, hardwareAcceleration: HardwareAcceleration): VideoDecoderConfig
  {
    VideoDecoderConfig(CodecString(sps.profileIdc, sps.levelIdc), CodedWidth(sps), CodedHeight(sps), hardwareAcceleration)
  }

  /** The configuration the stream determines: from the first SPS unit, or
      the premature-end error; a parser failure is passed on. */
  function DecoderConfigOf(nalus: seq<AvcNalu>, hardwareAcceleration: HardwareAcceleration,
                           parseSps: seq<byte> -> Result<Sps, string>): Result<VideoDecoderConfig, string>
  {
    match FirstIndexOfType(nalus, SequenceParameterSet)
    case None => Failure(PrematureEnd)
    case Some(i) =>
      match parseSps(Rbsp(nalus[i]))
      case Failure(e) => Failure(e)
      case Success(sps) => Success(ConfigFromSps(sps, hardwareAcceleration))
  }

  /** The premature-end error arises exactly when the stream has no SPS unit. */
  lemma PrematureEndIffNoSps(nalus: seq<AvcNalu>, hardwareAcceleration: HardwareAcceleration,
                             parseSps: seq<byte> -> Result<Sps, string>)
    requires forall b :: parseSps(b) != Failure(PrematureEnd)
    ensures DecoderConfigOf(nalus, hardwareAcceleration, parseSps) == Failure(PrematureEnd)
        <==> forall j :: 0 <= j < |nalus| ==> !IsTypedNalu(nalus[j], SequenceParameterSet)
  {
    var r := FirstIndexOfType(nalus, SequenceParameterSet);
    if r.Some? {
      assert parseSps(Rbsp(nalus[r.value])) != Failure(PrematureEnd);
    }
  }

  /** Units after the first SPS are never looked at. */
  lemma LaterUnitsIgnored(nalus: seq<AvcNalu>, i: nat, rest: seq<AvcNalu>,
                          hardwareAcceleration: HardwareAcceleration,
                          parseSps: seq<byte> -> Result<Sps, string>)
    requires FirstIndexOfType(nalus, SequenceParameterSet) == Some(i)
    ensures DecoderConfigOf(nalus[..i + 1] + rest, hardwareAcceleration, parseSps)
         == DecoderConfigOf(nalus, hardwareAcceleration, parseSps)
  {
    var front := nalus[..i + 1];
    var longer := front + rest;
    assert front[i] == nalus[i];
    assert forall j :: 0 <= j < i ==> front[j] == nalus[j];
    FirstIndexPrefix(front, rest, SequenceParameterSet, i);
    assert longer[i] == nalus[i];
    SameFirstUnitSameConfig(longer, nalus, i, hardwareAcceleration, parseSps);
  }

  lemma SameFirstUnitSameConfig(a: seq<AvcNalu>, b: seq<AvcNalu>, i: nat,
                                hardwareAcceleration: HardwareAcceleration,
                                parseSps: seq<byte> -> Result<Sps, string>)
    requires FirstIndexOfType(a, SequenceParameterSet) == Some(i)
    requires FirstIndexOfType(b, SequenceParameterSet) == Some(i)
    requires a[i] == b[i]
    ensures DecoderConfigOf(a, hardwareAcceleration, parseSps) == DecoderConfigOf(b, hardwareAcceleration, parseSps)
  {
  }

  /** The first occurrence in a prefix is the first occurrence overall. */
  lemma {:induction false} FirstIndexPrefix(front: seq<AvcNalu>, rest: seq<AvcNalu>, t: NalUnitType, i: nat)
    requires i < |front| && IsTypedNalu(front[i], t)
    requires forall j :: 0 <= j < i ==> !IsTypedNalu(front[j], t)
    ensures FirstIndexOfType(front + rest, t) == Some(i)
    ensures FirstIndexOfType(front, t) == Some(i)
    decreases i
  {
    if i > 0 {
      assert (front + rest)[1..] == front[1..] + rest;
      FirstIndexPrefix(front[1..], rest, t, i - 1);
    }
  }

  /** The read loop of `parseVideoDecoderConfig`: it returns the
      configuration of the first SPS unit and fails with the premature-end
      error once the units run out. */
  method ParseVideoDecoderConfig(headerNalus: seq<AvcNalu>, hardwareAcceleration: HardwareAcceleration,
                                 parseSps: seq<byte> -> Result<Sps, string>)
    returns (r: Result<VideoDecoderConfig, string>)
    ensures r == DecoderConfigOf(headerNalus, hardwareAcceleration, parseSps)
  {
    var i := 0;
    while i < |headerNalus|
      invariant 0 <= i <= |headerNalus|
      invariant forall j :: 0 <= j < i ==> !IsTypedNalu(headerNalus[j], SequenceParameterSet)
    {
      var value := headerNalus[i];
      if IsTypedNalu(value, SequenceParameterSet) {
        var parsed := parseSps(Rbsp(value));
        FirstIndexPrefix(headerNalus, [], SequenceParameterSet, i);
        match parsed {
          case Failure(e) => return Failure(e);
          case Success(sps) =>
            return Success(ConfigFromSps(sps, hardwareAcceleration));
        }
      }
      i := i + 1;
    }
    return Failure(PrematureEnd);
  }
}
