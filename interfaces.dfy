/**
 * Shared definitions of the AVC (H.264) elementary-stream model: bytes, the
 * `nal_unit_type` codes of a NAL unit header (section 7.4.1 of ITU-T H.264,
 * table 7-1), the Annex-B start code, and a parsed NAL unit.
 */
module Interfaces {

  /** One element of a `Uint8Array`. */
  type byte = bv8

  /** `nal_unit_type`: the five low bits of the header byte, so exactly 0..31. */
  type NalUnitType = x: int | 0 <= x < 32

  /** `nal_ref_idc`: the two bits above the type, so exactly 0..3. */
  type RefIdc = x: int | 0 <= x < 4

  const Unspecified1: NalUnitType := 0
  const CodedSliceNonIdr: NalUnitType := 1
  const CodedSliceDataPartitionA: NalUnitType := 2
  const CodedSliceDataPartitionB: NalUnitType := 3
  const CodedSliceDataPartitionC: NalUnitType := 4
  const CodedSliceIdr: NalUnitType := 5
  const SupplementalEnhancementInformation: NalUnitType := 6
  const SequenceParameterSet: NalUnitType := 7
  const PictureParameterSet: NalUnitType := 8
  const AccessUnitDelimiter: NalUnitType := 9
  const EndOfSequence: NalUnitType := 10
  const EndOfStream: NalUnitType := 11
  const FillerData: NalUnitType := 12
  const SequenceParameterSetExtension: NalUnitType := 13
  const PrefixNalUnit: NalUnitType := 14
  const SubsetSequenceParameterSet: NalUnitType := 15
  const Reserved1: NalUnitType := 16
  const Reserved2: NalUnitType := 17
  const Reserved3: NalUnitType := 18
  const CodedSliceOfAuxiliaryCodedPictureWithoutPartitioning: NalUnitType := 19
  const CodedSliceExtension: NalUnitType := 20
  const CodedSliceExtensionForDepthViewComponents: NalUnitType := 21
  const Reserved4: NalUnitType := 22
  const Reserved5: NalUnitType := 23
  const Unspecified2: NalUnitType := 24
  const Unspecified3: NalUnitType := 25
  const Unspecified4: NalUnitType := 26
  const Unspecified5: NalUnitType := 27
  const Unspecified6: NalUnitType := 28
  const Unspecified7: NalUnitType := 29
  const Unspecified8: NalUnitType := 30
  const Unspecified9: NalUnitType := 31

  /** The four-byte Annex-B start code `00 00 00 01`; the three-byte form is
      never searched for. */
  const NaluPrefix: seq<byte> := [0x00, 0x00, 0x00, 0x01]

  /** A NAL unit as emitted by the demultiplexer: header fields and the body
      (the unit with its start code removed; the header byte is still its
      first byte). */
  datatype AvcNalu = AvcNalu(naluType: NalUnitType, refIdc: RefIdc, naluBody: seq<byte>)

  /** The type guard `isTypedNalu`. */
  predicate IsTypedNalu(nalu: AvcNalu, t: NalUnitType)
  {
    nalu.naluType == t
  }
}
