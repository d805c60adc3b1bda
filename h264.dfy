/**
 * The two one-octet headers of the H.264 RTP payload format (RFC 6184):
 * the NAL unit header (section 1.3 and 5.3 of RFC 6184) and the FU header
 * of a fragmentation unit (section 5.8 of RFC 6184). These are the parsers
 * the decoder calls as h264_hdr_decode and h264_fu_hdr_decode.
 */
module H264 {
  import opened Base

  /** The five-bit NAL unit type. */
  type NalType = t: int | 0 <= t < 32

  /** The two-bit nal_ref_idc (NRI). */
  type Nri = n: int | 0 <= n < 4

  /** NAL unit type of a fragmentation unit of type A. */
  const NAL_FU_A: NalType := 28

  /** The Annex B start code written in front of every NAL unit. */
  const START_CODE: seq<byte> := [0, 0, 0, 1]

  /** F (bit 7), NRI (bits 6-5) and Type (bits 4-0) of a NAL unit header. */
  datatype NalHeader = NalHeader(f: bool, nri: Nri, nalType: NalType)

  /** S (bit 7), E (bit 6), R (bit 5) and Type (bits 4-0) of an FU header. */
  datatype FuHeader = FuHeader(s: bool, e: bool, r: bool, fuType: NalType)

  function Bit(b: bool): int { if b then 1 else 0 }

  /** The octet `f<<7 | nri<<5 | type`. */
  function EncodeNalHeader(h: NalHeader): (b: byte)
    ensures b / 128 == Bit(h.f) && b / 32 % 4 == h.nri && b % 32 == h.nalType
  {
    Bit(h.f) * 128 + h.nri * 32 + h.nalType
  }

  /** Splits one octet into the fields of a NAL unit header. */
  function DecodeNalHeader(b: byte): (h: NalHeader)
    ensures EncodeNalHeader(h) == b
  {
    NalHeader(b >= 128, b / 32 % 4, b % 32)
  }

  lemma NalHeaderRoundTrip(h: NalHeader)
    ensures DecodeNalHeader(EncodeNalHeader(h)) == h
  {
  }

  /** The octet `s<<7 | e<<6 | r<<5 | type`. */
  function EncodeFuHeader(fu: FuHeader): (b: byte)
    ensures b / 128 == Bit(fu.s) && b / 64 % 2 == Bit(fu.e)
    ensures b / 32 % 2 == Bit(fu.r) && b % 32 == fu.fuType
  {
    Bit(fu.s) * 128 + Bit(fu.e) * 64 + Bit(fu.r) * 32 + fu.fuType
  }

  /** Splits one octet into the fields of an FU header. */
  function DecodeFuHeader(b: byte): (fu: FuHeader)
    ensures EncodeFuHeader(fu) == b
  {
    FuHeader(b >= 128, b / 64 % 2 == 1, b / 32 % 2 == 1, b % 32)
  }

  lemma FuHeaderRoundTrip(fu: FuHeader)
    ensures DecodeFuHeader(EncodeFuHeader(fu)) == fu
  {
  }

  /**
   * h264_hdr_decode: reads the first octet of what is left of the payload;
   * fails when nothing is left.
   */
  function ParseNalHeader(payload: seq<byte>): (r: Option<NalHeader>)
    ensures r.Some? <==> |payload| >= 1
    ensures r.Some? ==> EncodeNalHeader(r.value) == payload[0]
  {
    if |payload| == 0 then None else Some(DecodeNalHeader(payload[0]))
  }

  /**
   * h264_fu_hdr_decode: reads the FU header, the octet after the FU
   * indicator; fails when the payload ends after the indicator.
   */
  function ParseFuHeader(payload: seq<byte>): (r: Option<FuHeader>)
    requires |payload| >= 1
    ensures r.Some? <==> |payload| >= 2
    ensures r.Some? ==> EncodeFuHeader(r.value) == payload[1]
  {
    if |payload| < 2 then None else Some(DecodeFuHeader(payload[1]))
  }

  /**
   * The header octet of the NAL unit carried in an FU-A: F and NRI come
   * from the FU indicator, Type from the FU header (section 5.8 of RFC 6184).
   */
  function ReconstructedHeader(indicator: NalHeader, fu: FuHeader): (b: byte)
    ensures DecodeNalHeader(b) == NalHeader(indicator.f, indicator.nri, fu.fuType)
  {
    EncodeNalHeader(NalHeader(indicator.f, indicator.nri, fu.fuType))
  }

  /**
   * In terms of the two received octets: the upper three bits of the FU
   * indicator followed by the lower five bits of the FU header.
   */
  lemma ReconstructedHeaderOctets(payload: seq<byte>)
    requires |payload| >= 2
    ensures ReconstructedHeader(ParseNalHeader(payload).value, ParseFuHeader(payload).value)
            == payload[0] - payload[0] % 32 + payload[1] % 32
  {
  }
}
