/**
 * The reassembly step of the decoder (parse_h264, decode.c:202-325) as a
 * function of the state before the packet, the packet, the key-frame
 * classification of NAL unit types and what the environment did (which
 * append ran out of memory, whether the push to the pipeline succeeded).
 * The imperative Decoder.Parse is proved to compute exactly this.
 */
module Reassembly {
  import opened Base
  import opened H264

  /** seq_diff(x, y) (decode.c:190-193): `(int16_t)(y - x)`. */
  function SeqDiff(x: uint16, y: uint16): (d: int)
    ensures -0x8000 <= d < 0x8000
    ensures (y - x - d) % 0x1_0000 == 0
  {
    var u := (y - x) % 0x1_0000;
    if u < 0x8000 then u else u - 0x1_0000
  }

  /** The test at decode.c:220: `seqNo` directly follows `prev`. */
  predicate Consecutive(prev: uint16, seqNo: uint16)
  {
    SeqDiff(prev, seqNo) == 1
  }

  /** One RTP payload with the header fields the decoder is given. */
  datatype Packet = Packet(payload: seq<byte>, seqNo: uint16, marker: bool)

  /**
   * The reassembly fields of viddec_state: `encoded_buf` (None for NULL),
   * `frag`, `got_keyframe` and `prev_seq`.
   */
  datatype Assembly = Assembly(encoded: Option<seq<byte>>, frag: bool, gotKeyframe: bool, prevSeq: uint16)

  /** The state after gstreamer_init: no buffer, nothing seen. */
  const Initial: Assembly := Assembly(None, false, false, 0)

  /**
   * What the environment did while one packet was processed: `oomAt` is
   * the index (counted from 0 within the packet) of the append that ran out
   * of memory, if one did; `pushOk` is whether the pipeline accepted the
   * access unit, if one was pushed.
   */
  datatype Env = Env(oomAt: Option<nat>, pushOk: bool)

  /** No allocation fails and the pipeline accepts everything. */
  const Plenty: Env := Env(None, true)

  /**
   * The result of parse_h264: the new state, the returned code, the value
   * written to `*intra`, and the access unit pushed to the pipeline.
   */
  datatype Outcome = Outcome(next: Assembly, status: Status, intra: bool, pushed: Option<seq<byte>>)

  /** The bytes the buffer holds; an absent buffer holds none. */
  function Contents(a: Assembly): seq<byte>
  {
    a.encoded.GetOr([])
  }

  /** The `out:` label: the buffer is released and `frag` cleared. */
  function Abandon(a: Assembly): Assembly
  {
    a.(encoded := None, frag := false)
  }

  function Fail(a: Assembly, st: Status, intra: bool): Outcome
  {
    Outcome(Abandon(a), st, intra, None)
  }

  function OomIn(oomAt: Option<nat>, lo: nat, hi: nat): bool
  {
    oomAt.Some? && lo <= oomAt.value < hi
  }

  /**
   * The append phase of parse_h264 ends either in an early return (`Done`)
   * or with the packet's bytes appended (`Appended`), `intra` telling
   * whether the NAL unit is of a key-frame type.
   */
  datatype Phase = Done(o: Outcome) | Appended(a: Assembly, intra: bool)

  /** parse_h264 on one packet. */
  function Step(a: Assembly, p: Packet, isKey: NalType -> bool, env: Env): Outcome
  {
    match ParseNalHeader(p.payload)
    case None => Fail(a, ENOENT, false)
    case Some(h) =>
      if h.f then Fail(a, EBADMSG, false)
      else if a.encoded.Some? && !Consecutive(a.prevSeq, p.seqNo) then Fail(a, EPROTO, false)
      else Complete(Dispatch(LeaveFragment(a, h), h, p, isKey, env.oomAt), p, env.pushOk)
  }

  /** An early return stands; appended bytes go on to the common tail. */
  function Complete(ph: Phase, p: Packet, pushOk: bool): Outcome
  {
    match ph
    case Done(o) => o
    case Appended(a2, intra) => Finish(a2, p, intra, pushOk)
  }

  /**
   * decode.c:226-231: a packet that is not FU-A while a fragmented NAL unit
   * is open drops the unfinished access unit.
   */
  function LeaveFragment(a: Assembly, h: NalHeader): Assembly
  {
    if a.frag && h.nalType != NAL_FU_A then Abandon(a) else a
  }

  /** decode.c:233-292: the append phase, by NAL unit type. */
  function Dispatch(a: Assembly, h: NalHeader, p: Packet, isKey: NalType -> bool, oomAt: Option<nat>): Phase
    requires |p.payload| >= 1
  {
    if 1 <= h.nalType <= 23 then SingleNal(a, p, isKey, oomAt)
    else if h.nalType == NAL_FU_A then FuA(a, h, p, isKey, oomAt)
    else Done(Outcome(a, EBADMSG, false, None))
  }

  /**
   * A single NAL unit packet (decode.c:233-245): the start code and the
   * whole payload, header octet included, are appended.
   */
  function SingleNal(a: Assembly, p: Packet, isKey: NalType -> bool, oomAt: Option<nat>): Phase
    requires |p.payload| >= 1
  {
    var intra := isKey(p.payload[0] % 32);
    if OomIn(oomAt, 0, 2) then Done(Fail(a, ENOMEM, intra))
    else Appended(a.(encoded := Some(Contents(a) + START_CODE + p.payload)), intra)
  }

  /**
   * An FU-A packet (decode.c:247-287): a start fragment opens a NAL unit
   * with the start code and the reconstructed header octet; every accepted
   * fragment appends the payload after its two header octets, and the end
   * bit closes the NAL unit.
   */
  function FuA(a: Assembly, h: NalHeader, p: Packet, isKey: NalType -> bool, oomAt: Option<nat>): Phase
    requires |p.payload| >= 1
  {
    match ParseFuHeader(p.payload)
    case None => Done(Fail(a, ENOENT, false))
    case Some(fu) => if fu.s then FuStart(a, h, fu, p, isKey, oomAt) else FuContinuation(a, fu, p, oomAt)
  }

  /**
   * decode.c:253-267, 276-287: the start code and the rebuilt header octet,
   * then the fragment's data; `intra` is known only once both were appended.
   */
  function FuStart(a: Assembly, h: NalHeader, fu: FuHeader, p: Packet, isKey: NalType -> bool, oomAt: Option<nat>): Phase
    requires |p.payload| >= 2
  {
    if OomIn(oomAt, 0, 2) then Done(Fail(a, ENOMEM, false))
    else
      var intra := isKey(fu.fuType);
      if OomIn(oomAt, 2, 3) then Done(Fail(a, ENOMEM, intra))
      else
        var bytes := Contents(a) + START_CODE + [ReconstructedHeader(h, fu)] + p.payload[2..];
        Appended(a.(encoded := Some(bytes), frag := !fu.e), intra)
  }

  /** decode.c:268-287: a continuation needs an open fragment. */
  function FuContinuation(a: Assembly, fu: FuHeader, p: Packet, oomAt: Option<nat>): Phase
    requires |p.payload| >= 2
  {
    if !a.frag then Done(Fail(a, EPROTO, false))
    else if OomIn(oomAt, 0, 1) then Done(Fail(a, ENOMEM, false))
    else Appended(a.(encoded := Some(Contents(a) + p.payload[2..]), frag := !fu.e), false)
  }

  /**
   * decode.c:294-320, after the packet's bytes were appended: remember the
   * sequence number, latch the key frame, and on the marker either push the
   * access unit or reject it.
   */
  function Finish(a: Assembly, p: Packet, intra: bool, pushOk: bool): Outcome
  {
    var b := a.(prevSeq := p.seqNo, gotKeyframe := a.gotKeyframe || intra);
    if !p.marker then Outcome(b, Ok, intra, None)
    else if b.frag then Fail(b, EPROTO, intra)
    else if !b.gotKeyframe then Fail(b, EPROTO, intra)
    else Outcome(b.(encoded := None), if pushOk then Ok else EINVAL, intra, Some(Contents(b)))
  }

  /**
   * What holds of the state between packets: an open fragment has a buffer,
   * and a buffer starts with an Annex B start code.
   */
  predicate WellFormed(a: Assembly)
  {
    && (a.frag ==> a.encoded.Some?)
    && (a.encoded.Some? ==> |a.encoded.value| >= 4 && a.encoded.value[..4] == START_CODE)
  }
}
