/**
 * The decoder state (struct viddec_state, decode.c:19-44) restricted to
 * what the depacketizer uses, with parse_h264, gstreamer_restart and the
 * gst_video1_decode entry point as methods that update it in place. Each
 * method is proved to compute the corresponding specification function of
 * Reassembly or DecoderSpec.
 */
module GstDecoder {
  import opened Base
  import opened H264
  import opened Reassembly
  import opened DecoderSpec
  import opened EncodedBuffer
  import Gstreamer
  import ReassemblyProperties

  class Decoder {
    /** `encoded_buf`. */
    const encoded: GrowableBuffer
    /** h264_is_keyframe, left uninterpreted. */
    const isKey: NalType -> bool
    /** False once the pipeline reported an error. */
    var playing: bool
    var gotKeyframe: bool
    var frag: bool
    var prevSeq: uint16
    /** The access units handed to the pipeline's source, oldest first. */
    ghost var submitted: seq<seq<byte>>

    function Abs(): Assembly
      reads this, encoded
    {
      Assembly(if encoded.present then Some(encoded.bytes) else None, frag, gotKeyframe, prevSeq)
    }

    function State(): DecoderState
      reads this, encoded
    {
      DecoderState(Abs(), playing)
    }

    ghost predicate Valid()
      reads this, encoded
    {
      encoded.Valid() && WellFormed(Abs())
    }

    /** The state left by a successful gstreamer_init (decode.c:443-447). */
    constructor (isKey: NalType -> bool)
      ensures Valid() && fresh(encoded)
      ensures State() == DecoderState(Initial, true) && this.isKey == isKey
      ensures submitted == []
    {
      encoded := new GrowableBuffer();
      this.isKey := isKey;
      playing, gotKeyframe, frag, prevSeq := true, false, false, 0;
      submitted := [];
    }

    /** The `out:` label of parse_h264: release the buffer, clear `frag`. */
    method DropAssembly()
      requires encoded.Valid()
      modifies this, encoded
      ensures encoded.Valid() && Abs() == Abandon(old(Abs()))
      ensures playing == old(playing) && submitted == old(submitted)
    {
      encoded.Release();
      frag := false;
    }

    /**
     * parse_h264: processes one packet. `env` records what the environment
     * did; the new state, the result and `intra` are those of Step.
     */
    method Parse(p: Packet) returns (st: Status, intra: bool, ghost env: Env)
      requires encoded.Valid()
      modifies this, encoded
      ensures encoded.Valid()
      ensures var o := Step(old(Abs()), p, isKey, env);
              && Abs() == o.next && st == o.status && intra == o.intra
              && submitted == old(submitted) + (if o.pushed.Some? then [o.pushed.value] else [])
      ensures playing == old(playing)
    {
      ghost var before := Abs();
      intra := false;
      env := Plenty;
      var hdr := ParseNalHeader(p.payload);
      if hdr.None? {
        st := ENOENT;
        DropAssembly();
        ReassemblyProperties.StepRejected(before, p, isKey, env);
        return;
      }
      var h := hdr.value;
      if h.f {
        st := EBADMSG;
        DropAssembly();
        ReassemblyProperties.StepRejected(before, p, isKey, env);
        return;
      }
      if SeqDiff(prevSeq, p.seqNo) != 1 && encoded.present {
        st := EPROTO;
        DropAssembly();
        ReassemblyProperties.InSequenceIff(before, p);
        ReassemblyProperties.StepRejected(before, p, isKey, env);
        return;
      }
      ReassemblyProperties.InSequenceIff(before, p);
      if frag && h.nalType != NAL_FU_A {
        frag := false;
        encoded.Release();
      }
      assert Abs() == LeaveFragment(before, h);
      st, intra, env := AppendAndFinish(h, p);
      ReassemblyProperties.StepAccepted(before, p, isKey, env);
    }

    /**
     * decode.c:233-320: the append phase by NAL unit type, then, if the
     * bytes were appended, the common tail.
     */
    method AppendAndFinish(h: NalHeader, p: Packet) returns (st: Status, intra: bool, ghost env: Env)
      requires encoded.Valid() && |p.payload| >= 1
      requires frag ==> h.nalType == NAL_FU_A
      modifies this, encoded
      ensures encoded.Valid()
      ensures var o := Complete(Dispatch(old(Abs()), h, p, isKey, env.oomAt), p, env.pushOk);
              && Abs() == o.next && st == o.status && intra == o.intra
              && submitted == old(submitted) + (if o.pushed.Some? then [o.pushed.value] else [])
      ensures playing == old(playing)
    {
      var appended: bool;
      ghost var oomAt: Option<nat>;
      env := Plenty;
      if 1 <= h.nalType <= 23 {
        st, intra, appended, oomAt := AppendSingleNal(p);
      } else if h.nalType == NAL_FU_A {
        st, intra, appended, oomAt := AppendFuA(h, p);
      } else {
        st, intra := EBADMSG, false;
        return;
      }
      env := Env(oomAt, true);
      if !appended {
        return;
      }
      ghost var pushOk;
      st, pushOk := Finish(p, intra);
      env := Env(oomAt, pushOk);
    }

    /**
     * decode.c:233-245. The buffer is released by the failing append
     * itself; `frag` is already clear for a single NAL unit.
     */
    method AppendSingleNal(p: Packet) returns (st: Status, intra: bool, appended: bool, ghost oomAt: Option<nat>)
      requires encoded.Valid() && !frag && |p.payload| >= 1
      modifies encoded
      ensures encoded.Valid()
      ensures match SingleNal(old(Abs()), p, isKey, oomAt)
              case Done(o) => !appended && Abs() == o.next && st == o.status && intra == o.intra
              case Appended(a, i) => appended && st.Ok? && Abs() == a && intra == i
    {
      intra := isKey(p.payload[0] % 32);
      oomAt := None;
      st := encoded.Append(START_CODE);
      if st.Ok? {
        st := encoded.Append(p.payload);
        if !st.Ok? {
          oomAt := Some(1);
        }
      } else {
        oomAt := Some(0);
      }
      appended := st.Ok?;
    }

    /** decode.c:247-287. */
    method AppendFuA(h: NalHeader, p: Packet) returns (st: Status, intra: bool, appended: bool, ghost oomAt: Option<nat>)
      requires encoded.Valid() && |p.payload| >= 1
      modifies this, encoded
      ensures encoded.Valid()
      ensures match FuA(old(Abs()), h, p, isKey, oomAt)
              case Done(o) => !appended && Abs() == o.next && st == o.status && intra == o.intra
              case Appended(a, i) => appended && st.Ok? && Abs() == a && intra == i
      ensures playing == old(playing) && submitted == old(submitted)
    {
      var fuh := ParseFuHeader(p.payload);
      if fuh.None? {
        st, intra, appended, oomAt := ENOENT, false, false, None;
        DropAssembly();
        return;
      }
      var fu := fuh.value;
      if fu.s {
        st, intra, appended, oomAt := AppendFuStart(h, fu, p);
      } else {
        st, appended, oomAt := AppendFuContinuation(fu, p);
        intra := false;
      }
    }

    /** decode.c:253-267, 276-287. */
    method AppendFuStart(h: NalHeader, fu: FuHeader, p: Packet)
      returns (st: Status, intra: bool, appended: bool, ghost oomAt: Option<nat>)
      requires encoded.Valid() && |p.payload| >= 2
      modifies this, encoded
      ensures encoded.Valid()
      ensures match FuStart(old(Abs()), h, fu, p, isKey, oomAt)
              case Done(o) => !appended && Abs() == o.next && st == o.status && intra == o.intra
              case Appended(a, i) => appended && st.Ok? && Abs() == a && intra == i
      ensures playing == old(playing) && submitted == old(submitted)
    {
      intra, appended, oomAt := false, false, None;
      var nalHeader := ReconstructedHeader(h, fu);
      st := encoded.Append(START_CODE);
      if st.Ok? {
        st := encoded.Append([nalHeader]);
        if !st.Ok? {
          oomAt := Some(1);
        }
      } else {
        oomAt := Some(0);
      }
      if !st.Ok? {
        DropAssembly();
        return;
      }
      if isKey(fu.fuType) {
        intra := true;
      }
      frag := true;
      st := encoded.Append(p.payload[2..]);
      if !st.Ok? {
        oomAt := Some(2);
        DropAssembly();
        return;
      }
      if fu.e {
        frag := false;
      }
      appended := true;
    }

    /** decode.c:268-287. */
    method AppendFuContinuation(fu: FuHeader, p: Packet) returns (st: Status, appended: bool, ghost oomAt: Option<nat>)
      requires encoded.Valid() && |p.payload| >= 2
      modifies this, encoded
      ensures encoded.Valid()
      ensures match FuContinuation(old(Abs()), fu, p, oomAt)
              case Done(o) => !appended && Abs() == o.next && st == o.status && !o.intra
              case Appended(a, i) => appended && st.Ok? && Abs() == a && !i
      ensures playing == old(playing) && submitted == old(submitted)
    {
      appended, oomAt := false, None;
      if !frag {
        st := EPROTO;
        DropAssembly();
        return;
      }
      st := encoded.Append(p.payload[2..]);
      if !st.Ok? {
        oomAt := Some(0);
        DropAssembly();
        return;
      }
      if fu.e {
        frag := false;
      }
      appended := true;
    }

    /**
     * decode.c:294-320: remember the sequence number, latch the key frame,
     * and on the marker hand the access unit to the pipeline.
     */
    method Finish(p: Packet, intra: bool) returns (st: Status, ghost pushOk: bool)
      requires encoded.Valid()
      modifies this, encoded
      ensures encoded.Valid()
      ensures var o := Reassembly.Finish(old(Abs()), p, intra, pushOk);
              && Abs() == o.next && st == o.status
              && submitted == old(submitted) + (if o.pushed.Some? then [o.pushed.value] else [])
      ensures playing == old(playing)
    {
      pushOk := true;
      prevSeq := p.seqNo;
      if intra {
        gotKeyframe := true;
      }
      if !p.marker {
        return Ok, pushOk;
      }
      if frag {
        st := EPROTO;
        DropAssembly();
        return;
      }
      if !gotKeyframe {
        st := EPROTO;
        DropAssembly();
        return;
      }
      var au := encoded.Detach();
      var ok := Gstreamer.PushBuffer(au);
      submitted := submitted + [au];
      pushOk := ok;
      st := if ok then Ok else EINVAL;
    }

    /**
     * gstreamer_restart: the old pipeline and buffer are torn down, the
     * whole state zeroed, and gstreamer_init run again; only its success
     * sets `playing`.
     */
    method Restart() returns (st: Status)
      modifies this, encoded
      ensures Valid()
      ensures Gstreamer.InitOutcome(st)
      ensures State() == Restarted(st)
      ensures !encoded.present && !frag && !gotKeyframe && prevSeq == 0 && (playing <==> st.Ok?)
      ensures submitted == old(submitted)
    {
      // destructor, then *st = {0}
      encoded.Release();
      playing, gotKeyframe, frag, prevSeq := false, false, false, 0;
      st := Gstreamer.InitPipeline();
      if !st.Ok? {
        return;
      }
      // the state reset at the end of gstreamer_init
      playing, gotKeyframe, frag := true, false, false;
    }

    /**
     * gst_video1_decode: restart a broken pipeline first, then parse the
     * packet, then look for a decoded frame. A failed restart returns its
     * code without parsing the packet.
     */
    method Decode(p: Packet) returns (st: Status, intra: bool, ghost env: DecodeEnv)
      requires Valid()
      modifies this, encoded
      ensures Valid()
      ensures var o := DecodeStep(old(State()), p, isKey, env);
              && State() == o.next && st == o.status && intra == o.intra
              && submitted == old(submitted) + (if o.pushed.Some? then [o.pushed.value] else [])
    {
      intra := false;
      env := DecodeEnv(Ok, Plenty, Ok);
      if !playing {
        st := Restart();
        env := env.(init := st);
        if !st.Ok? {
          return;
        }
      }
      ghost var before := Abs();
      ghost var penv;
      st, intra, penv := Parse(p);
      env := env.(parse := penv);
      ReassemblyProperties.StepPreservesWellFormed(before, p, isKey, penv);
      if !st.Ok? {
        return;
      }
      st := Gstreamer.GetFrame();
      env := env.(frame := st);
    }
  }
}
