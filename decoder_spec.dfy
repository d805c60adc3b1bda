/**
 * The decode entry point (gst_video1_decode, decode.c:337-351) with its
 * health check and restart (gstreamer_restart, decode.c:329-335) as a
 * function of the decoder state, the packet and what the environment did.
 */
module DecoderSpec {
  import opened Base
  import opened H264
  import opened Reassembly

  /** The reassembly state and the `playing` flag. */
  datatype DecoderState = DecoderState(asm: Assembly, playing: bool)

  /**
   * What the environment did during one decode call: the result of
   * gstreamer_init if a restart happened, the environment of parse_h264,
   * and the result of get_frame.
   */
  datatype DecodeEnv = DecodeEnv(init: Status, parse: Env, frame: Status)

  datatype DecodeOutcome = DecodeOutcome(
    next: DecoderState,
    status: Status,
    intra: bool,
    pushed: Option<seq<byte>>,
    restarted: bool)

  /**
   * gstreamer_restart: the state is torn down and zeroed, then
   * gstreamer_init runs; only when it succeeds is `playing` set again.
   */
  function Restarted(init: Status): DecoderState
  {
    DecoderState(Initial, init.Ok?)
  }

  /** gst_video1_decode on one packet. */
  function DecodeStep(d: DecoderState, p: Packet, isKey: NalType -> bool, env: DecodeEnv): DecodeOutcome
  {
    if !d.playing && !env.init.Ok? then
      DecodeOutcome(Restarted(env.init), env.init, false, None, true)
    else
      var start := if d.playing then d.asm else Restarted(env.init).asm;
      var o := Step(start, p, isKey, env.parse);
      DecodeOutcome(
        DecoderState(o.next, true),
        if o.status.Ok? then env.frame else o.status,
        o.intra,
        o.pushed,
        !d.playing)
  }

  /**
   * A broken pipeline that cannot be restarted: the init code is returned,
   * the state is left zeroed and not playing, and the packet plays no part.
   */
  lemma FailedRestartIgnoresPacket(d: DecoderState, p: Packet, q: Packet, isKey: NalType -> bool, env: DecodeEnv)
    requires !d.playing && !env.init.Ok?
    ensures var o := DecodeStep(d, p, isKey, env);
            && o.restarted && o.status == env.init && o.pushed.None?
            && o.next == DecoderState(Initial, false)
            && o == DecodeStep(d, q, isKey, env)
  {
  }

  /**
   * A broken pipeline that restarts: the packet is parsed as if it were the
   * first one after gstreamer_init, whatever the state before held.
   */
  lemma RestartStartsFresh(d: DecoderState, p: Packet, isKey: NalType -> bool, env: DecodeEnv)
    requires !d.playing && env.init.Ok?
    ensures var o, s := DecodeStep(d, p, isKey, env), Step(Initial, p, isKey, env.parse);
            && o.restarted && o.next == DecoderState(s.next, true)
            && o.pushed == s.pushed && o.intra == s.intra
            && (s.status.Ok? ==> o.status == env.frame)
            && (!s.status.Ok? ==> o.status == s.status)
  {
  }

  /** A playing pipeline is not restarted: the packet goes to parse_h264. */
  lemma PlayingParsesDirectly(d: DecoderState, p: Packet, isKey: NalType -> bool, env: DecodeEnv)
    requires d.playing
    ensures var o, s := DecodeStep(d, p, isKey, env), Step(d.asm, p, isKey, env.parse);
            && !o.restarted && o.next == DecoderState(s.next, true)
            && o.pushed == s.pushed && o.intra == s.intra
            && (s.status.Ok? ==> o.status == env.frame)
            && (!s.status.Ok? ==> o.status == s.status)
  {
  }

  /**
   * Whatever happens, the decoder is playing afterwards unless a restart
   * failed, and a restart happened exactly when the decoder was not playing.
   */
  lemma DecodeHealth(d: DecoderState, p: Packet, isKey: NalType -> bool, env: DecodeEnv)
    ensures var o := DecodeStep(d, p, isKey, env);
            && (o.restarted <==> !d.playing)
            && (o.next.playing <==> d.playing || env.init.Ok?)
  {
  }
}
