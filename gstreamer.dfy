/**
 * The GStreamer calls the decoder depends on, reduced to their observable
 * outcome. Their implementation is outside this model: each outcome is
 * chosen nondeterministically, so everything proved about the decoder
 * holds whichever way the library behaves.
 */
module Gstreamer {
  import opened Base

  /** gst_buffer_new_and_alloc of one chunk: NULL when memory runs out. */
  method AllocChunk() returns (ok: bool)
  {
    ok := *;
  }

  /**
   * gst_buffer_fill: the number of bytes it reports as copied, at most the
   * number asked for.
   */
  method Fill(size: nat) returns (copied: nat)
    ensures copied <= size
  {
    copied :| copied <= size;
  }

  /** gst_app_src_push_buffer: GST_FLOW_OK or a failure. */
  method PushBuffer(au: seq<byte>) returns (ok: bool)
  {
    ok := *;
  }

  /** The codes gstreamer_init can return (decode.c:376-448). */
  predicate InitOutcome(st: Status)
  {
    st.Ok? || st.EINVAL? || st.EPROTO? || st.LaunchError?
  }

  /**
   * gstreamer_init up to its final state reset: launching and configuring
   * the pipeline, any step of which can fail.
   */
  method InitPipeline() returns (st: Status)
    ensures InitOutcome(st)
  {
    var launched: bool := *;
    if !launched {
      var code: ErrorCode :| true;
      return LaunchError(code);
    }
    var configured: bool := *;
    if !configured {
      return EINVAL;
    }
    var playing: bool := *;
    st := if playing then Ok else EPROTO;
  }

  /** get_frame: 0 (with or without a new frame) or ENOBUFS. */
  method GetFrame() returns (st: Status)
    ensures st.Ok? || st.ENOBUFS?
  {
    var pulled: bool := *;
    st := if pulled then Ok else ENOBUFS;
  }
}
