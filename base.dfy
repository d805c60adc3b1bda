/**
 * Basic types shared by the model of the gst_video1 H.264 decoder:
 * bytes, RTP sequence numbers, an Option type and the errno-style
 * status codes that the C functions return.
 */
module Base {

  /** An octet of an RTP payload. */
  type byte = x: int | 0 <= x < 0x100

  /** An RTP sequence number (uint16_t). */
  type uint16 = x: int | 0 <= x < 0x1_0000

  datatype Option<+T> = None | Some(value: T) {
    function GetOr(default: T): T {
      match this
      case Some(v) => v
      case None => default
    }
  }

  /**
   * The integer results of the decoder's functions. `Ok` is 0; the others
   * are the errno values the C code returns. `LaunchError` carries the code
   * of the GError reported when the pipeline description cannot be
   * instantiated.
   */
  datatype Status =
    | Ok
    | ENOMEM
    | EPROTO
    | EBADMSG
    | EINVAL
    | ENOENT
    | ENOBUFS
    | LaunchError(code: ErrorCode)

  /** The code of a GError; zero is not among the codes modelled. */
  type ErrorCode = c: int | c != 0 witness 1
}
