# gst_video1 H.264 depacketizer — a Dafny model

The gst_video1 module of baresip decodes H.264 video through a GStreamer
pipeline. Before the pipeline sees any data, `modules/gst_video1/decode.c`
turns the RTP payloads of one H.264 stream (RFC 6184) into Annex B access
units:

- single NAL unit packets are copied whole, behind the start code `00 00 00 01`;
- FU-A fragmentation units are glued back into one NAL unit whose header
  octet is rebuilt from the FU indicator and the FU header;
- a gap in the RTP sequence numbers (modulo 2^16), an orphan fragment, a
  forbidden bit or an unsupported NAL unit type is rejected;
- on the RTP marker the access unit is handed to the pipeline's appsrc,
  but only once a key frame has been seen.

The bytes collect in a growable buffer made of 78000-byte chunks
(`PACKET_SIZE * 60`). The entry point `gst_video1_decode` first restarts
a pipeline that was marked broken, then parses the packet, then asks for
a decoded frame.

The model has three layers:

- **Pure definitions.** `Reassembly.Step` is parse_h264 as a function of the
  state, the packet, the key-frame test and what the environment did.
  `DecoderSpec.DecodeStep` is the same for gst_video1_decode. `H264` holds the
  header octets of RFC 6184.
- **Imperative classes.** `EncodedBuffer.GrowableBuffer` models the GstBuffer
  behind `encoded_buf`, and its append keeps the chunk-allocation loop.
  `GstDecoder.Decoder` models `struct viddec_state`. Its methods update the
  fields step by step, as the C does, and each is proved to compute the
  matching pure function.
- **Properties.** The lemmas of `ReassemblyProperties` and `DecoderSpec`
  state what the decoder promises. They cover rejection, byte layout,
  fragment handling, key-frame gating, the state invariant and the delivery
  of whole access units.

GStreamer and allocator calls are modelled as the nondeterministic
operations of module `Gstreamer`: allocation, the copy into the buffer,
the push to appsrc, pipeline start-up and frame retrieval. Each can
succeed or fail. Whatever they did comes back from
`Decoder.Parse`/`Decoder.Decode` as a ghost `env` value. The postcondition
then equals the pure step evaluated on that `env`, so every lemma holds
whichever way the library behaves.

## Model

| member | source | states |
|---|---|---|
| H264.EncodeNalHeader | modules/gst_video1/decode.c:255 | the header octet built from F, NRI and Type has F in bit 7, NRI in bits 6-5 and Type in bits 4-0 |
| H264.DecodeNalHeader | modules/gst_video1/decode.c:209 | the fields read from an octet re-encode to that octet |
| H264.NalHeaderRoundTrip | modules/gst_video1/decode.c:209 | decoding an encoded NAL unit header gives the header back |
| H264.EncodeFuHeader | modules/gst_video1/decode.c:249 | S is bit 7, E bit 6, R bit 5 and Type bits 4-0 of the FU header |
| H264.DecodeFuHeader | modules/gst_video1/decode.c:249 | the FU header fields read from an octet re-encode to it |
| H264.FuHeaderRoundTrip | modules/gst_video1/decode.c:249 | decoding an encoded FU header gives it back |
| H264.ParseNalHeader | modules/gst_video1/decode.c:209-211 | the header parse fails exactly on an empty payload, else yields the fields of the first octet |
| H264.ParseFuHeader | modules/gst_video1/decode.c:249-251 | the FU header parse fails exactly when no octet follows the FU indicator |
| H264.ReconstructedHeader | modules/gst_video1/decode.c:254-255 | the rebuilt NAL header has F and NRI of the FU indicator and the type of the FU header |
| H264.ReconstructedHeaderOctets | modules/gst_video1/decode.c:255 | in octets: the top three bits of the indicator and the low five bits of the FU header |
| EncodedBuffer.ChunksFor | modules/gst_video1/decode.c:155-168 | the model's chunk count after growth: enough for the new size, and minimal unless no chunk was added |
| EncodedBuffer.GrowableBuffer.Append | modules/gst_video1/decode.c:144-188 | on 0 the bytes are the old bytes followed by the data, in a whole number of chunks (one chunk if the buffer was absent); on failure ENOMEM and the buffer absent |
| EncodedBuffer.GrowableBuffer.Release | modules/gst_video1/decode.c:195-200 | buffer_empty: the buffer is absent afterwards |
| EncodedBuffer.GrowableBuffer.Detach | modules/gst_video1/decode.c:314-315 | the whole buffer is handed over and `encoded_buf` becomes NULL |
| Reassembly.SeqDiff | modules/gst_video1/decode.c:190-193 | the result is the signed 16-bit value congruent to `y - x` modulo 2^16 |
| ReassemblyProperties.ConsecutiveIff | modules/gst_video1/decode.c:220 | `seq_diff(prev, s) == 1` iff `s == prev + 1 (mod 2^16)` |
| ReassemblyProperties.WrapAroundIsConsecutive | modules/gst_video1/decode.c:190-193 | worked example: 65535 is followed by 0, while 0 to 65535 and 7 to 7 are not consecutive |
| ReassemblyProperties.RepeatOrBackwardNotConsecutive | modules/gst_video1/decode.c:190-193 | for every sequence number, a repeat gives seq_diff 0 and a number k behind (1 <= k < 2^15, modulo 2^16) gives -k; neither is consecutive |
| ReassemblyProperties.InSequenceIff | modules/gst_video1/decode.c:219-224 | the sequence check passes iff there is no buffer or the number follows `prev_seq` |
| ReassemblyProperties.StepRejected | modules/gst_video1/decode.c:209-224 | a missing header (ENOENT), the forbidden bit (EBADMSG) or a sequence gap (EPROTO) drops the assembly before anything is appended and keeps the history |
| ReassemblyProperties.DispatchKeepsHistory | modules/gst_video1/decode.c:233-292 | the append phase touches neither `prev_seq` nor the key-frame latch and pushes nothing; its early returns are errors, and ENOMEM leaves no buffer |
| ReassemblyProperties.EmptyPayloadRejected | modules/gst_video1/decode.c:209-211 | an empty payload: ENOENT with the assembly dropped |
| ReassemblyProperties.ForbiddenBitRejected | modules/gst_video1/decode.c:213-217 | forbidden bit: EBADMSG, buffer released, `frag` cleared, `prev_seq` and the key-frame latch kept |
| ReassemblyProperties.SequenceGapRejected | modules/gst_video1/decode.c:219-224 | a sequence number that does not follow `prev_seq` (seq_diff not 1) while a buffer is present: EPROTO, buffer released, `frag` cleared, `prev_seq` kept |
| ReassemblyProperties.NoBufferAcceptsAnySequence | modules/gst_video1/decode.c:220 | with no buffer the sequence number affects nothing but the `prev_seq` recorded |
| ReassemblyProperties.UnsupportedTypeRejected | modules/gst_video1/decode.c:289-292 | types 0, 24-27 and 29-31: EBADMSG, nothing appended, no reset beyond dropping an open fragment |
| ReassemblyProperties.OrphanFragmentRejected | modules/gst_video1/decode.c:268-273 | a continuation FU-A with no fragment open: EPROTO, the buffer released |
| ReassemblyProperties.NonFragmentRestartsAssembly | modules/gst_video1/decode.c:226-231 | a non-FU-A packet while a fragment is open is processed as if the state had no buffer and no fragment |
| ReassemblyProperties.SingleNalStep | modules/gst_video1/decode.c:233-245 | a single NAL unit appends the start code and the whole payload, header included, then the common tail runs |
| ReassemblyProperties.SingleNalAppended | modules/gst_video1/decode.c:233-301 | without the marker: 0, buffer = old bytes ++ start code ++ payload, `prev_seq` the packet's, latch set for a key type |
| ReassemblyProperties.FuStartAppended | modules/gst_video1/decode.c:253-267 | an FU-A start appends start code, rebuilt header octet and payload after two octets; the fragment stays open unless E is set |
| ReassemblyProperties.FuContinuationAppended | modules/gst_video1/decode.c:268-287 | a continuation of an open FU-A appends the payload after its two header octets only |
| ReassemblyProperties.EndBitClosesFragment | modules/gst_video1/decode.c:280-287 | after an FU-A with E set no fragment is open, also with S and E together |
| ReassemblyProperties.OutOfMemoryReleases | modules/gst_video1/decode.c:240-262 | ENOMEM means an append failed; the buffer is released and `prev_seq` and the latch kept |
| ReassemblyProperties.HistoryUpdate | modules/gst_video1/decode.c:294-298 | the key-frame latch is never cleared; success records the sequence number and latches `intra`; header, type and memory failures keep both |
| ReassemblyProperties.MarkerOutcomes | modules/gst_video1/decode.c:300-320 | nothing is pushed without the marker, and a success without it keeps a buffer; on the marker a success always pushes; a push means the marker, a key frame seen, the buffer left absent with no fragment open, and the result 0 or EINVAL |
| ReassemblyProperties.DispatchAppendsData | modules/gst_video1/decode.c:233-287 | when the append phase appends, the buffer ends with the whole payload (single NAL unit) or the payload after two octets (FU-A), and an FU-A leaves the fragment open exactly when E is clear |
| ReassemblyProperties.PushedUnitEndsWithPacket | modules/gst_video1/decode.c:276-320 | a pushed access unit ends with the marker packet's own data, and an FU-A pushes only with its E bit set |
| ReassemblyProperties.IncompleteFragmentAtMarker | modules/gst_video1/decode.c:253-306 | the marker on an FU-A without E, opening or continuing a fragment: EPROTO, everything dropped, `prev_seq` updated, the latch set only by a key-frame start |
| ReassemblyProperties.AwaitingKeyframe | modules/gst_video1/decode.c:308-312 | the marker before any key frame: EPROTO, buffer dropped, `prev_seq` updated |
| ReassemblyProperties.FragmentedAwaitingKeyframe | modules/gst_video1/decode.c:276-312 | the marker on the FU-A that ends a NAL unit, with no key frame seen: EPROTO, buffer dropped, `prev_seq` updated |
| ReassemblyProperties.FragmentedAccessUnitPushed | modules/gst_video1/decode.c:268-320 | the last fragment of an open FU-A with the marker after a key frame pushes the old buffer followed by the fragment's data, and the buffer becomes absent |
| ReassemblyProperties.StartCodePrefix | modules/gst_video1/decode.c:240 | appending keeps a leading start code |
| ReassemblyProperties.SingleNalWellFormed | modules/gst_video1/decode.c:233-245 | the single NAL unit phase keeps the state well formed and leaves a buffer when it appends |
| ReassemblyProperties.FuAWellFormed | modules/gst_video1/decode.c:247-287 | the FU-A phase keeps the state well formed and leaves a buffer when it appends |
| ReassemblyProperties.DispatchWellFormed | modules/gst_video1/decode.c:233-292 | the append phase of either packet kind keeps the state well formed |
| ReassemblyProperties.FinishWellFormed | modules/gst_video1/decode.c:294-324 | the tail keeps the state well formed; a pushed unit starts with the start code |
| ReassemblyProperties.StepPreservesWellFormed | modules/gst_video1/decode.c:202-325 | parse_h264 keeps "an open fragment has a buffer, a buffer starts with 00 00 00 01"; every pushed access unit starts with the start code |
| ReassemblyProperties.Payloads | modules/gst_video1/decode.c:242 | the payloads of a run, one per packet, in order |
| ReassemblyProperties.AnyKeyCons | modules/gst_video1/decode.c:234-235 | a run contains a key-frame NAL iff its head or its tail does |
| ReassemblyProperties.AnnexBCons | modules/gst_video1/decode.c:240-242 | the Annex B bytes of a run are the start code, the first payload, then the rest |
| ReassemblyProperties.AnnexBAfterFirst | modules/gst_video1/decode.c:240-242 | appending the first NAL unit of a run and then the rest gives the Annex B bytes of the whole run |
| ReassemblyProperties.SingleNalRunTail | modules/gst_video1/decode.c:220 | the tail of a consecutive run is consecutive and follows its head |
| ReassemblyProperties.FeedFirstSingleNal | modules/gst_video1/decode.c:233-301 | feeding a run equals feeding its tail to the state after the first packet |
| ReassemblyProperties.FeedSingleNals | modules/gst_video1/decode.c:233-301 | consecutive single NAL unit packets without the marker accumulate exactly the start-code-prefixed payloads, in order |
| ReassemblyProperties.AnnexBConcat | modules/gst_video1/decode.c:240-242 | Annex B encoding distributes over concatenation of NAL unit lists |
| ReassemblyProperties.AnyKeySnoc | modules/gst_video1/decode.c:297-298 | a run extended by one packet contains a key frame iff the run or the packet does |
| ReassemblyProperties.AccessUnitDelivered | modules/gst_video1/decode.c:202-320 | after a consecutive single-NAL run from an empty state, the marker packet pushes exactly the start-code-prefixed payloads of the whole run, if a key frame was seen |
| ReassemblyProperties.AnnexBSnoc | modules/gst_video1/decode.c:240-242 | the Annex B bytes of a run extended by one packet |
| ReassemblyProperties.FinishPushes | modules/gst_video1/decode.c:314-320 | marker, no open fragment and a key frame: the whole buffer is pushed, the buffer becomes absent, 0 or EINVAL |
| ReassemblyProperties.AccessUnitWithheld | modules/gst_video1/decode.c:308-312 | the same run with no key frame anywhere is not pushed: EPROTO, `intra` false, the buffer released and the sequence number kept |
| DecoderSpec.FailedRestartIgnoresPacket | modules/gst_video1/decode.c:339-343 | a failed restart returns its code, pushes nothing, leaves the state zeroed and not playing, whatever the packet |
| DecoderSpec.RestartStartsFresh | modules/gst_video1/decode.c:329-348 | after a successful restart the packet is parsed from the initial state, whatever the old state held |
| DecoderSpec.PlayingParsesDirectly | modules/gst_video1/decode.c:337-350 | a playing decoder is not restarted; the packet is parsed from the current state, get_frame's code returned on success |
| DecoderSpec.DecodeHealth | modules/gst_video1/decode.c:337-344 | a restart happens iff not playing; the decoder is playing afterwards unless the restart failed |
| Gstreamer.InitPipeline | modules/gst_video1/decode.c:376-441 | gstreamer_init returns 0, EINVAL, EPROTO or the launch error's code |
| Gstreamer.GetFrame | modules/gst_video1/decode.c:110-142 | get_frame returns 0 or ENOBUFS |
| GstDecoder.Decoder.constructor | modules/gst_video1/decode.c:443-447 | the state after gstreamer_init: no buffer, no fragment, no key frame, `prev_seq` 0, playing |
| GstDecoder.Decoder.DropAssembly | modules/gst_video1/decode.c:321-324 | the `out:` label: buffer released, `frag` cleared |
| GstDecoder.Decoder.Parse | modules/gst_video1/decode.c:202-325 | the fields, result and `intra` are those of `Reassembly.Step`; a pushed access unit is appended to the log of submitted units |
| GstDecoder.Decoder.AppendAndFinish | modules/gst_video1/decode.c:233-320 | computes the append phase and the common tail (`Reassembly.Complete` of `Reassembly.Dispatch`) in place |
| GstDecoder.Decoder.AppendSingleNal | modules/gst_video1/decode.c:233-245 | computes `Reassembly.SingleNal` in place |
| GstDecoder.Decoder.AppendFuA | modules/gst_video1/decode.c:247-287 | computes `Reassembly.FuA` in place |
| GstDecoder.Decoder.AppendFuStart | modules/gst_video1/decode.c:253-267 | computes `Reassembly.FuStart` in place: three appends, `frag` opened, closed again by E |
| GstDecoder.Decoder.AppendFuContinuation | modules/gst_video1/decode.c:268-287 | computes `Reassembly.FuContinuation` in place: EPROTO without an open fragment, else one append |
| GstDecoder.Decoder.Finish | modules/gst_video1/decode.c:294-320 | computes `Reassembly.Finish` in place and logs the pushed unit |
| GstDecoder.Decoder.Restart | modules/gst_video1/decode.c:329-335 | afterwards there is no buffer, `frag` and `got_keyframe` are false, `prev_seq` is 0, and `playing` holds iff gstreamer_init returned 0; the state stays valid |
| GstDecoder.Decoder.Decode | modules/gst_video1/decode.c:337-351 | the state, result and `intra` are those of `DecoderSpec.DecodeStep`, and the state stays well formed |

## Left out

- Pipeline construction and teardown (`gstreamer_init` body, `destructor`, `gst_video1_decoder_set`) are library calls. `Gstreamer.InitPipeline` only chooses one of the codes gstreamer_init can return.
- `bus_sync_handler_cb` and `new_sample` run on GStreamer threads. `playing` is a field the caller may clear, and the sample counter is not modelled.
- `get_frame`, `vframe_map` and `query_parser` deal with opaque frames and pixel planes. `Gstreamer.GetFrame` only returns 0 or ENOBUFS.
- h264_hdr_decode and h264_fu_hdr_decode come from librem, which is not part of this model. They are modelled from RFC 6184, and a missing octet is assumed to give ENOENT.
- h264_is_keyframe is a librem function. It is kept as an uninterpreted predicate `isKey` on NAL unit types.
- EncodedBuffer.GrowableBuffer.Append: the chunk count is an abstraction, with capacity taken as chunks × 78000 bytes. In GStreamer the new bytes all land in the last memory (`gst_buffer_set_size`), so the loop can add a chunk where `ChunksFor` adds none. GStreamer may also merge memories into one sized to the data. The bytes held are the same either way.
- GstDecoder.Decoder.Decode: when the restart fails, the C leaves `*intra` unwritten. The model returns false there.
- Gstreamer.InitPipeline: a GError with code 0 makes gstreamer_init return 0 with no pipeline. The model keeps launch error codes nonzero.
- Logging (`printf`, `info`, `warning`, `re_printf`) is not modelled.
