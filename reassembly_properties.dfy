/**
 * Properties of the reassembly step (Reassembly.Step), one packet at a
 * time and over runs of packets. Unless stated otherwise they hold for any
 * key-frame classification `isKey` and any behaviour `env` of the
 * allocator and the pipeline.
 */
module ReassemblyProperties {
  import opened Base
  import opened H264
  import opened Reassembly

  /* ---------- packet classification ---------- */

  /** The payload has a NAL unit header whose forbidden bit is clear. */
  predicate HeaderOk(p: Packet)
  {
    |p.payload| >= 1 && p.payload[0] < 128
  }

  function TypeOf(p: Packet): NalType
    requires |p.payload| >= 1
  {
    p.payload[0] % 32
  }

  /** The packet passes the sequence check of decode.c:220. */
  predicate InSequence(a: Assembly, p: Packet)
  {
    a.encoded.None? || p.seqNo == (a.prevSeq + 1) % 0x1_0000
  }

  /** A packet carrying one FU-A fragment with both header octets. */
  predicate IsFuA(p: Packet)
  {
    |p.payload| >= 2 && TypeOf(p) == NAL_FU_A
  }

  function StartBit(p: Packet): bool
    requires |p.payload| >= 2
  {
    p.payload[1] >= 128
  }

  function EndBit(p: Packet): bool
    requires |p.payload| >= 2
  {
    p.payload[1] / 64 % 2 == 1
  }

  /* ---------- sequence numbers ---------- */

  /** seq_diff(prev, s) == 1 exactly when s is prev + 1 modulo 2^16. */
  lemma ConsecutiveIff(prev: uint16, s: uint16)
    ensures Consecutive(prev, s) <==> s == (prev + 1) % 0x1_0000
  {
  }

  lemma WrapAroundIsConsecutive()
    ensures Consecutive(0xFFFF, 0)
    ensures !Consecutive(0, 0xFFFF) && !Consecutive(7, 7)
  {
  }

  /**
   * A repeated sequence number, and one that is up to 2^15 - 1 behind
   * (modulo 2^16), is not consecutive: seq_diff reports 0 or the negative
   * distance.
   */
  lemma RepeatOrBackwardNotConsecutive(s: uint16, k: int)
    requires 1 <= k < 0x8000
    ensures SeqDiff(s, s) == 0 && !Consecutive(s, s)
    ensures SeqDiff(s, (s + 0x1_0000 - k) % 0x1_0000) == -k
    ensures !Consecutive(s, (s + 0x1_0000 - k) % 0x1_0000)
  {
    var b := (s + 0x1_0000 - k) % 0x1_0000;
    if s >= k {
      assert b == s - k;
      assert (b - s) % 0x1_0000 == 0x1_0000 - k;
    } else {
      assert b == s + 0x1_0000 - k;
      assert (b - s) % 0x1_0000 == 0x1_0000 - k;
    }
  }

  /** The check of decode.c:220 in terms of sequence numbers. */
  lemma InSequenceIff(a: Assembly, p: Packet)
    ensures InSequence(a, p) <==> !(a.encoded.Some? && !Consecutive(a.prevSeq, p.seqNo))
  {
    ConsecutiveIff(a.prevSeq, p.seqNo);
  }

  /* ---------- the two paths through a step ---------- */

  /**
   * A packet without a usable header, or out of sequence, is rejected
   * before anything is appended: the assembly is dropped and the history
   * kept.
   */
  lemma StepRejected(a: Assembly, p: Packet, isKey: NalType -> bool, env: Env)
    requires !HeaderOk(p) || !InSequence(a, p)
    ensures var o := Step(a, p, isKey, env);
            && o.next == Abandon(a) && o.pushed.None? && !o.intra
            && (o.status.ENOENT? <==> |p.payload| == 0)
            && (o.status.EBADMSG? <==> |p.payload| >= 1 && p.payload[0] >= 128)
            && (o.status.EPROTO? <==> HeaderOk(p))
  {
    InSequenceIff(a, p);
  }

  /**
   * A packet with a usable header and in sequence goes through the append
   * phase of its type, after an open fragment was dropped if the packet
   * cannot continue it.
   */
  lemma StepAccepted(a: Assembly, p: Packet, isKey: NalType -> bool, env: Env)
    requires HeaderOk(p) && InSequence(a, p)
    ensures var h := DecodeNalHeader(p.payload[0]);
            Step(a, p, isKey, env) == Complete(Dispatch(LeaveFragment(a, h), h, p, isKey, env.oomAt), p, env.pushOk)
  {
    InSequenceIff(a, p);
  }

  /**
   * The append phase changes neither `prev_seq` nor the key-frame latch and
   * pushes nothing; an early return is an error, and running out of memory
   * leaves no buffer and no fragment.
   */
  lemma DispatchKeepsHistory(a: Assembly, h: NalHeader, p: Packet, isKey: NalType -> bool, oomAt: Option<nat>)
    requires |p.payload| >= 1
    ensures match Dispatch(a, h, p, isKey, oomAt)
            case Done(o) =>
              && o.next.prevSeq == a.prevSeq && o.next.gotKeyframe == a.gotKeyframe && o.pushed.None?
              && (o.status.EBADMSG? || o.status.ENOENT? || o.status.EPROTO? || o.status.ENOMEM?)
              && (o.status.ENOMEM? ==> o.next == Abandon(a) && oomAt.Some?)
            case Appended(a2, _) =>
              a2.prevSeq == a.prevSeq && a2.gotKeyframe == a.gotKeyframe && a2.encoded.Some?
  {
  }

  /* ---------- rejections ---------- */

  /** An empty payload has no NAL unit header: ENOENT, assembly dropped. */
  lemma EmptyPayloadRejected(a: Assembly, p: Packet, isKey: NalType -> bool, env: Env)
    requires |p.payload| == 0
    ensures Step(a, p, isKey, env) == Outcome(Abandon(a), ENOENT, false, None)
  {
  }

  /**
   * Forbidden bit set: EBADMSG, the buffer is released and `frag` cleared,
   * but `prev_seq` and `got_keyframe` are kept.
   */
  lemma ForbiddenBitRejected(a: Assembly, p: Packet, isKey: NalType -> bool, env: Env)
    requires |p.payload| >= 1 && p.payload[0] >= 128
    ensures var o := Step(a, p, isKey, env);
            && o.status == EBADMSG && o.pushed.None? && !o.intra
            && o.next == Assembly(None, false, a.gotKeyframe, a.prevSeq)
  {
  }

  /**
   * With a buffer present, a packet whose sequence number does not follow
   * `prev_seq` (seq_diff is not 1; by ConsecutiveIff, exactly when it is not
   * `prev_seq + 1` modulo 2^16) is rejected with EPROTO; the buffer is
   * released, `frag` cleared and `prev_seq` kept.
   */
  lemma SequenceGapRejected(a: Assembly, p: Packet, isKey: NalType -> bool, env: Env)
    requires HeaderOk(p) && a.encoded.Some? && !Consecutive(a.prevSeq, p.seqNo)
    ensures var o := Step(a, p, isKey, env);
            && o.status == EPROTO && o.pushed.None?
            && o.next == Assembly(None, false, a.gotKeyframe, a.prevSeq)
  {
  }

  /**
   * Without a buffer the sequence number is not checked: it changes
   * nothing but the `prev_seq` recorded.
   */
  lemma NoBufferAcceptsAnySequence(a: Assembly, p: Packet, s: uint16, isKey: NalType -> bool, env: Env)
    requires a.encoded.None?
    ensures var o1, o2 := Step(a, p, isKey, env), Step(a, p.(seqNo := s), isKey, env);
            && o1.status == o2.status && o1.intra == o2.intra && o1.pushed == o2.pushed
            && o1.next.(prevSeq := 0) == o2.next.(prevSeq := 0)
  {
    var p2 := p.(seqNo := s);
    if HeaderOk(p) {
      StepAccepted(a, p, isKey, env);
      StepAccepted(a, p2, isKey, env);
      var h := DecodeNalHeader(p.payload[0]);
      var ph := Dispatch(LeaveFragment(a, h), h, p, isKey, env.oomAt);
      assert Dispatch(LeaveFragment(a, h), h, p2, isKey, env.oomAt) == ph;
    } else {
      StepRejected(a, p, isKey, env);
      StepRejected(a, p2, isKey, env);
    }
  }

  /**
   * NAL unit types 0, 24-27 and 29-31 are refused with EBADMSG; nothing is
   * appended and nothing is reset beyond dropping an open fragment.
   */
  lemma UnsupportedTypeRejected(a: Assembly, p: Packet, isKey: NalType -> bool, env: Env)
    requires HeaderOk(p) && InSequence(a, p)
    requires TypeOf(p) == 0 || 24 <= TypeOf(p) <= 27 || 29 <= TypeOf(p)
    ensures Step(a, p, isKey, env) == Outcome(if a.frag then Abandon(a) else a, EBADMSG, false, None)
  {
    InSequenceIff(a, p);
  }

  /**
   * A continuation fragment while no fragmented NAL unit is open is an
   * orphan: EPROTO, the buffer released.
   */
  lemma OrphanFragmentRejected(a: Assembly, p: Packet, isKey: NalType -> bool, env: Env)
    requires HeaderOk(p) && InSequence(a, p) && IsFuA(p) && !StartBit(p) && !a.frag
    ensures Step(a, p, isKey, env) == Outcome(Abandon(a), EPROTO, false, None)
  {
    InSequenceIff(a, p);
  }

  /**
   * A packet that is not FU-A while a fragmented NAL unit is open drops the
   * unfinished access unit and is then processed as on an empty state.
   */
  lemma NonFragmentRestartsAssembly(a: Assembly, p: Packet, isKey: NalType -> bool, env: Env)
    requires a.frag && HeaderOk(p) && InSequence(a, p) && TypeOf(p) != NAL_FU_A
    ensures Step(a, p, isKey, env) == Step(Abandon(a), p, isKey, env)
  {
    InSequenceIff(a, p);
  }

  /* ---------- what is appended ---------- */

  /**
   * A single NAL unit packet appends the start code and the whole payload,
   * header octet included, after whatever the buffer held (nothing, if a
   * fragment was open); then `prev_seq` is the packet's and the key-frame
   * latch is set for a key-frame type.
   */
  lemma SingleNalStep(a: Assembly, p: Packet, isKey: NalType -> bool, env: Env)
    requires HeaderOk(p) && InSequence(a, p) && 1 <= TypeOf(p) <= 23 && !OomIn(env.oomAt, 0, 2)
    ensures Step(a, p, isKey, env) ==
              Finish(Assembly(Some((if a.frag then [] else Contents(a)) + START_CODE + p.payload),
                              false, a.gotKeyframe, a.prevSeq),
                     p, isKey(TypeOf(p)), env.pushOk)
  {
    InSequenceIff(a, p);
  }

  lemma SingleNalAppended(a: Assembly, p: Packet, isKey: NalType -> bool, env: Env)
    requires HeaderOk(p) && InSequence(a, p) && 1 <= TypeOf(p) <= 23
    requires !OomIn(env.oomAt, 0, 2) && !p.marker
    ensures var o := Step(a, p, isKey, env);
            && o.status == Ok && o.pushed.None? && o.intra == isKey(TypeOf(p))
            && o.next == Assembly(
                 Some((if a.frag then [] else Contents(a)) + START_CODE + p.payload),
                 false, a.gotKeyframe || isKey(TypeOf(p)), p.seqNo)
  {
    SingleNalStep(a, p, isKey, env);
  }

  /**
   * An FU-A start fragment appends the start code, the octet made of F and
   * NRI of the FU indicator and Type of the FU header, and the payload after
   * the two header octets; the fragment stays open unless E is also set.
   */
  lemma FuStartAppended(a: Assembly, p: Packet, isKey: NalType -> bool, env: Env)
    requires HeaderOk(p) && InSequence(a, p) && IsFuA(p) && StartBit(p)
    requires !OomIn(env.oomAt, 0, 3) && !p.marker
    ensures var o := Step(a, p, isKey, env);
            var header := p.payload[0] - p.payload[0] % 32 + p.payload[1] % 32;
            && o.status == Ok && o.pushed.None? && o.intra == isKey(p.payload[1] % 32)
            && o.next == Assembly(
                 Some(Contents(a) + START_CODE + [header] + p.payload[2..]),
                 !EndBit(p), a.gotKeyframe || isKey(p.payload[1] % 32), p.seqNo)
  {
    InSequenceIff(a, p);
    ReconstructedHeaderOctets(p.payload);
  }

  /**
   * A continuation fragment of an open FU-A appends only the payload after
   * its two header octets.
   */
  lemma FuContinuationAppended(a: Assembly, p: Packet, isKey: NalType -> bool, env: Env)
    requires HeaderOk(p) && InSequence(a, p) && IsFuA(p) && !StartBit(p) && a.frag
    requires !OomIn(env.oomAt, 0, 1) && !p.marker
    ensures var o := Step(a, p, isKey, env);
            && o.status == Ok && o.pushed.None? && !o.intra
            && o.next == Assembly(Some(Contents(a) + p.payload[2..]), !EndBit(p), a.gotKeyframe, p.seqNo)
  {
    InSequenceIff(a, p);
  }

  /**
   * After an FU-A packet with the E bit no fragment is open, whatever the
   * outcome, also when S and E are set in the same packet.
   */
  lemma EndBitClosesFragment(a: Assembly, p: Packet, isKey: NalType -> bool, env: Env)
    requires HeaderOk(p) && IsFuA(p) && EndBit(p)
    ensures !Step(a, p, isKey, env).next.frag
  {
  }

  /** Running out of memory releases the buffer and keeps the history. */
  lemma OutOfMemoryReleases(a: Assembly, p: Packet, isKey: NalType -> bool, env: Env)
    ensures var o := Step(a, p, isKey, env);
            o.status == ENOMEM ==>
              && o.next == Assembly(None, false, a.gotKeyframe, a.prevSeq)
              && o.pushed.None? && env.oomAt.Some?
  {
    if HeaderOk(p) && InSequence(a, p) {
      StepAccepted(a, p, isKey, env);
      var h := DecodeNalHeader(p.payload[0]);
      DispatchKeepsHistory(LeaveFragment(a, h), h, p, isKey, env.oomAt);
    } else {
      StepRejected(a, p, isKey, env);
    }
  }

  /* ---------- history: prev_seq and the key-frame latch ---------- */

  /**
   * The key-frame latch is never cleared; a success records the packet's
   * sequence number and latches a key-frame NAL unit; the header, type and
   * memory failures change neither.
   */
  lemma HistoryUpdate(a: Assembly, p: Packet, isKey: NalType -> bool, env: Env)
    ensures var o := Step(a, p, isKey, env);
            && (a.gotKeyframe ==> o.next.gotKeyframe)
            && (o.next.prevSeq == a.prevSeq || o.next.prevSeq == p.seqNo)
            && (o.status.Ok? ==> o.next.prevSeq == p.seqNo && o.next.gotKeyframe == (a.gotKeyframe || o.intra))
            && (o.status.ENOENT? || o.status.EBADMSG? || o.status.ENOMEM? ==>
                  o.next.prevSeq == a.prevSeq && o.next.gotKeyframe == a.gotKeyframe)
  {
    if HeaderOk(p) && InSequence(a, p) {
      StepAccepted(a, p, isKey, env);
      var h := DecodeNalHeader(p.payload[0]);
      DispatchKeepsHistory(LeaveFragment(a, h), h, p, isKey, env.oomAt);
    } else {
      StepRejected(a, p, isKey, env);
    }
  }

  /* ---------- the marker bit ---------- */

  /**
   * Without the marker nothing is pushed and a success keeps the buffer; an
   * access unit is pushed only on the marker, with no fragment open and a
   * key frame seen, and the buffer is then handed over entirely. The result
   * is 0, or EINVAL when the pipeline refuses it.
   */
  lemma MarkerOutcomes(a: Assembly, p: Packet, isKey: NalType -> bool, env: Env)
    ensures var o := Step(a, p, isKey, env);
            && (!p.marker ==> o.pushed.None?)
            && (!p.marker && o.status.Ok? ==> o.next.encoded.Some?)
            && (p.marker && o.status.Ok? ==> o.pushed.Some?)
            && (o.pushed.Some? ==>
                  && p.marker && o.next == Assembly(None, false, true, p.seqNo)
                  && (a.gotKeyframe || o.intra)
                  && o.status == (if env.pushOk then Ok else EINVAL))
  {
    if HeaderOk(p) && InSequence(a, p) {
      StepAccepted(a, p, isKey, env);
      var h := DecodeNalHeader(p.payload[0]);
      DispatchKeepsHistory(LeaveFragment(a, h), h, p, isKey, env.oomAt);
    } else {
      StepRejected(a, p, isKey, env);
    }
  }

  /** `d` is what `s` ends with. */
  predicate EndsWith(s: seq<byte>, d: seq<byte>)
  {
    |d| <= |s| && s[|s| - |d|..] == d
  }

  lemma EndsWithAppend(c: seq<byte>, d: seq<byte>)
    ensures EndsWith(c + d, d)
  {
    assert (c + d)[|c|..] == d;
  }

  /**
   * When the append phase appends, the buffer ends with the packet's data:
   * the whole payload of a single NAL unit, the payload after the two
   * header octets of an FU-A; an FU-A leaves its fragment open unless E.
   */
  lemma DispatchAppendsData(a: Assembly, h: NalHeader, p: Packet, isKey: NalType -> bool, oomAt: Option<nat>)
    requires |p.payload| >= 1 && h == DecodeNalHeader(p.payload[0]) && (a.frag ==> h.nalType == NAL_FU_A)
    ensures match Dispatch(a, h, p, isKey, oomAt)
            case Done(_) => true
            case Appended(a2, _) =>
              && a2.encoded.Some?
              && (TypeOf(p) != NAL_FU_A ==> !a2.frag && EndsWith(a2.encoded.value, p.payload))
              && (TypeOf(p) == NAL_FU_A ==>
                    IsFuA(p) && a2.frag == !EndBit(p) && EndsWith(a2.encoded.value, p.payload[2..]))
  {
    var ph := Dispatch(a, h, p, isKey, oomAt);
    if ph.Appended? {
      if 1 <= h.nalType <= 23 {
        EndsWithAppend(Contents(a) + START_CODE, p.payload);
      } else {
        var fu := ParseFuHeader(p.payload).value;
        if fu.s {
          EndsWithAppend(Contents(a) + START_CODE + [ReconstructedHeader(h, fu)], p.payload[2..]);
        } else {
          EndsWithAppend(Contents(a), p.payload[2..]);
        }
      }
    }
  }

  /**
   * A pushed access unit ends with the data of the packet that carried the
   * marker; an FU-A can push only with its E bit set.
   */
  lemma PushedUnitEndsWithPacket(a: Assembly, p: Packet, isKey: NalType -> bool, env: Env)
    ensures var o := Step(a, p, isKey, env);
            o.pushed.Some? ==>
              && |p.payload| >= 1
              && (TypeOf(p) != NAL_FU_A ==> EndsWith(o.pushed.value, p.payload))
              && (TypeOf(p) == NAL_FU_A ==> IsFuA(p) && EndBit(p) && EndsWith(o.pushed.value, p.payload[2..]))
  {
    if HeaderOk(p) && InSequence(a, p) {
      StepAccepted(a, p, isKey, env);
      var h := DecodeNalHeader(p.payload[0]);
      DispatchAppendsData(LeaveFragment(a, h), h, p, isKey, env.oomAt);
    } else {
      StepRejected(a, p, isKey, env);
    }
  }

  /**
   * An access unit cannot end inside a fragmented NAL unit: an FU-A without
   * E that carries the marker, whether it opens the fragment or continues
   * it, gives EPROTO and drops everything, with `prev_seq` already updated.
   */
  lemma IncompleteFragmentAtMarker(a: Assembly, p: Packet, isKey: NalType -> bool, env: Env)
    requires HeaderOk(p) && InSequence(a, p) && IsFuA(p) && !EndBit(p) && (StartBit(p) || a.frag)
    requires !OomIn(env.oomAt, 0, 3) && p.marker
    ensures var o := Step(a, p, isKey, env);
            && o.status == EPROTO && o.pushed.None?
            && o.next == Assembly(None, false, a.gotKeyframe || (StartBit(p) && isKey(p.payload[1] % 32)), p.seqNo)
  {
    StepAccepted(a, p, isKey, env);
    var h := DecodeNalHeader(p.payload[0]);
    var fu := DecodeFuHeader(p.payload[1]);
    assert LeaveFragment(a, h) == a && ParseFuHeader(p.payload) == Some(fu);
    var ph := Dispatch(a, h, p, isKey, env.oomAt);
    if StartBit(p) {
      assert ph == FuStart(a, h, fu, p, isKey, env.oomAt);
    } else {
      assert ph == FuContinuation(a, fu, p, env.oomAt);
    }
    assert ph.Appended? && ph.a.frag;
  }

  /**
   * Before any key frame, a complete access unit is not pushed: EPROTO, the
   * buffer dropped, `prev_seq` updated.
   */
  lemma AwaitingKeyframe(a: Assembly, p: Packet, isKey: NalType -> bool, env: Env)
    requires HeaderOk(p) && InSequence(a, p) && 1 <= TypeOf(p) <= 23
    requires !a.gotKeyframe && !isKey(TypeOf(p))
    requires !OomIn(env.oomAt, 0, 2) && p.marker
    ensures Step(a, p, isKey, env) == Outcome(Assembly(None, false, false, p.seqNo), EPROTO, false, None)
  {
    InSequenceIff(a, p);
  }

  /**
   * The same for an access unit that ends with the last fragment of an
   * FU-A (or with a one-packet FU-A carrying both S and E) when no key frame
   * was seen.
   */
  lemma FragmentedAwaitingKeyframe(a: Assembly, p: Packet, isKey: NalType -> bool, env: Env)
    requires HeaderOk(p) && InSequence(a, p) && IsFuA(p) && EndBit(p) && (StartBit(p) || a.frag)
    requires !a.gotKeyframe && !(StartBit(p) && isKey(p.payload[1] % 32))
    requires !OomIn(env.oomAt, 0, 3) && p.marker
    ensures Step(a, p, isKey, env) == Outcome(Assembly(None, false, false, p.seqNo), EPROTO, false, None)
  {
    StepAccepted(a, p, isKey, env);
  }

  /**
   * The last fragment of an open FU-A, carrying the marker after a key
   * frame: the buffer with this fragment's data appended is pushed whole,
   * and the buffer becomes absent.
   */
  lemma FragmentedAccessUnitPushed(a: Assembly, p: Packet, isKey: NalType -> bool, env: Env)
    requires HeaderOk(p) && InSequence(a, p) && IsFuA(p) && !StartBit(p) && EndBit(p) && a.frag
    requires a.gotKeyframe && !OomIn(env.oomAt, 0, 1) && p.marker
    ensures Step(a, p, isKey, env) ==
              Outcome(Assembly(None, false, true, p.seqNo), if env.pushOk then Ok else EINVAL, false,
                      Some(Contents(a) + p.payload[2..]))
  {
    StepAccepted(a, p, isKey, env);
  }

  /* ---------- the invariant ---------- */

  lemma StartCodePrefix(prefix: seq<byte>, rest: seq<byte>)
    requires |prefix| >= 4 && prefix[..4] == START_CODE
    ensures |prefix + rest| >= 4 && (prefix + rest)[..4] == START_CODE
  {
    assert (prefix + rest)[..4] == prefix[..4];
  }

  /** A phase result that leaves or hands over only well-formed states. */
  predicate PhaseWellFormed(ph: Phase)
  {
    match ph
    case Done(o) => WellFormed(o.next) && o.pushed.None?
    case Appended(a, _) => WellFormed(a) && a.encoded.Some?
  }

  lemma SingleNalWellFormed(a: Assembly, p: Packet, isKey: NalType -> bool, oomAt: Option<nat>)
    requires WellFormed(a) && !a.frag && |p.payload| >= 1
    ensures PhaseWellFormed(SingleNal(a, p, isKey, oomAt))
  {
    if a.encoded.Some? {
      StartCodePrefix(a.encoded.value, START_CODE + p.payload);
      assert Contents(a) + START_CODE + p.payload == a.encoded.value + (START_CODE + p.payload);
    } else {
      StartCodePrefix(START_CODE, p.payload);
    }
  }

  lemma FuAWellFormed(a: Assembly, h: NalHeader, p: Packet, isKey: NalType -> bool, oomAt: Option<nat>)
    requires WellFormed(a) && |p.payload| >= 1
    ensures PhaseWellFormed(FuA(a, h, p, isKey, oomAt))
  {
    if |p.payload| >= 2 {
      var fu := ParseFuHeader(p.payload).value;
      var tail := [ReconstructedHeader(h, fu)] + p.payload[2..];
      if a.encoded.Some? {
        StartCodePrefix(a.encoded.value, p.payload[2..]);
        StartCodePrefix(a.encoded.value, START_CODE + tail);
        assert Contents(a) + START_CODE + [ReconstructedHeader(h, fu)] + p.payload[2..]
            == a.encoded.value + (START_CODE + tail);
      } else {
        StartCodePrefix(START_CODE, tail);
        assert Contents(a) + START_CODE + [ReconstructedHeader(h, fu)] + p.payload[2..]
            == START_CODE + tail;
      }
    }
  }

  lemma FinishWellFormed(a: Assembly, p: Packet, intra: bool, pushOk: bool)
    requires WellFormed(a) && a.encoded.Some?
    ensures WellFormed(Finish(a, p, intra, pushOk).next)
    ensures var o := Finish(a, p, intra, pushOk);
            o.pushed.Some? ==> |o.pushed.value| >= 4 && o.pushed.value[..4] == START_CODE
  {
  }

  /** The append phase, for either kind of packet, keeps the state well formed. */
  lemma DispatchWellFormed(a: Assembly, h: NalHeader, p: Packet, isKey: NalType -> bool, oomAt: Option<nat>)
    requires WellFormed(a) && |p.payload| >= 1 && (a.frag ==> h.nalType == NAL_FU_A)
    ensures PhaseWellFormed(Dispatch(a, h, p, isKey, oomAt))
  {
    if 1 <= h.nalType <= 23 {
      SingleNalWellFormed(a, p, isKey, oomAt);
    } else if h.nalType == NAL_FU_A {
      FuAWellFormed(a, h, p, isKey, oomAt);
    }
  }

  /**
   * Every step keeps the state well formed (an open fragment has a buffer,
   * a buffer starts with a start code), and a pushed access unit starts
   * with a start code.
   */
  lemma StepPreservesWellFormed(a: Assembly, p: Packet, isKey: NalType -> bool, env: Env)
    requires WellFormed(a)
    ensures WellFormed(Step(a, p, isKey, env).next)
    ensures var o := Step(a, p, isKey, env);
            o.pushed.Some? ==> |o.pushed.value| >= 4 && o.pushed.value[..4] == START_CODE
  {
    if HeaderOk(p) && InSequence(a, p) {
      StepAccepted(a, p, isKey, env);
      var h := DecodeNalHeader(p.payload[0]);
      var ph := Dispatch(LeaveFragment(a, h), h, p, isKey, env.oomAt);
      DispatchWellFormed(LeaveFragment(a, h), h, p, isKey, env.oomAt);
      if ph.Appended? {
        FinishWellFormed(ph.a, p, ph.intra, env.pushOk);
      }
    } else {
      StepRejected(a, p, isKey, env);
    }
  }

  /* ---------- runs of packets ---------- */

  /** The state after a run of packets with no allocation failure. */
  function Feed(a: Assembly, ps: seq<Packet>, isKey: NalType -> bool): Assembly
    decreases |ps|
  {
    if ps == [] then a else Feed(Step(a, ps[0], isKey, Plenty).next, ps[1..], isKey)
  }

  /** Each NAL unit preceded by the Annex B start code. */
  function AnnexB(nals: seq<seq<byte>>): seq<byte>
  {
    if nals == [] then [] else START_CODE + nals[0] + AnnexB(nals[1..])
  }

  function Payloads(ps: seq<Packet>): (r: seq<seq<byte>>)
    ensures |r| == |ps| && forall i :: 0 <= i < |ps| ==> r[i] == ps[i].payload
  {
    if ps == [] then [] else [ps[0].payload] + Payloads(ps[1..])
  }

  /** Single NAL unit packets without the marker, numbered consecutively. */
  predicate SingleNalRun(ps: seq<Packet>)
  {
    && (forall i :: 0 <= i < |ps| ==> HeaderOk(ps[i]) && 1 <= TypeOf(ps[i]) <= 23 && !ps[i].marker)
    && (forall i :: 0 < i < |ps| ==> ps[i].seqNo == (ps[i - 1].seqNo + 1) % 0x1_0000)
  }

  /** Some packet of the run carries a key-frame NAL unit. */
  predicate AnyKey(ps: seq<Packet>, isKey: NalType -> bool)
  {
    exists i :: 0 <= i < |ps| && |ps[i].payload| >= 1 && isKey(TypeOf(ps[i]))
  }

  lemma AnyKeyCons(ps: seq<Packet>, isKey: NalType -> bool)
    requires |ps| >= 1 && |ps[0].payload| >= 1
    ensures AnyKey(ps, isKey) <==> isKey(TypeOf(ps[0])) || AnyKey(ps[1..], isKey)
  {
    var rest := ps[1..];
    if AnyKey(ps, isKey) && !isKey(TypeOf(ps[0])) {
      var i :| 0 <= i < |ps| && |ps[i].payload| >= 1 && isKey(TypeOf(ps[i]));
      assert i > 0 && rest[i - 1] == ps[i];
    }
    if AnyKey(rest, isKey) {
      var i :| 0 <= i < |rest| && |rest[i].payload| >= 1 && isKey(TypeOf(rest[i]));
      assert ps[i + 1] == rest[i];
    }
  }

  lemma AnnexBCons(ps: seq<Packet>)
    requires |ps| >= 1
    ensures AnnexB(Payloads(ps)) == START_CODE + ps[0].payload + AnnexB(Payloads(ps[1..]))
  {
    assert Payloads(ps) == [ps[0].payload] + Payloads(ps[1..]);
  }

  lemma SingleNalRunTail(ps: seq<Packet>)
    requires |ps| >= 2 && SingleNalRun(ps)
    ensures SingleNalRun(ps[1..]) && ps[1..][0].seqNo == (ps[0].seqNo + 1) % 0x1_0000
  {
    var rest := ps[1..];
    forall i | 0 < i < |rest| ensures rest[i].seqNo == (rest[i - 1].seqNo + 1) % 0x1_0000 {
      assert rest[i] == ps[i + 1] && rest[i - 1] == ps[i];
    }
  }

  /** The first packet of a single NAL unit run, fed to the state. */
  lemma FeedFirstSingleNal(a: Assembly, ps: seq<Packet>, isKey: NalType -> bool)
    requires !a.frag && |ps| >= 1 && SingleNalRun(ps) && InSequence(a, ps[0])
    ensures Feed(a, ps, isKey) ==
              Feed(Assembly(Some(Contents(a) + START_CODE + ps[0].payload), false,
                            a.gotKeyframe || isKey(TypeOf(ps[0])), ps[0].seqNo), ps[1..], isKey)
  {
    SingleNalAppended(a, ps[0], isKey, Plenty);
  }

  /**
   * A run of consecutive single NAL unit packets without the marker
   * accumulates, after what the buffer held, each payload preceded by the
   * start code and nothing else.
   */
  lemma {:induction false} FeedSingleNals(a: Assembly, ps: seq<Packet>, isKey: NalType -> bool)
    requires !a.frag && |ps| >= 1 && SingleNalRun(ps) && InSequence(a, ps[0])
    ensures Feed(a, ps, isKey) ==
              Assembly(Some(Contents(a) + AnnexB(Payloads(ps))), false,
                       a.gotKeyframe || AnyKey(ps, isKey), ps[|ps| - 1].seqNo)
    decreases |ps|
  {
    var p := ps[0];
    var rest := ps[1..];
    var a' := Assembly(Some(Contents(a) + START_CODE + p.payload), false,
                       a.gotKeyframe || isKey(TypeOf(p)), p.seqNo);
    FeedFirstSingleNal(a, ps, isKey);
    AnnexBAfterFirst(Contents(a), ps);
    AnyKeyCons(ps, isKey);
    if rest == [] {
      assert AnyKey(rest, isKey) == false;
      assert Feed(a', rest, isKey) == a';
      assert |ps| == 1 && ps[|ps| - 1] == p;
    } else {
      SingleNalRunTail(ps);
      FeedSingleNals(a', rest, isKey);
      assert ps[|ps| - 1] == rest[|rest| - 1];
    }
  }

  /** What follows the first NAL unit of a run, after any prefix. */
  lemma AnnexBAfterFirst(c: seq<byte>, ps: seq<Packet>)
    requires |ps| >= 1
    ensures c + START_CODE + ps[0].payload + AnnexB(Payloads(ps[1..])) == c + AnnexB(Payloads(ps))
    ensures |ps| == 1 ==> c + START_CODE + ps[0].payload == c + AnnexB(Payloads(ps))
  {
    AnnexBCons(ps);
    var rest := AnnexB(Payloads(ps[1..]));
    Regroup(c, START_CODE, ps[0].payload, rest);
    if |ps| == 1 {
      assert rest == [];
      assert c + START_CODE + ps[0].payload + rest == c + START_CODE + ps[0].payload;
    }
  }

  lemma Regroup<T>(w: seq<T>, x: seq<T>, y: seq<T>, z: seq<T>)
    ensures w + x + y + z == w + (x + y + z)
  {
  }

  lemma {:induction false} AnnexBConcat(xs: seq<seq<byte>>, ys: seq<seq<byte>>)
    ensures AnnexB(xs + ys) == AnnexB(xs) + AnnexB(ys)
    decreases |xs|
  {
    if xs == [] {
      assert xs + ys == ys;
    } else {
      assert (xs + ys)[0] == xs[0] && (xs + ys)[1..] == xs[1..] + ys;
      AnnexBConcat(xs[1..], ys);
    }
  }

  lemma AnyKeySnoc(ps: seq<Packet>, last: Packet, isKey: NalType -> bool)
    requires |last.payload| >= 1
    ensures AnyKey(ps + [last], isKey) <==> AnyKey(ps, isKey) || isKey(TypeOf(last))
  {
    var qs := ps + [last];
    if AnyKey(ps, isKey) {
      var i :| 0 <= i < |ps| && |ps[i].payload| >= 1 && isKey(TypeOf(ps[i]));
      assert qs[i] == ps[i];
    }
    if isKey(TypeOf(last)) {
      assert qs[|ps|] == last;
    }
    if AnyKey(qs, isKey) {
      var i :| 0 <= i < |qs| && |qs[i].payload| >= 1 && isKey(TypeOf(qs[i]));
      if i < |ps| {
        assert qs[i] == ps[i];
      }
    }
  }

  /**
   * A single NAL unit packet closing the access unit: after a run of
   * consecutive single NAL unit packets started without a buffer, the last
   * packet with the marker pushes exactly the start-code-prefixed payloads
   * of all packets, in order and with nothing else, provided a key frame has
   * been seen; the buffer is then absent.
   */
  lemma AccessUnitDelivered(a: Assembly, ps: seq<Packet>, last: Packet, isKey: NalType -> bool)
    requires a.encoded.None? && !a.frag && SingleNalRun(ps)
    requires HeaderOk(last) && 1 <= TypeOf(last) <= 23 && last.marker
    requires |ps| >= 1 ==> last.seqNo == (ps[|ps| - 1].seqNo + 1) % 0x1_0000
    requires a.gotKeyframe || AnyKey(ps + [last], isKey)
    ensures Step(Feed(a, ps, isKey), last, isKey, Plenty) ==
              Outcome(Assembly(None, false, true, last.seqNo), Ok, isKey(TypeOf(last)),
                      Some(AnnexB(Payloads(ps + [last]))))
  {
    var b := Feed(a, ps, isKey);
    if ps == [] {
      assert b == a;
    } else {
      FeedSingleNals(a, ps, isKey);
    }
    assert Contents(b) == AnnexB(Payloads(ps)) && !b.frag && InSequence(b, last);
    assert b.gotKeyframe == (a.gotKeyframe || AnyKey(ps, isKey));
    AnyKeySnoc(ps, last, isKey);
    AnnexBSnoc(ps, last);
    var b2 := Assembly(Some(Contents(b) + START_CODE + last.payload), false, b.gotKeyframe, b.prevSeq);
    SingleNalStep(b, last, isKey, Plenty);
    FinishPushes(b2, last, isKey(TypeOf(last)), true);
  }

  lemma AnnexBSnoc(ps: seq<Packet>, last: Packet)
    ensures AnnexB(Payloads(ps + [last])) == AnnexB(Payloads(ps)) + START_CODE + last.payload
  {
    assert Payloads(ps + [last]) == Payloads(ps) + [last.payload];
    AnnexBConcat(Payloads(ps), [last.payload]);
    assert AnnexB([last.payload]) == START_CODE + last.payload + AnnexB([]);
  }

  /** The marker with no fragment open and a key frame seen pushes the buffer. */
  lemma FinishPushes(a: Assembly, p: Packet, intra: bool, pushOk: bool)
    requires p.marker && !a.frag && (a.gotKeyframe || intra) && a.encoded.Some?
    ensures Finish(a, p, intra, pushOk) ==
              Outcome(Assembly(None, false, true, p.seqNo), if pushOk then Ok else EINVAL,
                      intra, Some(a.encoded.value))
  {
  }

  /**
   * The same run when no packet of it is a key frame and none was seen
   * before: the access unit is not pushed and EPROTO is returned.
   */
  lemma AccessUnitWithheld(a: Assembly, ps: seq<Packet>, last: Packet, isKey: NalType -> bool)
    requires a.encoded.None? && !a.frag && SingleNalRun(ps)
    requires HeaderOk(last) && 1 <= TypeOf(last) <= 23 && last.marker
    requires |ps| >= 1 ==> last.seqNo == (ps[|ps| - 1].seqNo + 1) % 0x1_0000
    requires !a.gotKeyframe && !AnyKey(ps + [last], isKey)
    ensures Step(Feed(a, ps, isKey), last, isKey, Plenty) ==
              Outcome(Assembly(None, false, false, last.seqNo), EPROTO, false, None)
  {
    var b := Feed(a, ps, isKey);
    if ps == [] {
      assert b == a;
    } else {
      FeedSingleNals(a, ps, isKey);
    }
    AnyKeySnoc(ps, last, isKey);
    SingleNalStep(b, last, isKey, Plenty);
  }
}
