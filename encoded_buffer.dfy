/**
 * The growable buffer that collects the Annex B bytes of one access unit
 * (the GstBuffer behind `encoded_buf`, decode.c:144-200). It is either
 * absent (the NULL pointer) or present, holding its bytes in a whole number
 * of fixed-size chunks; appending adds chunks until the new bytes fit.
 */
module EncodedBuffer {
  import opened Base
  import Gstreamer

  /** PACKET_SIZE (decode.c:17). */
  const PACKET_SIZE: nat := 1300

  /** Size of every chunk the buffer is made of: sixty packets. */
  const CHUNK_SIZE: nat := PACKET_SIZE * 60

  /**
   * The number of chunks after growing a buffer of `start` chunks until
   * `size` bytes fit: enough for `size`, and one chunk fewer would not have
   * been enough unless no chunk was added.
   */
  function ChunksFor(start: nat, size: nat): (c: nat)
    ensures c >= start && c * CHUNK_SIZE >= size
    ensures c == start || (c - 1) * CHUNK_SIZE < size
    decreases if size > start * CHUNK_SIZE then size - start * CHUNK_SIZE else 0
  {
    if start * CHUNK_SIZE >= size then start else ChunksFor(start + 1, size)
  }

  class GrowableBuffer {
    /** False when the buffer pointer is NULL. */
    var present: bool
    /** The bytes written so far. */
    var bytes: seq<byte>
    /** The number of CHUNK_SIZE memories the buffer is made of. */
    var chunks: nat

    ghost predicate Valid()
      reads this
    {
      && (!present ==> bytes == [] && chunks == 0)
      && (present ==> 1 <= chunks && |bytes| <= chunks * CHUNK_SIZE)
    }

    function Capacity(): nat
      reads this
    {
      chunks * CHUNK_SIZE
    }

    constructor ()
      ensures Valid() && !present
    {
      present, bytes, chunks := false, [], 0;
    }

    /** buffer_empty: drops the buffer, whatever it held. */
    method Release()
      modifies this
      ensures Valid() && !present
    {
      present, bytes, chunks := false, [], 0;
    }

    /**
     * Hands the bytes over to another owner; the buffer pointer becomes
     * NULL without the bytes being released here.
     */
    method Detach() returns (au: seq<byte>)
      modifies this
      ensures Valid() && !present
      ensures au == old(bytes)
    {
      au := bytes;
      present, bytes, chunks := false, [], 0;
    }

    /**
     * append_data_to_buffer: on success the bytes are the old bytes
     * followed by `data`, in as many chunks as needed (one to start with if
     * the buffer was absent). When a chunk cannot be allocated or the copy
     * falls short, the whole buffer is released and ENOMEM returned.
     */
    method Append(data: seq<byte>) returns (st: Status)
      requires Valid()
      modifies this
      ensures Valid()
      ensures st.Ok? || st.ENOMEM?
      ensures st.Ok? ==> present && bytes == old(bytes) + data
      ensures st.Ok? ==> |bytes| == |old(bytes)| + |data|
      ensures st.Ok? ==>
                chunks == ChunksFor(if old(present) then old(chunks) else 1, |old(bytes)| + |data|)
      ensures st.ENOMEM? ==> !present
    {
      if !present {
        var ok := Gstreamer.AllocChunk();
        if !ok {
          Release();
          return ENOMEM;
        }
        present, bytes, chunks := true, [], 1;
      }
      var currsize := |bytes|;
      var newsize := currsize + |data|;
      ghost var first := chunks;
      while Capacity() < newsize
        invariant present && bytes == old(bytes) && |bytes| == currsize
        invariant first <= chunks && |bytes| <= chunks * CHUNK_SIZE
        invariant ChunksFor(chunks, newsize) == ChunksFor(first, newsize)
        decreases newsize - Capacity()
      {
        var ok := Gstreamer.AllocChunk();
        if !ok {
          Release();
          return ENOMEM;
        }
        chunks := chunks + 1;
      }
      // gst_buffer_set_size followed by gst_buffer_fill at offset currsize
      bytes := bytes + data;
      var copied := Gstreamer.Fill(|data|);
      if copied != |data| {
        Release();
        return ENOMEM;
      }
      st := Ok;
    }
  }
}
