/** The response writer that buffers a body for the cache (policy/cache.go). */
module ResponseCapture {

  type Bytes = seq<bv8>

  /** The buffer after the handler wrote the given chunks. */
  datatype Capture = Capture(body: Bytes, tooLarge: bool)

  function AfterChunk(max: int, c: Capture, chunk: Bytes): Capture {
    if max <= 0 || c.tooLarge then c
    else if |c.body| + |chunk| > max then c.(tooLarge := true)
    else c.(body := c.body + chunk)
  }

  function AfterChunks(max: int, chunks: seq<Bytes>): Capture {
    if chunks == [] then Capture([], false)
    else AfterChunk(max, AfterChunks(max, chunks[..|chunks| - 1]), chunks[|chunks| - 1])
  }

  function Joined(chunks: seq<Bytes>): Bytes {
    if chunks == [] then [] else Joined(chunks[..|chunks| - 1]) + chunks[|chunks| - 1]
  }

  /** With a positive limit the buffer is the whole body exactly when the body fits, and is otherwise
      marked too large; without one the buffer stays empty and is never marked. */
  lemma {:induction false} BufferIsWholeBodyOrMarked(max: int, chunks: seq<Bytes>)
    ensures max > 0 ==> (AfterChunks(max, chunks).tooLarge <==> |Joined(chunks)| > max)
    ensures max > 0 && !AfterChunks(max, chunks).tooLarge ==> AfterChunks(max, chunks).body == Joined(chunks)
    ensures max <= 0 ==> AfterChunks(max, chunks) == Capture([], false)
  {
    if chunks != [] {
      BufferIsWholeBodyOrMarked(max, chunks[..|chunks| - 1]);
    }
  }

  class CachingResponseWriter {
    const maxBytes: int
    const cacheStatuses: set<int>
    var statusCode: int
    var body: Bytes
    var tooLarge: bool
    var streaming: bool
    ghost var chunks: seq<Bytes>
    ghost var streamed: bool

    ghost predicate Valid()
      reads this
    {
      Capture(body, tooLarge) == AfterChunks(maxBytes, chunks) && streaming == streamed
    }

    constructor (maxBytes: int, cacheStatuses: set<int>)
      ensures Valid() && chunks == [] && !streamed && statusCode == 200
      ensures this.maxBytes == maxBytes && this.cacheStatuses == cacheStatuses
    {
      this.maxBytes, this.cacheStatuses := maxBytes, cacheStatuses;
      statusCode, body, tooLarge, streaming := 200, [], false, false;
      chunks, streamed := [], false;
    }

    method WriteHeader(code: int)
      requires Valid()
      modifies `statusCode
      ensures Valid() && statusCode == code
    {
      statusCode := code;
    }

    method Write(p: Bytes)
      requires Valid()
      modifies `body, `tooLarge, `chunks
      ensures Valid() && chunks == old(chunks) + [p]
    {
      chunks := chunks + [p];
      assert chunks[..|chunks| - 1] == old(chunks);
      if maxBytes <= 0 || tooLarge {
        return;
      }
      if |body| + |p| > maxBytes {
        tooLarge := true;
        return;
      }
      body := body + p;
    }

    /** Flush, and Hijack when the connection supports it. */
    method Stream()
      requires Valid()
      modifies `streaming, `streamed
      ensures Valid() && streamed
    {
      streaming, streamed := true, true;
    }

    /** A response is stored only if it did not stream, set no cookie and has a cacheable status; with
        a positive limit what is stored is then the whole body the handler wrote. */
    method Cacheable(setsCookie: bool) returns (ok: bool)
      requires Valid()
      ensures maxBytes > 0 ==>
                (ok <==> !streamed && !setsCookie && statusCode in cacheStatuses && |Joined(chunks)| <= maxBytes)
      ensures maxBytes > 0 && ok ==> body == Joined(chunks)
      ensures maxBytes <= 0 && ok ==> body == []
    {
      BufferIsWholeBodyOrMarked(maxBytes, chunks);
      if streaming {
        return false;
      }
      if tooLarge {
        return false;
      }
      if setsCookie {
        return false;
      }
      ok := statusCode in cacheStatuses;
    }
  }
}
