/**
 * The request/response exchange of `send_gp_command`. The socket is replaced
 * by a script: the outcomes its successive `recv(4096)` calls would have.
 * A read returns a chunk of bytes (an empty chunk means the peer closed the
 * connection) or times out; once the script is used up no further data
 * arrives, which the next read observes as a timeout.
 */
module Transport {
  import opened Wrappers
  import opened Ascii
  import opened Framing

  /** The size passed to `recv`: no chunk is longer. */
  const RecvSize: nat := 4096

  /** What one `recv` call yields. */
  datatype RecvOutcome = Received(chunk: seq<byte>) | TimedOut

  /** The outcome ends the read loop: a timeout or an empty read. */
  predicate EndsStream(o: RecvOutcome) {
    o.TimedOut? || o.chunk == []
  }

  /** The bytes a script delivers before the stream ends. */
  function Collected(script: seq<RecvOutcome>): seq<byte> {
    if script == [] || EndsStream(script[0]) then []
    else script[0].chunk + Collected(script[1..])
  }

  /** How many `recv` calls the read loop makes: one per outcome up to the
      first that ends the stream, or, when the script is used up, one more
      call that times out. */
  function Consumed(script: seq<RecvOutcome>): nat {
    if script == [] then 1
    else if EndsStream(script[0]) then 1
    else 1 + Consumed(script[1..])
  }

  /** Every chunk respects the `recv` size bound. */
  predicate ChunksBounded(script: seq<RecvOutcome>) {
    forall i :: 0 <= i < |script| && script[i].Received? ==> |script[i].chunk| <= RecvSize
  }

  /** Chunks delivered one per read, in order. */
  function Deliver(chunks: seq<seq<byte>>): (script: seq<RecvOutcome>)
    ensures |script| == |chunks|
    ensures forall i :: 0 <= i < |chunks| ==> script[i] == Received(chunks[i])
  {
    if chunks == [] then [] else [Received(chunks[0])] + Deliver(chunks[1..])
  }

  /** The concatenation of a sequence of chunks. */
  function Flatten(chunks: seq<seq<byte>>): seq<byte> {
    if chunks == [] then [] else chunks[0] + Flatten(chunks[1..])
  }

  predicate NonEmptyChunks(chunks: seq<seq<byte>>) {
    forall i :: 0 <= i < |chunks| ==> chunks[i] != []
  }

  /**
   * The read loop of `send_gp_command`: read until an empty chunk or a
   * timeout, appending each chunk to the buffer. A timeout ends the loop
   * like a close does; it is not an error.
   */
  method ReceiveAll(script: seq<RecvOutcome>) returns (buffer: seq<byte>, readCount: nat)
    ensures buffer == Collected(script)
    ensures readCount == Consumed(script)
  {
    buffer := [];
    readCount := 0;
    while true
      invariant readCount <= |script|
      invariant buffer + Collected(script[readCount..]) == Collected(script)
      invariant readCount + Consumed(script[readCount..]) == Consumed(script)
      decreases |script| - readCount
    {
      if readCount == |script| {
        // The script is used up: the next read times out.
        assert buffer == Collected(script);
        readCount := readCount + 1;
        return;
      }
      var outcome := script[readCount];
      assert script[readCount..][0] == outcome && script[readCount..][1..] == script[readCount + 1..];
      readCount := readCount + 1;
      match outcome
      case TimedOut =>
        break;
      case Received(chunk) =>
        if chunk == [] {
          break;
        }
        buffer := buffer + chunk;
    }
  }

  /** The result of one command: the bytes sent and the text received. */
  datatype Exchange = Exchange(payload: seq<byte>, raw: string)

  /**
   * `send_gp_command`: frame the body, send it, read the reply, decode it
   * permissively. A body that cannot be encoded raises before any read.
   */
  method SendGpCommand(body: string, script: seq<RecvOutcome>)
    returns (r: Result<Exchange, EncodeError>, readCount: nat)
    ensures Frame(body).Failure? ==> r == Failure(Frame(body).error) && readCount == 0
    ensures Frame(body).Success? ==>
              && r.Success?
              && r.value.payload == Frame(body).value
              && r.value.raw == DecodeAsciiIgnore(Collected(script))
              && readCount == Consumed(script)
  {
    var framed := Frame(body);
    if framed.Failure? {
      return Failure(framed.error), 0;
    }
    var buffer;
    buffer, readCount := ReceiveAll(script);
    r := Success(Exchange(framed.value, DecodeAsciiIgnore(buffer)));
  }

  /** The loop reads every outcome up to and including the first one that
      ends the stream, and none after it; a script without such an outcome is
      read to its end, plus the one call that then times out. */
  lemma {:induction false} ConsumedStopsAtEnd(script: seq<RecvOutcome>)
    ensures 0 < Consumed(script) <= |script| + 1
    ensures forall i :: 0 <= i < Consumed(script) - 1 ==> !EndsStream(script[i])
    ensures Consumed(script) <= |script| ==> EndsStream(script[Consumed(script) - 1])
  {
    if script != [] && !EndsStream(script[0]) {
      ConsumedStopsAtEnd(script[1..]);
      var tail := script[1..];
      forall i | 0 <= i < Consumed(script) - 1 ensures !EndsStream(script[i]) {
        if i > 0 {
          assert script[i] == tail[i - 1];
        }
      }
    }
  }

  /** The response is exactly the in-order concatenation of the chunks that
      precede the close or timeout; whatever the script holds afterwards is
      never read and does not matter. */
  lemma {:induction false} CollectedChunksThenEnd(chunks: seq<seq<byte>>, last: RecvOutcome, rest: seq<RecvOutcome>)
    requires NonEmptyChunks(chunks) && EndsStream(last)
    ensures Collected(Deliver(chunks) + [last] + rest) == Flatten(chunks)
    ensures Consumed(Deliver(chunks) + [last] + rest) == |chunks| + 1
  {
    var script := Deliver(chunks) + [last] + rest;
    if chunks == [] {
      assert script[0] == last;
    } else {
      assert script[0] == Received(chunks[0]);
      assert script[1..] == Deliver(chunks[1..]) + [last] + rest;
      CollectedChunksThenEnd(chunks[1..], last, rest);
    }
  }

  /** A script that never ends the stream delivers all its chunks; running out
      of data costs one more call, which times out, exactly as an explicit
      final timeout does. */
  lemma {:induction false} CollectedAllChunks(chunks: seq<seq<byte>>)
    requires NonEmptyChunks(chunks)
    ensures Collected(Deliver(chunks)) == Flatten(chunks)
    ensures Consumed(Deliver(chunks)) == |chunks| + 1
  {
    if chunks != [] {
      assert Deliver(chunks)[1..] == Deliver(chunks[1..]);
      CollectedAllChunks(chunks[1..]);
    }
  }

  /** A timeout yields the same response as the peer closing the connection. */
  lemma TimeoutLikeClose(chunks: seq<seq<byte>>, rest1: seq<RecvOutcome>, rest2: seq<RecvOutcome>)
    requires NonEmptyChunks(chunks)
    ensures Collected(Deliver(chunks) + [TimedOut] + rest1)
            == Collected(Deliver(chunks) + [Received([])] + rest2)
  {
    CollectedChunksThenEnd(chunks, TimedOut, rest1);
    CollectedChunksThenEnd(chunks, Received([]), rest2);
  }

  /** Each read adds at most `RecvSize` bytes to the buffer. */
  lemma {:induction false} CollectedBounded(script: seq<RecvOutcome>)
    requires ChunksBounded(script)
    ensures |Collected(script)| <= RecvSize * Consumed(script)
  {
    if script != [] && !EndsStream(script[0]) {
      assert ChunksBounded(script[1..]) by {
        forall i | 0 <= i < |script| - 1 && script[1..][i].Received?
          ensures |script[1..][i].chunk| <= RecvSize
        {
          assert script[1..][i] == script[i + 1];
        }
      }
      CollectedBounded(script[1..]);
    }
  }

  /** The text returned is the permissive decoding of each chunk, concatenated:
      how the reply was split across reads makes no difference. */
  lemma {:induction false} RawIsDecodedChunks(chunks: seq<seq<byte>>)
    ensures DecodeAsciiIgnore(Flatten(chunks)) == DecodeChunks(chunks)
  {
    if chunks != [] {
      DecodeConcat(chunks[0], Flatten(chunks[1..]));
      RawIsDecodedChunks(chunks[1..]);
    }
  }

  /** The decodings of each chunk, concatenated. */
  function DecodeChunks(chunks: seq<seq<byte>>): string {
    if chunks == [] then [] else DecodeAsciiIgnore(chunks[0]) + DecodeChunks(chunks[1..])
  }
}
