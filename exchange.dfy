/**
 * `communicate`: one request/response exchange over an open TLS connection.
 *
 * The transport is a finite trace of what `esp_tls_conn_write` and
 * `esp_tls_conn_read` return, one entry consumed per call: a status code for
 * each write, a status code and the bytes stored into the buffer for each read.
 * When a trace runs out while the source would call the transport again, the
 * run ends as "stalled".
 */
module Exchange {
  import opened Wire
  import opened Framing

  /** `char buf[1024]`, shared by the request and the response. */
  const BufSize: nat := 1024
  /** `sizeof(buf) - 1`: what each read asks for. */
  const ReadLen: nat := BufSize - 1

  // ---------------------------------------------------------------- write phase

  datatype WriteEnd = WriteDone | WriteFailed(code: int) | WriteStalled

  /**
   * How the write loop ended, the final `written_bytes`, and for each write
   * call the offset it was handed: call i sends `buf + offsets[i]`, of length
   * `strlen(buf) - offsets[i]`.
   */
  datatype WriteRun = WriteRun(end: WriteEnd, written: nat, offsets: seq<nat>)

  /** Adds the cursor increment of a write result: negative results add nothing. */
  function Advance(ret: int): nat {
    if ret >= 0 then ret else 0
  }

  /** The write loop started with cursor `w` over a request of `n` bytes. */
  function WriteFrom(n: nat, w: nat, codes: seq<int>): (r: WriteRun)
    ensures |r.offsets| <= |codes|
    ensures |r.offsets| > 0 ==> r.offsets[0] == w
    ensures r.written >= w
    ensures r.end == WriteDone ==> r.written >= n
    ensures r.end == WriteStalled ==> |r.offsets| == |codes|
    decreases |codes|
  {
    if codes == [] then WriteRun(WriteStalled, w, [])
    else
      var ret := codes[0];
      if ret < 0 && !IsNotReady(ret) then WriteRun(WriteFailed(ret), w, [w])
      else if w + Advance(ret) >= n then WriteRun(WriteDone, w + Advance(ret), [w])
      else
        var rest := WriteFrom(n, w + Advance(ret), codes[1..]);
        rest.(offsets := [w] + rest.offsets)
  }

  /**
   * The transport never reports more bytes written than it was offered:
   * `0 <= ret <= strlen(buf) - written_bytes` for every non-negative result.
   */
  predicate HonestWrites(n: nat, w: nat, codes: seq<int>)
    decreases |codes|
  {
    codes == [] ||
    var ret := codes[0];
    && (ret >= 0 ==> w + ret <= n)
    && (ret >= 0 || IsNotReady(ret) ==>
          w + Advance(ret) >= n || HonestWrites(n, w + Advance(ret), codes[1..]))
  }

  /**
   * The cursor: each call is handed the unsent suffix at the current cursor,
   * which moves by exactly the non-negative result; with an honest transport
   * the cursor never passes the end, and the loop finishes normally only with
   * the whole request written.
   */
  lemma {:induction false} WriteCursor(n: nat, w: nat, codes: seq<int>)
    requires w <= n
    requires HonestWrites(n, w, codes)
    ensures var r := WriteFrom(n, w, codes);
            && r.written <= n
            && (r.end == WriteDone ==> r.written == n)
            && (w < n && r.written == n ==> r.end == WriteDone)
            && (forall i :: 0 <= i < |r.offsets| ==> w <= r.offsets[i] <= n)
            && (forall i :: 0 < i < |r.offsets| ==> r.offsets[i] < n)
    decreases |codes|
  {
    if codes != [] {
      var ret := codes[0];
      if !(ret < 0 && !IsNotReady(ret)) && w + Advance(ret) < n {
        WriteCursor(n, w + Advance(ret), codes[1..]);
      }
    }
  }

  /** Between two consecutive calls the cursor moves by exactly the first call's result. */
  lemma {:induction false} WriteOffsetsStep(n: nat, w: nat, codes: seq<int>, i: nat)
    requires i + 1 < |WriteFrom(n, w, codes).offsets|
    ensures WriteFrom(n, w, codes).offsets[i + 1] == WriteFrom(n, w, codes).offsets[i] + Advance(codes[i])
    decreases |codes|
  {
    var ret := codes[0];
    if i > 0 {
      WriteOffsetsStep(n, w + Advance(ret), codes[1..], i - 1);
    }
  }

  /**
   * No byte range is offered again once it is confirmed written: every later
   * call starts at or after the end of the range an earlier call confirmed.
   */
  lemma {:induction false} WriteNeverResends(n: nat, w: nat, codes: seq<int>, i: nat, j: nat)
    requires i < j < |WriteFrom(n, w, codes).offsets|
    ensures var offsets := WriteFrom(n, w, codes).offsets;
            offsets[i] + Advance(codes[i]) <= offsets[j]
    decreases j - i
  {
    var offsets := WriteFrom(n, w, codes).offsets;
    if j == i + 1 {
      WriteOffsetsStep(n, w, codes, i);
    } else {
      WriteNeverResends(n, w, codes, i, j - 1);
      WriteOffsetsStep(n, w, codes, j - 1);
    }
  }

  /**
   * A fatal write result is the last call: the loop stops at once, without
   * moving the cursor, and the remaining bytes are never offered.
   */
  lemma {:induction false} WriteAbort(n: nat, w: nat, codes: seq<int>)
    requires WriteFrom(n, w, codes).end.WriteFailed?
    ensures var r := WriteFrom(n, w, codes);
            var last := |r.offsets| - 1;
            && 0 <= last
            && codes[last] == r.end.code
            && r.end.code < 0 && !IsNotReady(r.end.code)
            && r.written == r.offsets[last]
            && forall i :: 0 <= i < last ==> !(codes[i] < 0 && !IsNotReady(codes[i]))
    decreases |codes|
  {
    var ret := codes[0];
    assert codes == [ret] + codes[1..];
    WriteFromCons(n, w, ret, codes[1..]);
    if !(ret < 0 && !IsNotReady(ret)) {
      var rest := WriteFrom(n, w + Advance(ret), codes[1..]);
      WriteAbort(n, w + Advance(ret), codes[1..]);
      assert codes[1..][|rest.offsets| - 1] == codes[|rest.offsets|];
    }
  }

  /**
   * Retrying on "not ready" is invisible: a not-ready result inserted anywhere
   * into the trace of a non-empty request changes neither how the loop ends
   * nor how many bytes it wrote.
   */
  lemma {:induction false} WriteRetryInvisible(n: nat, w: nat, codes: seq<int>, k: nat, c: int)
    requires w < n
    requires k <= |codes|
    requires IsNotReady(c)
    ensures var with := WriteFrom(n, w, codes[..k] + [c] + codes[k..]);
            var without := WriteFrom(n, w, codes);
            with.end == without.end && with.written == without.written
    decreases k
  {
    if k == 0 {
      assert codes[..k] + [c] + codes[k..] == [c] + codes;
      WriteFromCons(n, w, c, codes);
    } else {
      var ret := codes[0];
      var t' := codes[1..][..k - 1] + [c] + codes[1..][k - 1..];
      assert codes[..k] + [c] + codes[k..] == [ret] + t';
      assert codes == [ret] + codes[1..];
      WriteFromCons(n, w, ret, t');
      WriteFromCons(n, w, ret, codes[1..]);
      if !(ret < 0 && !IsNotReady(ret)) && w + Advance(ret) < n {
        WriteRetryInvisible(n, w + Advance(ret), codes[1..], k - 1, c);
      }
    }
  }

  // ----------------------------------------------------------------- read phase

  /** One `esp_tls_conn_read`: its result and the bytes it stored at the front of `buf`. */
  datatype Reply = Reply(code: int, data: seq<byte>)

  datatype ReadEnd = PeerClosed | ReadFailed(code: int) | ReadStalled

  /** How the read loop ended, and every byte it passed to `putchar`, in order. */
  datatype ReadRun = ReadRun(end: ReadEnd, sink: seq<byte>)

  /** A read result that ends the loop: 0 (peer closed) or a fatal negative code. */
  predicate Terminal(code: int) {
    code <= 0 && !IsNotReady(code)
  }

  /** A read asks for `ReadLen` bytes; the transport stores and reports no more than that. */
  predicate FitsBuffer(r: Reply) {
    r.code <= ReadLen && |r.data| <= ReadLen
  }

  function Zeros(k: nat): (z: seq<byte>)
    ensures |z| == k && forall i :: 0 <= i < k ==> z[i] == NUL
  {
    seq(k, i => NUL)
  }

  /**
   * What the `putchar` loop forwards after a positive read: the first `code`
   * bytes of the zeroed buffer the transport stored `data` into.
   */
  function Chunk(r: Reply): (c: seq<byte>)
    requires r.code > 0
    ensures |c| == r.code
    ensures |r.data| == r.code ==> c == r.data
  {
    if |r.data| >= r.code then r.data[..r.code] else r.data + Zeros(r.code - |r.data|)
  }

  /** The read loop over the rest of the reply trace. */
  function ReadFrom(replies: seq<Reply>): (r: ReadRun)
    decreases |replies|
  {
    if replies == [] then ReadRun(ReadStalled, [])
    else
      var reply := replies[0];
      if IsNotReady(reply.code) then ReadFrom(replies[1..])
      else if reply.code < 0 then ReadRun(ReadFailed(reply.code), [])
      else if reply.code == 0 then ReadRun(PeerClosed, [])
      else
        var rest := ReadFrom(replies[1..]);
        rest.(sink := Chunk(reply) + rest.sink)
  }

  /** How many times the read loop calls `esp_tls_conn_read` on the reply trace. */
  function ReadCalls(replies: seq<Reply>): nat
    decreases |replies|
  {
    if replies == [] then 0
    else if Terminal(replies[0].code) then 1
    else 1 + ReadCalls(replies[1..])
  }

  /** The bytes of every positive read, concatenated in arrival order; nothing for other results. */
  function Payload(replies: seq<Reply>): seq<byte>
    decreases |replies|
  {
    if replies == [] then []
    else (if replies[0].code > 0 then Chunk(replies[0]) else []) + Payload(replies[1..])
  }

  /**
   * The read loop stops at the first terminal result, if any; the sink then
   * holds exactly the payload of the replies before it, and the stop reason is
   * that result: 0 is a normal close, a negative code an error.
   */
  lemma {:induction false} ReadOutcome(replies: seq<Reply>, s: nat)
    requires s <= |replies|
    requires forall i :: 0 <= i < s ==> !Terminal(replies[i].code)
    requires s == |replies| || Terminal(replies[s].code)
    ensures ReadFrom(replies).sink == Payload(replies[..s])
    ensures ReadFrom(replies).end ==
              if s == |replies| then ReadStalled
              else if replies[s].code == 0 then PeerClosed
              else ReadFailed(replies[s].code)
    ensures ReadCalls(replies) == if s == |replies| then s else s + 1
    decreases s
  {
    if s > 0 {
      assert replies[..s][1..] == replies[1..][..s - 1];
      ReadOutcome(replies[1..], s - 1);
    }
  }

  /** A peer that sends some chunks, each read exactly, then closes: the sink receives exactly those bytes. */
  lemma {:induction false} ReadPeerCloses(chunks: seq<Reply>, close: Reply)
    requires forall i :: 0 <= i < |chunks| ==> chunks[i].code > 0 && |chunks[i].data| == chunks[i].code
    requires close.code == 0
    ensures ReadFrom(chunks + [close]) == ReadRun(PeerClosed, Concat(chunks))
    decreases |chunks|
  {
    if chunks != [] {
      assert (chunks + [close])[1..] == chunks[1..] + [close];
      ReadPeerCloses(chunks[1..], close);
    }
  }

  /** The data of a list of replies, concatenated. */
  function Concat(chunks: seq<Reply>): seq<byte>
    decreases |chunks|
  {
    if chunks == [] then [] else chunks[0].data + Concat(chunks[1..])
  }

  /** A not-ready reply inserted anywhere into the trace changes nothing: neither the end nor the sink. */
  lemma {:induction false} ReadRetryInvisible(replies: seq<Reply>, k: nat, extra: Reply)
    requires k <= |replies|
    requires IsNotReady(extra.code)
    ensures ReadFrom(replies[..k] + [extra] + replies[k..]) == ReadFrom(replies)
    decreases k
  {
    var t := replies[..k] + [extra] + replies[k..];
    if k == 0 {
      assert t[1..] == replies;
    } else {
      assert t[0] == replies[0];
      assert t[1..] == replies[1..][..k - 1] + [extra] + replies[1..][k - 1..];
      ReadRetryInvisible(replies[1..], k - 1, extra);
    }
  }

  // ------------------------------------------------------------- the exchange

  datatype ReadPhase = Skipped | Ran(run: ReadRun)

  /** What one `communicate` call does: the write loop, then the read loop if writing completed. */
  datatype Outcome = Outcome(write: WriteRun, read: ReadPhase)

  function ExchangeOf(req: seq<byte>, writes: seq<int>, replies: seq<Reply>): Outcome {
    var w := WriteFrom(|req|, 0, writes);
    Outcome(w, if w.end == WriteDone then Ran(ReadFrom(replies)) else Skipped)
  }

  /**
   * The partial-write loop of `communicate` over the NUL-terminated request in
   * `buf`: a do-while that offers the unsent suffix, advances the cursor by
   * each non-negative result, retries on "not ready" and returns on any other
   * negative result.
   */
  method WriteRequest(buf: array<byte>, ghost req: seq<byte>, writes: seq<int>) returns (run: WriteRun)
    requires |req| < buf.Length && buf[..|req|] == req && buf[|req|] == NUL && NUL !in req
    ensures run == WriteFrom(|req|, 0, writes)
  {
    ghost var n := |req|;
    var written: nat := 0;
    var offsets: seq<nat> := [];
    var k := 0;
    var end: WriteEnd;
    while true
      invariant 0 <= k <= |writes|
      invariant k > 0 ==> written < n
      invariant k == 0 ==> written == 0 && offsets == []
      invariant WriteFrom(n, 0, writes) == AfterOffsets(offsets, WriteFrom(n, written, writes[k..]))
      decreases |writes| - k
    {
      if k == |writes| {
        assert offsets + [] == offsets;
        end := WriteStalled;
        break;
      }
      WriteTurn(n, written, writes, k, offsets, WriteFrom(n, 0, writes));
      // esp_tls_conn_write(tls, buf + written, strlen(buf) - written): the unsent suffix at the cursor
      offsets := offsets + [written];
      var ret := writes[k];
      k := k + 1;
      if ret >= 0 {
        written := written + ret;
      } else if !IsNotReady(ret) {
        end := WriteFailed(ret);
        break;
      }
      var len := RequestLength(buf, req);
      if written >= len {
        end := WriteDone;
        break;
      }
    }
    run := WriteRun(end, written, offsets);
  }

  function AfterOffsets(offsets: seq<nat>, r: WriteRun): WriteRun {
    r.(offsets := offsets + r.offsets)
  }

  /** `WriteFrom` on a trace with first result `ret`, one step unfolded. */
  lemma WriteFromCons(n: nat, w: nat, ret: int, rest: seq<int>)
    ensures WriteFrom(n, w, [ret] + rest) ==
              if ret < 0 && !IsNotReady(ret) then WriteRun(WriteFailed(ret), w, [w])
              else if w + Advance(ret) >= n then WriteRun(WriteDone, w + Advance(ret), [w])
              else AfterOffsets([w], WriteFrom(n, w + Advance(ret), rest))
  {
    assert ([ret] + rest)[1..] == rest;
  }

  /** One turn of the write loop: how the run of the whole trace continues from the cursor. */
  lemma WriteTurn(n: nat, w: nat, writes: seq<int>, k: nat, offsets: seq<nat>, whole: WriteRun)
    requires k < |writes|
    requires whole == AfterOffsets(offsets, WriteFrom(n, w, writes[k..]))
    ensures var ret := writes[k];
            var next := offsets + [w];
            if ret < 0 && !IsNotReady(ret) then whole == WriteRun(WriteFailed(ret), w, next)
            else if w + Advance(ret) >= n then whole == WriteRun(WriteDone, w + Advance(ret), next)
            else whole == AfterOffsets(next, WriteFrom(n, w + Advance(ret), writes[k + 1..]))
  {
    var ret := writes[k];
    assert writes[k..][1..] == writes[k + 1..];
    if !(ret < 0 && !IsNotReady(ret)) && w + Advance(ret) < n {
      var tail := WriteFrom(n, w + Advance(ret), writes[k + 1..]);
      assert offsets + ([w] + tail.offsets) == (offsets + [w]) + tail.offsets;
    }
  }

  /** `strlen(buf)` on the formatted buffer: the length of the request. */
  method RequestLength(buf: array<byte>, ghost req: seq<byte>) returns (len: nat)
    requires |req| < buf.Length && buf[..|req|] == req && buf[|req|] == NUL && NUL !in req
    ensures len == |req|
  {
    len := Strlen(buf);
    StrlenOfRequest(buf, req, len);
  }

  lemma StrlenOfRequest(buf: array<byte>, req: seq<byte>, len: nat)
    requires |req| < buf.Length && buf[..|req|] == req && buf[|req|] == NUL && NUL !in req
    requires len < buf.Length && buf[len] == NUL
    requires forall j :: 0 <= j < len ==> buf[j] != NUL
    ensures len == |req|
  {
    FirstNulEndsCString(buf[..], len);
    FirstNulEndsCString(buf[..], |req|);
  }

  /**
   * The read loop of `communicate`: zero the buffer, read at most `ReadLen`
   * bytes, retry on "not ready", stop on 0 or an error, else pass the bytes
   * read to `putchar` one by one.
   */
  method ReadResponse(buf: array<byte>, replies: seq<Reply>) returns (run: ReadRun, asks: seq<nat>)
    requires buf.Length == BufSize
    requires forall i :: 0 <= i < |replies| ==> FitsBuffer(replies[i])
    modifies buf
    ensures run == ReadFrom(replies)
    ensures |asks| == ReadCalls(replies)
    ensures forall i :: 0 <= i < |asks| ==> asks[i] == ReadLen
  {
    var sink: seq<byte> := [];
    asks := [];
    var j := 0;
    var end: ReadEnd;
    while true
      invariant 0 <= j <= |replies|
      invariant ReadFrom(replies) == var rest := ReadFrom(replies[j..]);
                                     rest.(sink := sink + rest.sink)
      invariant ReadCalls(replies) == |asks| + ReadCalls(replies[j..])
      invariant forall i :: 0 <= i < |asks| ==> asks[i] == ReadLen
      decreases |replies| - j
    {
      if j == |replies| {
        end := ReadStalled;
        break;
      }
      ReadTurn(replies, j);
      var len := buf.Length - 1;
      forall i | 0 <= i < buf.Length {
        buf[i] := NUL;
      }
      // esp_tls_conn_read(tls, buf, len)
      asks := asks + [len];
      var reply := replies[j];
      j := j + 1;
      forall i | 0 <= i < |reply.data| {
        buf[i] := reply.data[i];
      }
      var ret := reply.code;
      if IsNotReady(ret) {
        continue;
      }
      if ret < 0 {
        end := ReadFailed(ret);
        break;
      }
      if ret == 0 {
        end := PeerClosed;
        break;
      }
      assert buf[..ret] == Chunk(reply);
      var printed := PutChars(buf, ret);
      sink := sink + printed;
    }
    run := ReadRun(end, sink);
  }

  /** `for (i = 0; i < len; i++) putchar(buf[i])`: the bytes sent to the console, in order. */
  method PutChars(buf: array<byte>, len: nat) returns (printed: seq<byte>)
    requires len <= buf.Length
    ensures printed == buf[..len]
  {
    printed := [];
    for i := 0 to len
      invariant printed == buf[..i]
    {
      printed := printed + [buf[i]];
    }
  }

  /** One turn of the read loop: how the loop over the rest of the trace continues after reply `j`. */
  lemma ReadTurn(replies: seq<Reply>, j: nat)
    requires j < |replies|
    ensures var reply := replies[j];
            var rest := replies[j + 1..];
            && ReadCalls(replies[j..]) == (if Terminal(reply.code) then 1 else 1 + ReadCalls(rest))
            && ReadFrom(replies[j..]) ==
                 if IsNotReady(reply.code) then ReadFrom(rest)
                 else if reply.code < 0 then ReadRun(ReadFailed(reply.code), [])
                 else if reply.code == 0 then ReadRun(PeerClosed, [])
                 else ReadFrom(rest).(sink := Chunk(reply) + ReadFrom(rest).sink)
  {
    assert replies[j..][1..] == replies[j + 1..];
  }

  /**
   * `communicate`: formats the request into a fresh 1024-byte buffer, writes it
   * with the partial-write loop, then streams the response to the sink with
   * the read loop. A fatal write result returns before any read.
   */
  method Communicate(cfg: Config, encode: seq<byte> -> seq<byte>, body: seq<byte>,
                     writes: seq<int>, replies: seq<Reply>)
    returns (x: Outcome)
    requires |Request(cfg, encode, body)| < BufSize
    requires forall i :: 0 <= i < |replies| ==> FitsBuffer(replies[i])
    ensures x == ExchangeOf(Request(cfg, encode, body), writes, replies)
    ensures x.read.Ran? <==> x.write.end == WriteDone
  {
    var req := Request(cfg, encode, body);
    var buf := new byte[BufSize];
    // sprintf: the request and its terminator
    forall i | 0 <= i < |req| {
      buf[i] := req[i];
    }
    buf[|req|] := NUL;
    var w := WriteRequest(buf, req, writes);
    if w.end != WriteDone {
      return Outcome(w, Skipped);
    }
    var r, _ := ReadResponse(buf, replies);
    x := Outcome(w, Ran(r));
  }
}
