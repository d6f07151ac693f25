/**
 * `https_request` and `measure_loop`: one cycle of the reporting task. It
 * waits for the connected bit, opens a TLS connection, runs `communicate` only
 * when the open succeeded, deletes the connection on both paths, then blinks
 * the LED and sleeps for a minute.
 */
module Worker {
  import opened Wire
  import opened Framing
  import opened Exchange
  import opened Connectivity

  const BlinkMs: nat := 10
  const MeasurePeriodMs: nat := 60000

  /** What a cycle does, in order. `ConnDelete(h)`: the delete call, `h` when the handle was non-NULL. */
  datatype Action =
    | ConnOpen
    | Talk(outcome: Outcome)
    | ConnDelete(handle: bool)
    | LedLevel(level: nat)
    | Delay(ms: nat)

  /**
   * The connection discipline of one request: open first and only there,
   * delete last and only there, and one exchange (hence any write or read) if
   * and only if the open returned a connection.
   */
  predicate SessionDiscipline(log: seq<Action>, established: bool, x: Outcome) {
    && |log| >= 2
    && log[0] == ConnOpen
    && (forall i :: 0 < i < |log| ==> !log[i].ConnOpen?)
    && log[|log| - 1] == ConnDelete(established)
    && (forall i :: 0 <= i < |log| - 1 ==> !log[i].ConnDelete?)
    && (forall i, j :: 0 <= i < j < |log| && log[i].Talk? ==> !log[j].Talk?)
    && (forall i :: 0 <= i < |log| && log[i].Talk? ==> established && log[i].outcome == x)
    && (established ==> exists i :: 0 <= i < |log| && log[i].Talk?)
  }

  /** `led_blink`: LED on, 10 ms, LED off. */
  const Blink: seq<Action> := [LedLevel(1), Delay(BlinkMs), LedLevel(0)]

  /**
   * `https_request`. The wait on the event group is the precondition that the
   * connected bit is set; `established` is whether `esp_tls_conn_http_new` returned
   * a connection; `body` is what `build_request_body` produced.
   */
  method HttpsRequest(monitor: WifiMonitor, established: bool, cfg: Config, encode: seq<byte> -> seq<byte>,
                      body: seq<byte>, writes: seq<int>, replies: seq<Reply>)
    returns (log: seq<Action>)
    requires monitor.connected
    requires established ==> |Request(cfg, encode, body)| < BufSize
    requires established ==> forall i :: 0 <= i < |replies| ==> FitsBuffer(replies[i])
    ensures SessionDiscipline(log, established, ExchangeOf(Request(cfg, encode, body), writes, replies))
  {
    ghost var expected := ExchangeOf(Request(cfg, encode, body), writes, replies);
    log := [ConnOpen];
    if established {
      var x := Communicate(cfg, encode, body, writes, replies);
      log := log + [Talk(x)];
    }
    log := log + [ConnDelete(established)];
    SessionShapes(log, established, expected);
  }

  /** The two logs `https_request` can produce both keep the discipline. */
  lemma SessionShapes(log: seq<Action>, established: bool, x: Outcome)
    requires if established then log == [ConnOpen, Talk(x), ConnDelete(true)] else log == [ConnOpen, ConnDelete(false)]
    ensures SessionDiscipline(log, established, x)
  {
    if established {
      assert log[1].Talk?;
    }
  }

  /** `measure_loop`: the request, then the blink and the one-minute delay whatever its outcome. */
  method MeasureLoop(monitor: WifiMonitor, established: bool, cfg: Config, encode: seq<byte> -> seq<byte>,
                     body: seq<byte>, writes: seq<int>, replies: seq<Reply>)
    returns (log: seq<Action>)
    requires monitor.connected
    requires established ==> |Request(cfg, encode, body)| < BufSize
    requires established ==> forall i :: 0 <= i < |replies| ==> FitsBuffer(replies[i])
    ensures |log| >= 6
    ensures SessionDiscipline(log[..|log| - 4], established, ExchangeOf(Request(cfg, encode, body), writes, replies))
    ensures log[|log| - 4..] == [LedLevel(1), Delay(BlinkMs), LedLevel(0), Delay(MeasurePeriodMs)]
  {
    var request := HttpsRequest(monitor, established, cfg, encode, body, writes, replies);
    log := request + Blink + [Delay(MeasurePeriodMs)];
    assert log[..|log| - 4] == request;
  }
}
