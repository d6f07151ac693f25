# ESP32 HTTPS temperature reporter: a Dafny model of its request cycle

The firmware in `main/main.c` is an ESP32 Wi-Fi station. Once a minute it
does four things:
- opens a TLS connection to a configured web API;
- formats an HTTP/1.0 `POST` with a `Content-Length` header, a Basic
  `Authorization` header and a small JSON body into one 1024-byte buffer;
- writes the request with a partial-write loop, then streams the response
  to the console with a chunked read loop;
- deletes the connection, blinks the LED and sleeps.

A Wi-Fi event handler keeps a "connected" bit that the worker waits on.

This project models the following:
- the request framing;
- the two transport loops of `communicate`;
- the event handler;
- one cycle of `https_request` / `measure_loop`.

It then proves what these promise.

The transport is modelled as a finite trace of what `esp_tls_conn_write` and
`esp_tls_conn_read` return. The loops are proved equal to recursive
specification functions over that trace: `WriteFrom` for writing and
`ReadFrom` for reading. Properties are then proved about those functions:
- the write cursor stays in range;
- no confirmed byte is offered again;
- a fatal code stops at once;
- "not ready" retries are invisible;
- the sink receives exactly the payload;
- the Content-Length a receiver parses equals the body length.

Files:
- `wire.dfy` (module `Wire`): bytes, C strings, `strlen`, the mbedTLS
  "not ready" codes.
- `framing.dfy` (module `Framing`): `REQUEST_HEADER` and the `sprintf` of
  `communicate`.
- `exchange.dfy` (module `Exchange`): the write loop, the read loop and
  `communicate`, which works on an `array` buffer.
- `connectivity.dfy` (module `Connectivity`): `event_handler`, as a class
  holding the connected bit.
- `worker.dfy` (module `Worker`): `https_request` and `measure_loop`, with
  `led_blink` as the constant action sequence `Blink`. A cycle's effects are
  a log of actions.

## Model

| member | source | states |
|---|---|---|
| Wire.CString | main/main.c:110-115 | What `%s` copies out of a byte array is the longest NUL-free prefix. Either a NUL follows it or it is the whole array, and a NUL-free array is copied whole. |
| Wire.Strlen | main/main.c:123 | `strlen` returns the index of the first NUL of the buffer. No byte before it is NUL. |
| Wire.FirstNulEndsCString | main/main.c:123 | The length `strlen` reports and the string `%s` copies describe the same bytes. |
| Framing.Decimal | main/main.c:110-112 | `%d` of a non-negative length is a non-empty run of decimal digits with no leading zero. |
| Framing.DecimalRoundTrip | main/main.c:110-112 | Reading the digits `%d` printed gives back the number. |
| Framing.Frame | main/main.c:110-115 | The formatted request contains no NUL, starts with the header block and ends with the body. |
| Framing.Request | main/main.c:54-57 | The request built from `REQUEST_HEADER`, the encoded credential and the body contains no NUL, so `strlen(buf)` measures all of it. |
| Framing.FrameContentLength | main/main.c:110-115 | A receiver parsing `Content-Length:` right after the header block reads exactly the length of the body, and the body ends the request. |
| Framing.RequestContentLength | main/main.c:110-115 | For the whole request, the parsed Content-Length is `strlen(request_body)`. It is the body's length when the body has no NUL. |
| Framing.NoBlankLineBeforeBody | main/main.c:110 | The format puts one CR LF after the credential and no empty line before the body. The four bytes in front of the body are not CR LF CR LF. |
| Exchange.WriteFrom | main/main.c:120-132 | The loop makes at most one call per trace entry, and the first call starts at the cursor. The cursor never moves back. The loop ends normally only once the cursor reaches the request length. It stalls only after using the whole trace. |
| Exchange.WriteCursor | main/main.c:120-132 | If every write returns at most what it was offered, the following hold. The cursor never passes the end. Every call's offset is in range, and every call after the first starts before the end. A normal finish means exactly the whole request was written, and writing the whole request always means a normal finish. |
| Exchange.WriteOffsetsStep | main/main.c:122-126 | Each call is handed the suffix at the cursor. The next call starts exactly as many bytes later as the previous call reported written, or at the same place after "not ready". |
| Exchange.WriteNeverResends | main/main.c:122-126 | A later call never starts before the end of the range an earlier call confirmed written. |
| Exchange.WriteAbort | main/main.c:127-131 | A fatal write result is the last call. No earlier result was fatal. The cursor stays where that call started. |
| Exchange.WriteRetryInvisible | main/main.c:127-132 | Inserting a WANT_READ/WANT_WRITE result anywhere in the trace does not change how the write loop ends or how many bytes it wrote. |
| Exchange.RequestLength | main/main.c:132 | `strlen(buf)` on the formatted buffer is the length of the request, at each point where the loop re-evaluates it. |
| Exchange.WriteRequest | main/main.c:120-132 | The imperative do-while loop over the buffer computes exactly `WriteFrom` of the request length from cursor 0. |
| Exchange.Chunk | main/main.c:155-161 | A positive read passes exactly `ret` bytes to `putchar`. When the transport stored `ret` bytes, those are exactly the bytes forwarded. |
| Exchange.ReadOutcome | main/main.c:137-162 | The read loop stops at the first result that is 0 or fatal. The sink then holds exactly the payload of the positive reads before it. The loop ends as a peer close for 0 and as an error for a negative code. It calls the transport once for each reply up to and including the one that stops it. |
| Exchange.ReadPeerCloses | main/main.c:151-161 | If the peer sends chunks that are each read whole and then closes, the console receives exactly the concatenated chunks and the loop ends as a close. |
| Exchange.ReadRetryInvisible | main/main.c:142-144 | Inserting a not-ready read result anywhere in the trace changes neither the end nor the bytes printed. |
| Exchange.ReadResponse | main/main.c:137-162 | The imperative loop computes exactly `ReadFrom` of the reply trace. It calls the transport once per consumed reply, `ReadCalls` times in all, and every call asks for `sizeof(buf) - 1` = 1023 bytes. |
| Exchange.PutChars | main/main.c:159-161 | The `putchar` loop sends exactly the first `len` bytes of the buffer, in order. |
| Exchange.Communicate | main/main.c:105-163 | `communicate` formats the request into a 1024-byte buffer, writes it and reads the response. The read loop runs if and only if the write loop finished normally, and the whole outcome is `ExchangeOf` of the request. |
| Connectivity.ReplayOnline | main/main.c:65-83 | After any sequence of events the following hold. The connected bit equals the last GOT_IP (set) or DISCONNECTED (clear) event, or its initial value if there was none. Exactly one connect request was issued per START and per DISCONNECTED event. |
| Connectivity.HandleTwice | main/main.c:70-78 | Delivering the same event twice leaves the connected bit as delivering it once. |
| Connectivity.WifiMonitor.constructor | main/main.c:87 | The event group is created with the connected bit clear and no connect request issued. |
| Connectivity.WifiMonitor.EventHandler | main/main.c:65-83 | One event updates the bit and the request count as `Handle` does, and the handler returns ESP_OK. |
| Worker.SessionShapes | main/main.c:189-198 | Both possible logs of `https_request` keep the connection discipline. |
| Worker.HttpsRequest | main/main.c:173-199 | The connection is opened exactly once, first, and deleted exactly once, last, on both paths. Exactly one exchange takes place if the open returned a connection and none otherwise, and it is the one `communicate` performs. |
| Worker.MeasureLoop | main/main.c:201-205 | A cycle is the request with that discipline, followed by the blink of `led_blink` (LED on, 10 ms, LED off) and the 60000 ms delay, whatever the request's outcome. |

## Left out

- Wi-Fi, NVS and GPIO initialisation, `app_main` and task creation are not modelled. Neither is the endless loop of `task_measure_loop`: the model covers one cycle of `measure_loop`.
- The event-group wait in `https_request` is the precondition that the connected bit is set. Blocking and scheduling are not modelled.
- Only the CONNECTED_BIT of the event group is modelled. Other bits are not used by the source.
- Certificate handling and the TLS handshake are not modelled. Whether `esp_tls_conn_http_new` returned a connection is the `established` parameter.
- The temperature reading and the `%f` formatting of `build_request_body` are not modelled, because they are floating point. The body is a parameter.
- `base64_encode` is the parameter `encode`, applied to the credential bytes. Its internals and its heap allocation, which the source never frees, are not modelled.
- Logging (`ESP_LOGI`/`ESP_LOGE`) is not modelled. `putchar` appends to a byte sink.
- Tick conversion (`/ portTICK_PERIOD_MS`) is not modelled. Delays are in milliseconds.
- Communicate: requires that the formatted request fits the 1024-byte buffer. The source does not check this, and a longer request would overflow `buf`.
- ReadResponse: requires that each read reports and stores at most `sizeof(buf) - 1` bytes, as `esp_tls_conn_read` promises for the length it is given. The final contents of `buf` are left unspecified, because `communicate` discards the buffer when it returns.
- WriteCursor: requires that each write reports at most the bytes it was offered. For any other transport the model's unbounded cursor can pass the end, and the source's `size_t` arithmetic is not modelled.
- WriteRequest: the transport is a finite trace, so a run can end as "stalled". In the source, a connection that keeps answering "not ready" is retried without bound.
- The values of MBEDTLS_ERR_SSL_WANT_READ and MBEDTLS_ERR_SSL_WANT_WRITE come from the mbedTLS headers, which are not part of this model. The constants used are those of mbedTLS.
- `%d` is applied to the `size_t` from `strlen`. The model prints the non-negative value in decimal.
- `event_handler` keeps no separate "connecting" state: the model has one connected bit and a count of connect requests, as the code does.
- The format string of `communicate` puts no blank line between the Authorization header and the body, so the request is not a well-formed HTTP message: the model keeps the code's framing, as `NoBlankLineBeforeBody` states.
- `esp_tls_conn_delete` is called even when the open returned NULL: the model logs that call on both paths.
