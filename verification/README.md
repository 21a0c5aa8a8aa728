# rpi-gpio-web: the `/hpa_power_set` transaction state machine

This project models the control core of a small libwebsockets HTTP server.
The server switches one GPIO-driven power line. A client POSTs a form field
`state` with value `on` or `off` to `/hpa_power_set`. The server drives GPIO4
high or low to match and records the level in the global `gpio_state`. Every
answer on that path is the JSON body `{"state": true}` or `{"state": false}`.

The model is functional. `Transaction.Step` is a pure function. It takes the
per-transaction storage (`Pss`, the optional form decoder), the shared
`Gpio.Actuator` and one lifecycle `Event` (`Http`, `Body`, `BodyCompletion`,
`Writeable`, `DropProtocol`). It returns the new storage, the new actuator and
a `Reply`. The reply holds the callback's return code, whether it asked for a
writable callback, and the body it wrote.

Modules:
- `Form`: the `lws_spa` form decoder, seen only through its decisions.
  A `Library` says which body prefixes decode without error and what value
  each field has after finalize. `None` (field absent) is distinct from
  `Some("")` (present but empty). A decoder instance is the bytes fed to it.
- `Gpio`: `gpio_state`, plus `pinLevel`, the level last passed to
  `GPIO4_set`. `pinLevel` is `None` before the pin is first driven.
- `Response`: the JSON body, and an independent reader (`ParseBody`) for it.
- `Transaction`: one handler per callback reason, and `Step`.
- `Trace`: `Run`, which folds `Step` over an event sequence, and the lemmas
  that relate several events.
- `Server`: `main`'s startup and shutdown writes, and the storages of
  interleaved transactions that share the one actuator.

Library calls whose outcome the code branches on become fields of the event.
These are: whether the headers were written, whether `lws_spa_create`
succeeds, what `lws_write` returns, and whether `lws_http_transaction_completed`
asks to close. So `Step` needs no I/O.

Two source hazards are kept as `Undefined(...)` outcomes instead of being
fixed. In each case the state is left unchanged.
- `FinalizeNullSpa`: a body completion with no prior body chunk (an empty
  POST). `lws_spa_finalize` and `lws_spa_get_string` then get a null decoder
  (src/main.c:103-108).
- `StrcmpNullField`: the decoder reports `state` absent, so `strcmp` gets a
  null pointer (src/main.c:118, 123).

An empty POST and a form without `state` both reach a null pointer. The code
has no guard for either, and the model keeps them as hazards.

Both string comparisons in the callback use `strcmp`: the request path
(src/main.c:61) and the `state` value (src/main.c:118, 123). `strcmp` reads
only up to the first NUL character. The model's test, `CString.StrEq`,
holds when `s` starts with the literal and then ends or continues with a
NUL. It is proved equal to comparing `CString.CStr(s)`, the part of `s`
before its first NUL. So a decoded value `"on\0x"` switches the pin on, just
as it does in the code.

## Model

| member | source | states |
|---|---|---|
| Form.Process | src/main.c:93-96 | feeding a chunk succeeds exactly when the library accepts the body received so far plus the chunk; on success the decoder holds that longer body |
| Form.FeedAll | src/main.c:81-97 | one decoding call per body chunk; when every call succeeds, the decoder holds the concatenation of all chunks after what it had before |
| Form.FeedAllIsOneProcess | src/main.c:81-97 | for an incremental library (a bad prefix is rejected at once), any non-empty chunking of a body ends in the same decoder, or the same rejection, as the whole body fed at once |
| Form.ChunkedBodyFinalizesAlike | src/main.c:93-115 | a fresh decoder fed an accepted body in any non-empty sequence of chunks accepts every chunk, and after finalize each field reports the library's value for the whole body |
| Form.SplitBodyDecodesAlike | src/main.c:81-97 | a body split into two chunks leaves the decoder exactly as the one-chunk body does, and is rejected exactly when the whole body is |
| CString.CStr | src/main.c:118-123 | what `strcmp` reads of a string: its longest prefix that holds no NUL, ending just before the first NUL if there is one |
| CString.StrEqIsCStrEquality | src/main.c:61 | for a literal with no NUL, `strcmp(s, lit) == 0` (modelled as `StrEq`: `s` starts with `lit` and ends there or continues with a NUL) holds exactly when the part of `s` before its first NUL equals `lit` |
| Gpio.Drive | src/main.c:120-121 | the pin write and the flag write always go together: afterwards the pin level equals `gpio_state`, and both equal the commanded level |
| Response.Body | src/main.c:148-155 | the body for each flag reads back as that same flag, so the two bodies differ; `true` renders in 15 bytes, `false` in 16 |
| Response.BodyDistinguishesStates | src/main.c:148-155 | two bodies are equal if and only if they report the same flag |
| Transaction.OnHttp | src/main.c:51-79 | only a path that `strcmp` reads as exactly `/hpa_power_set` is claimed: it returns 0 and asks for a writable callback, or returns 1 if the headers cannot be written; every other path falls through to the default handler; nothing else changes |
| Transaction.OnBody | src/main.c:81-97 | a decoder is created only when none exists; a failed creation aborts with -1 and leaves none; an existing decoder is reused and only extended; the chunk is appended exactly when the library accepts it, otherwise -1 and the decoder keeps its earlier bytes; the actuator is untouched |
| Transaction.ApplyStateField | src/main.c:117-129 | a value that `strcmp` reads as exactly `"on"` (the part before any NUL) drives the pin high and sets the flag; one read as exactly `"off"` drives it low and clears the flag; any other present value, including an empty one or `"ON"`, changes nothing; an absent value is the null-pointer `strcmp` hazard; the pin stays in step with the flag |
| Transaction.EmbeddedNulStillMatches | src/main.c:118-127 | for every decoded value, the actuator is switched exactly as for the value's part before its first NUL, so `"on\0x"` switches it on like `"on"` |
| Transaction.OnBodyCompletion | src/main.c:99-131 | with no decoder, the null-decoder finalize hazard and no change; otherwise the decoded `state` value drives the actuator as above and returns 0, or reaches the `strcmp` hazard with no change; the decoder survives until teardown |
| Transaction.OnDropProtocol | src/main.c:133-139 | teardown leaves the transaction with no decoder, never touches the actuator, and falls through to the default handler |
| Transaction.OnWriteable | src/main.c:141-172 | the body written is exactly `{"state": true}` when the flag is set and `{"state": false}` otherwise, and reads back as the flag; it returns 1 exactly when `lws_write` reports a length other than the body's, -1 when the transaction must close the connection, 0 otherwise |
| Transaction.Step | src/main.c:41-179 | every event keeps the pin in step with the flag; only a successful body completion whose value `strcmp` reads as `on` or `off` changes the actuator; only teardown removes a decoder and only a body chunk creates one; only the control path, as `strcmp` reads it, asks for a writable callback; only a writable event writes, and what it writes reports the current flag |
| Trace.Run | src/main.c:41-179 | delivering a sequence of events gives one reply per event; exactly the writable events write a body, and only request events ask for a writable callback |
| Trace.RunKeepsPinInSync | src/main.c:118-127 | over any event sequence, the level last sent to `GPIO4_set` equals `gpio_state` at the end if it did at the start |
| Trace.RunWithoutCompletionKeepsActuator | src/main.c:50-176 | a run with no body completion leaves the actuator exactly as it was |
| Trace.DecoderLifetime | src/main.c:83-91 | after any run, the decoder exists exactly when either it existed at the start or a chunk created one, and no teardown has come since |
| Trace.SubmissionEffect | src/main.c:99-159 | one accepted POST: a value read by `strcmp` as `on` drives high, as `off` drives low, any other present value changes nothing, an absent value hits the `strcmp` hazard; when the writable callback comes after the body completion, the answer written reports the flag after this request's effect; the transaction ends with no decoder |
| Trace.ResubmitIsIdempotent | src/main.c:117-159 | submitting the same body twice leaves the same actuator as once, and the second exchange's replies are identical to the first's, written body included |
| Trace.ChunkBoundaryInvariance | src/main.c:81-129 | the same accepted body in two chunks or in one ends with the same decoder, the same actuator and the same completion reply, for an incremental decoding library |
| Trace.RunChunksIsFeedAll | src/main.c:81-97 | when every chunk is accepted, a run of body-chunk events on a transaction that has a decoder leaves exactly the decoder that feeding it those chunks one by one gives, and the actuator untouched |
| Trace.ChunkedUploadDecodesAsWhole | src/main.c:81-97 | an accepted body uploaded in any non-empty number of chunks leaves the same decoder (holding the whole body) and the same actuator as one chunk, for an incremental decoding library |
| Trace.EmptyPostFinalizesNullSpa | src/main.c:99-108 | a POST whose completion arrives with no body chunk reaches the null-decoder finalize hazard |
| Trace.DropIsIdempotent | src/main.c:133-139 | a second teardown, with no decoder left, changes nothing |
| Server.Startup | src/main.c:239-241 | whatever the power-on state, startup drives the pin low with the flag false and in step, before any transaction exists |
| Server.Shutdown | src/main.c:261-264 | shutdown releases every transaction's storage and leaves the pin low with the flag false and in step |
| Server.Dispatch | src/main.c:20-27 | an event for one transaction touches only that transaction's storage and the shared actuator; its storage is gone after teardown and present otherwise; the pin stays in step with the flag; anything written reports the flag as it was |
| Server.ServeKeepsPinInSync | src/main.c:258-259 | over any interleaving of transactions, the pin level stays equal to `gpio_state` |
| Server.LifetimeIsFailSafe | src/main.c:239-264 | a probe right after startup answers `{"state": false}`; whatever was served, the pin is in step with the flag, and after shutdown both are low; a restarted process starts in the same state |

## Left out

- Header emission (src/main.c:63-69) is reduced to one boolean per `Http` event: whether both header calls succeeded. The header bytes are not modelled.
- `lws_write` framing and the bytes on the wire are left out. A write is the body handed over plus the count `lws_write` returns.
- `lws_http_transaction_completed` and keep-alive or HTTP/2 stream semantics are left out. They are reduced to the `mustClose` flag.
- The `if (!pss)` guard on a writable callback (src/main.c:143-144) is left out. The protocol declares per-session storage, so every HTTP transaction has one.
- `lws_spa` internals are left out: url-encoded and multipart parsing, and enforcement of the 1024-byte budget. The library is not part of this model. It is the abstract `Form.Library`.
- Transaction.OnBody: after a parse error, the model keeps the decoder's earlier bytes. What the real decoder keeps internally is not visible.
- The GPIO register driver (`gpio.h`, `GPIO4_setup`, `GPIO4_set`) is external hardware I/O. Only the commanded level is kept.
- The diagnostic logging loop (src/main.c:107-115) has no observable effect and is left out.
- Signal handling, the `lws_service` loop condition and the static mount configuration (src/main.c:181-237, 243-262) are process plumbing. They are left out. `Server.Serve` only delivers events in order.
- A failed `lws_create_context` (exit status 1) is left out.
- Events after a non-zero return are not ruled out. The transport closes the connection after -1 and after 1, but `Run` and `Server.Serve` accept any later events. For example, a chunk after a rejected one is decoded as if the rejected bytes had never arrived, and a second writable event after a short write can return 0.
- Trace.SubmissionEffect: covers only the event order of `Trace.Submission`, with the writable callback delivered after the body completion. The callback asks for a writable callback as soon as the request line arrives (src/main.c:72), and nothing in it orders that callback after the body completion. If the transport delivers it earlier, the body written reports the flag from before this request's effect.
- Behaviour after a hazard is left out. The code has undefined behaviour there, so the model only flags the hazard and leaves the state unchanged.
- Concurrency is left out. Events are dispatched one at a time, as in the single-threaded service loop.
- `htdocs/index-script.js` is browser UI code and is not modelled.
