/**
  One HTTP transaction as `callback_http` sees it: a pure step function
  from the per-transaction storage (the "pss", holding the optional form
  decoder) and the shared actuator, over one lifecycle event, to the new
  storage, the new actuator and what the callback did.
 */
module Transaction {
  import opened Wrappers
  import Form
  import opened Gpio
  import Response
  import opened CString

  /** The only URL path the callback claims for itself. */
  const ControlPath: string := "/hpa_power_set"

  /** Per-transaction storage; libwebsockets hands out a zeroed one, with no decoder. */
  datatype Pss = Pss(spa: Option<Form.Spa>)

  const Fresh: Pss := Pss(None)

  /**
    The callback reasons this model handles. Each carries the outcome of the
    libwebsockets calls its handler makes:
    - `Http`: the request path, and whether both header-writing calls succeeded;
    - `Body`: the chunk, and whether `lws_spa_create` would succeed if called;
    - `Writeable`: what `lws_write` returns, and whether
      `lws_http_transaction_completed` asks for the connection to close.
   */
  datatype Event =
    | Http(path: string, headersWritten: bool)
    | Body(chunk: seq<Form.byte>, spaCreated: bool)
    | BodyCompletion
    | Writeable(sent: int, mustClose: bool)
    | DropProtocol

  /** Undefined behaviour the callback reaches: a null pointer handed to a library routine. */
  datatype Hazard =
    | FinalizeNullSpa   // `lws_spa_finalize` and `lws_spa_get_string` on a decoder never created
    | StrcmpNullField   // `strcmp` on the `state` field the decoder reports absent

  /**
    How the callback ends: it returns `code`, it breaks out of the switch to
    `lws_callback_http_dummy` (`Default`), or it has hit a hazard.
   */
  datatype Ret = Return(code: int) | Default | Undefined(hazard: Hazard)

  /** What one event produced besides state: the return, a writable request, the body written. */
  datatype Reply = Reply(ret: Ret, wantsWritable: bool, written: Option<string>)

  datatype Outcome = Outcome(pss: Pss, actuator: Actuator, reply: Reply)

  const Quiet: Reply := Reply(Default, false, None)

  /**
    LWS_CALLBACK_HTTP: claim the control path, let everything else fall
    through. The path is compared with `strcmp`, so only what precedes a NUL counts.
   */
  function OnHttp(pss: Pss, act: Actuator, path: string, headersWritten: bool): (o: Outcome)
    ensures o.pss == pss && o.actuator == act && o.reply.written.None?
    ensures o.reply.ret == Return(0) <==> StrEq(path, ControlPath) && headersWritten
    ensures o.reply.ret == Return(1) <==> StrEq(path, ControlPath) && !headersWritten
    ensures o.reply.ret.Default? <==> !StrEq(path, ControlPath)
    ensures o.reply.wantsWritable <==> o.reply.ret == Return(0)
  {
    if StrEq(path, ControlPath) then
      if !headersWritten then Outcome(pss, act, Reply(Return(1), false, None))
      else Outcome(pss, act, Reply(Return(0), true, None))
    else Outcome(pss, act, Quiet)
  }

  /**
    LWS_CALLBACK_HTTP_BODY: create the decoder if this transaction has none,
    then feed it the chunk; either failure aborts with -1.
   */
  function OnBody(lib: Form.Library, pss: Pss, act: Actuator, chunk: seq<Form.byte>, spaCreated: bool): (o: Outcome)
    ensures o.actuator == act && !o.reply.wantsWritable && o.reply.written.None?
    ensures o.pss.spa.None? <==> pss.spa.None? && !spaCreated
    ensures pss.spa.None? && !spaCreated ==> o.reply.ret == Return(-1)
    ensures pss.spa.Some? ==> pss.spa.value.received <= o.pss.spa.value.received
    ensures o.pss.spa.Some? ==>
              var before := if pss.spa.Some? then pss.spa.value.received else [];
              && (o.reply.ret.Default? ==> o.pss.spa.value.received == before + chunk)
              && (o.reply.ret.Default? <==> Form.Process(lib, Form.Spa(before), chunk).Some?)
              && (o.reply.ret.Default? || (o.reply.ret == Return(-1) && o.pss.spa.value.received == before))
  {
    if pss.spa.None? && !spaCreated then Outcome(pss, act, Reply(Return(-1), false, None))
    else
      var spa := if pss.spa.Some? then pss.spa.value else Form.Create();
      match Form.Process(lib, spa, chunk)
      case None => Outcome(Pss(Some(spa)), act, Reply(Return(-1), false, None))
      case Some(next) => Outcome(Pss(Some(next)), act, Quiet)
  }

  /**
    The `state` filter run on body completion: compare the decoded value
    with "on" and then with "off" using `strcmp` (case-sensitive, reading up to the first NUL) and drive
    the actuator on a match. An absent value reaches `strcmp` as a null pointer.
   */
  function ApplyStateField(act: Actuator, field: Option<string>): (r: Result<Actuator, Hazard>)
    ensures r.Failure? <==> field.None?
    ensures r.Failure? ==> r.error == StrcmpNullField
    ensures field.Some? && StrEq(field.value, "on") ==> r == Success(Actuator(true, Some(true)))
    ensures field.Some? && StrEq(field.value, "off") ==> r == Success(Actuator(false, Some(false)))
    ensures field.Some? && !StrEq(field.value, "on") && !StrEq(field.value, "off") ==> r == Success(act)
    ensures InSync(act) && r.Success? ==> InSync(r.value)
  {
    match field
    case None => Failure(StrcmpNullField)
    case Some(v) =>
      if StrEq(v, "on") then Success(Drive(true))
      else if StrEq(v, "off") then Success(Drive(false))
      else Success(act)
  }

  /**
    LWS_CALLBACK_HTTP_BODY_COMPLETION: finalize the decoder and apply the
    decoded `state` field. Without a decoder the finalize is a null-pointer
    call; the decoder itself survives until teardown.
   */
  function OnBodyCompletion(lib: Form.Library, pss: Pss, act: Actuator): (o: Outcome)
    ensures o.pss == pss && !o.reply.wantsWritable && o.reply.written.None?
    ensures pss.spa.None? ==> o.reply.ret == Undefined(FinalizeNullSpa) && o.actuator == act
    ensures pss.spa.Some? ==>
              var v := lib.value(pss.spa.value.received, "state");
              && (v.None? ==> o.reply.ret == Undefined(StrcmpNullField) && o.actuator == act)
              && (v.Some? ==> o.reply.ret == Return(0))
              && (v.Some? && StrEq(v.value, "on") ==> o.actuator == Drive(true))
              && (v.Some? && StrEq(v.value, "off") ==> o.actuator == Drive(false))
              && (v.Some? && !StrEq(v.value, "on") && !StrEq(v.value, "off") ==> o.actuator == act)
  {
    match pss.spa
    case None => Outcome(pss, act, Reply(Undefined(FinalizeNullSpa), false, None))
    case Some(spa) =>
      var fields := Form.Finalize(lib, spa);
      match ApplyStateField(act, fields[Form.StateIndex])
      case Failure(h) => Outcome(pss, act, Reply(Undefined(h), false, None))
      case Success(next) => Outcome(pss, next, Reply(Return(0), false, None))
  }

  /** LWS_CALLBACK_HTTP_DROP_PROTOCOL: destroy the decoder if there is one. */
  function OnDropProtocol(pss: Pss, act: Actuator): (o: Outcome)
    ensures o.pss == Fresh && o.actuator == act && o.reply == Quiet
  {
    match pss.spa
    case None => Outcome(pss, act, Quiet)
    case Some(_) => Outcome(Pss(None), act, Quiet)
  }

  /**
    LWS_CALLBACK_HTTP_WRITEABLE: write the body for the current flag as the
    final chunk; a short write aborts with 1, a transaction after which the
    connection must close ends with -1.
   */
  function OnWriteable(pss: Pss, act: Actuator, sent: int, mustClose: bool): (o: Outcome)
    ensures o.pss == pss && o.actuator == act && !o.reply.wantsWritable
    ensures o.reply.written.Some? && Response.ParseBody(o.reply.written.value) == Some(act.gpioState)
    ensures act.gpioState ==> o.reply.written == Some("{\"state\": true}")
    ensures !act.gpioState ==> o.reply.written == Some("{\"state\": false}")
    ensures o.reply.ret == Return(1) <==> sent != |o.reply.written.value|
    ensures o.reply.ret == Return(-1) <==> sent == |o.reply.written.value| && mustClose
    ensures o.reply.ret == Return(0) <==> sent == |o.reply.written.value| && !mustClose
  {
    var body := Response.Body(act.gpioState);
    var ret := if sent != |body| then Return(1) else if mustClose then Return(-1) else Return(0);
    Outcome(pss, act, Reply(ret, false, Some(body)))
  }

  /**
    `strcmp` stops at a NUL: any decoded value switches the actuator exactly
    as its part before the first NUL would, so "on\0x" still switches it on.
   */
  lemma EmbeddedNulStillMatches(act: Actuator, v: string)
    ensures ApplyStateField(act, Some(v)) == ApplyStateField(act, Some(CStr(v)))
  {
    CStrIdempotent(v);
    StrEqIsCStrEquality(v, "on");
    StrEqIsCStrEquality(CStr(v), "on");
    StrEqIsCStrEquality(v, "off");
    StrEqIsCStrEquality(CStr(v), "off");
    assert CStr("on\0x") == "on";
    assert CStr("off\0on") == "off";
  }

  /** `callback_http`: one event, dispatched on its reason. */
  function Step(lib: Form.Library, pss: Pss, act: Actuator, ev: Event): (o: Outcome)
    ensures InSync(act) ==> InSync(o.actuator)
    ensures o.actuator != act ==> ev.BodyCompletion? && o.reply.ret == Return(0)
    ensures o.actuator != act ==>
              && pss.spa.Some?
              && var v := lib.value(pss.spa.value.received, "state");
                 v.Some? && (StrEq(v.value, "on") || StrEq(v.value, "off"))
    ensures ev.DropProtocol? ==> o.pss.spa.None?
    ensures pss.spa.Some? && o.pss.spa.None? ==> ev.DropProtocol?
    ensures pss.spa.None? && o.pss.spa.Some? ==> ev.Body? && ev.spaCreated
    ensures o.reply.wantsWritable ==> ev.Http? && StrEq(ev.path, ControlPath)
    ensures o.reply.written.Some? <==> ev.Writeable?
    ensures o.reply.written.Some? ==> Response.ParseBody(o.reply.written.value) == Some(act.gpioState)
  {
    match ev
    case Http(path, headersWritten) => OnHttp(pss, act, path, headersWritten)
    case Body(chunk, spaCreated) => OnBody(lib, pss, act, chunk, spaCreated)
    case BodyCompletion => OnBodyCompletion(lib, pss, act)
    case Writeable(sent, mustClose) => OnWriteable(pss, act, sent, mustClose)
    case DropProtocol => OnDropProtocol(pss, act)
  }
}
