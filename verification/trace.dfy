/**
  Sequences of lifecycle events delivered to one transaction's callback,
  and the properties that hold across them.
 */
module Trace {
  import opened Wrappers
  import Form
  import opened Gpio
  import Response
  import opened Transaction
  import opened CString

  /** Storage and actuator after a run of events, with the reply to each event in order. */
  datatype Trace = Trace(pss: Pss, actuator: Actuator, replies: seq<Reply>)

  /** Deliver `evs` one after another, starting from `pss` and `act`. */
  function Run(lib: Form.Library, pss: Pss, act: Actuator, evs: seq<Event>): (t: Trace)
    ensures |t.replies| == |evs|
    ensures forall i :: 0 <= i < |evs| ==> (t.replies[i].written.Some? <==> evs[i].Writeable?)
    ensures forall i :: 0 <= i < |evs| && t.replies[i].wantsWritable ==> evs[i].Http?
    decreases |evs|
  {
    if evs == [] then Trace(pss, act, [])
    else
      var o := Step(lib, pss, act, evs[0]);
      var rest := Run(lib, o.pss, o.actuator, evs[1..]);
      Trace(rest.pss, rest.actuator, [o.reply] + rest.replies)
  }

  /** A run of `e` followed by `evs` is a step on `e`, then a run of `evs`. */
  lemma RunCons(lib: Form.Library, pss: Pss, act: Actuator, e: Event, evs: seq<Event>)
    ensures var o := Step(lib, pss, act, e);
            var rest := Run(lib, o.pss, o.actuator, evs);
            Run(lib, pss, act, [e] + evs) == Trace(rest.pss, rest.actuator, [o.reply] + rest.replies)
  {
  }

  /**
    Whatever the events, the level last driven onto the pin stays equal to
    `gpio_state`: every write of one is paired with a write of the other.
   */
  lemma {:induction false} RunKeepsPinInSync(lib: Form.Library, pss: Pss, act: Actuator, evs: seq<Event>)
    requires InSync(act)
    ensures InSync(Run(lib, pss, act, evs).actuator)
    decreases |evs|
  {
    if evs != [] {
      var o := Step(lib, pss, act, evs[0]);
      RunKeepsPinInSync(lib, o.pss, o.actuator, evs[1..]);
    }
  }

  /** Only a body completion can change the actuator. */
  lemma {:induction false} RunWithoutCompletionKeepsActuator(lib: Form.Library, pss: Pss, act: Actuator, evs: seq<Event>)
    requires forall i :: 0 <= i < |evs| ==> !evs[i].BodyCompletion?
    ensures Run(lib, pss, act, evs).actuator == act
    decreases |evs|
  {
    if evs != [] {
      var o := Step(lib, pss, act, evs[0]);
      RunWithoutCompletionKeepsActuator(lib, o.pss, o.actuator, evs[1..]);
    }
  }

  /** No teardown among `evs[from..]`. */
  ghost predicate NoDropFrom(evs: seq<Event>, from: nat)
  {
    forall k :: from <= k < |evs| ==> !evs[k].DropProtocol?
  }

  /**
    The decoder exists exactly when it existed at the start, or some body
    chunk managed to create one, and no teardown has happened since.
   */
  ghost predicate DecoderAlive(pss: Pss, evs: seq<Event>)
  {
    || (pss.spa.Some? && NoDropFrom(evs, 0))
    || exists j :: 0 <= j < |evs| && evs[j].Body? && evs[j].spaCreated && NoDropFrom(evs, j + 1)
  }

  /** `DecoderAlive` of a non-empty run, in terms of its first event and the rest. */
  lemma DecoderAliveCons(pss: Pss, pss': Pss, evs: seq<Event>)
    requires |evs| > 0
    requires evs[0].DropProtocol? ==> pss'.spa.None?
    requires !evs[0].DropProtocol? ==> (pss'.spa.Some? <==> pss.spa.Some? || (evs[0].Body? && evs[0].spaCreated))
    ensures DecoderAlive(pss, evs) <==> DecoderAlive(pss', evs[1..])
  {
  }

  /**
    The decoder handle is non-null exactly between a body chunk that created
    it and the next teardown; a GET-style run with no chunk never has one.
   */
  lemma {:induction false} DecoderLifetime(lib: Form.Library, pss: Pss, act: Actuator, evs: seq<Event>)
    ensures Run(lib, pss, act, evs).pss.spa.Some? <==> DecoderAlive(pss, evs)
    decreases |evs|
  {
    if evs != [] {
      var o := Step(lib, pss, act, evs[0]);
      DecoderLifetime(lib, o.pss, o.actuator, evs[1..]);
      DecoderAliveCons(pss, o.pss, evs);
    }
  }

  /** A POST to the control path carrying `body` in one chunk, answered, then torn down. */
  function Submission(body: seq<Form.byte>, sent: int, mustClose: bool): seq<Event>
  {
    [Http(ControlPath, true), Body(body, true), BodyCompletion, Writeable(sent, mustClose), DropProtocol]
  }

  /** The same run as `Run(lib, Fresh, act, Submission(...))`, spelled out event by event. */
  lemma RunSubmission(lib: Form.Library, act: Actuator, body: seq<Form.byte>, sent: int, mustClose: bool)
    ensures var o1 := Step(lib, Fresh, act, Http(ControlPath, true));
            var o2 := Step(lib, o1.pss, o1.actuator, Body(body, true));
            var o3 := Step(lib, o2.pss, o2.actuator, BodyCompletion);
            var o4 := Step(lib, o3.pss, o3.actuator, Writeable(sent, mustClose));
            var o5 := Step(lib, o4.pss, o4.actuator, DropProtocol);
            Run(lib, Fresh, act, Submission(body, sent, mustClose))
              == Trace(o5.pss, o5.actuator, [o1.reply, o2.reply, o3.reply, o4.reply, o5.reply])
  {
    var evs := Submission(body, sent, mustClose);
    var o1 := Step(lib, Fresh, act, evs[0]);
    var o2 := Step(lib, o1.pss, o1.actuator, evs[1]);
    var o3 := Step(lib, o2.pss, o2.actuator, evs[2]);
    var o4 := Step(lib, o3.pss, o3.actuator, evs[3]);
    RunCons(lib, Fresh, act, evs[0], evs[1..]);
    assert [evs[0]] + evs[1..] == evs;
    RunCons(lib, o1.pss, o1.actuator, evs[1], evs[2..]);
    assert [evs[1]] + evs[2..] == evs[1..];
    RunCons(lib, o2.pss, o2.actuator, evs[2], evs[3..]);
    assert [evs[2]] + evs[3..] == evs[2..];
    RunCons(lib, o3.pss, o3.actuator, evs[3], evs[4..]);
    assert [evs[3]] + evs[4..] == evs[3..];
    RunCons(lib, o4.pss, o4.actuator, evs[4], []);
    assert [evs[4]] + [] == evs[4..];
  }

  /** A well-formed submission is the completion and writable handlers on a decoder holding the body. */
  lemma SubmissionUnfolds(lib: Form.Library, act: Actuator, body: seq<Form.byte>, sent: int, mustClose: bool)
    requires lib.accepts(body)
    ensures var c := OnBodyCompletion(lib, Pss(Some(Form.Spa(body))), act);
            var w := OnWriteable(c.pss, c.actuator, sent, mustClose);
            Run(lib, Fresh, act, Submission(body, sent, mustClose))
              == Trace(Fresh, c.actuator, [Reply(Return(0), true, None), Quiet, c.reply, w.reply, Quiet])
  {
    RunSubmission(lib, act, body, sent, mustClose);
    var o1 := Step(lib, Fresh, act, Http(ControlPath, true));
    var o2 := Step(lib, o1.pss, o1.actuator, Body(body, true));
    assert [] + body == body;
    assert o2.pss == Pss(Some(Form.Spa(body))) && o2.actuator == act;
  }

  /**
    The effect of one well-formed submission: "on" drives high, "off" drives
    low (as `strcmp` reads the value, up to a NUL), any other present value
    changes nothing, an absent value reaches the null-pointer comparison;
    the response written reflects the flag after this request's effect, and
    the transaction ends with no decoder.
   */
  lemma SubmissionEffect(lib: Form.Library, act: Actuator, body: seq<Form.byte>, sent: int, mustClose: bool)
    requires lib.accepts(body)
    ensures var t := Run(lib, Fresh, act, Submission(body, sent, mustClose));
            var v := lib.value(body, "state");
            && t.pss == Fresh
            && t.replies[0].ret == Return(0) && t.replies[0].wantsWritable
            && t.replies[1].ret == Default
            && (v.None? ==> t.replies[2].ret == Undefined(StrcmpNullField) && t.actuator == act)
            && (v.Some? ==> t.replies[2].ret == Return(0))
            && (v.Some? && StrEq(v.value, "on") ==> t.actuator == Drive(true))
            && (v.Some? && StrEq(v.value, "off") ==> t.actuator == Drive(false))
            && (v.Some? && !StrEq(v.value, "on") && !StrEq(v.value, "off") ==> t.actuator == act)
            && t.replies[3].written == Some(Response.Body(t.actuator.gpioState))
  {
    SubmissionUnfolds(lib, act, body, sent, mustClose);
  }

  /**
    Submitting the same body twice leaves the actuator as submitting it once
    does, and the second exchange's replies, written body included, are
    identical to the first's.
   */
  lemma ResubmitIsIdempotent(lib: Form.Library, act: Actuator, body: seq<Form.byte>, sent: int, mustClose: bool)
    ensures var once := Run(lib, Fresh, act, Submission(body, sent, mustClose));
            var twice := Run(lib, Fresh, once.actuator, Submission(body, sent, mustClose));
            twice == once
  {
    RunSubmission(lib, act, body, sent, mustClose);
    var once := Run(lib, Fresh, act, Submission(body, sent, mustClose));
    RunSubmission(lib, once.actuator, body, sent, mustClose);
  }

  /**
    A body delivered in two chunks ends in the same decoder, actuator and
    completion reply as the same body in one chunk (the library being an
    incremental parser).
   */
  lemma ChunkBoundaryInvariance(lib: Form.Library, act: Actuator, a: seq<Form.byte>, b: seq<Form.byte>, created: bool)
    requires Form.PrefixClosed(lib.accepts)
    requires lib.accepts(a + b)
    ensures var split := Run(lib, Fresh, act, [Body(a, true), Body(b, created), BodyCompletion]);
            var whole := Run(lib, Fresh, act, [Body(a + b, true), BodyCompletion]);
            && split.pss == whole.pss
            && split.actuator == whole.actuator
            && split.replies[2] == whole.replies[1]
  {
    assert [] + a + b == a + b;
    assert [] + (a + b) == a + b;
    assert lib.accepts(a + b) ==> lib.accepts(a);
    var s1 := Step(lib, Fresh, act, Body(a, true));
    var s2 := Step(lib, s1.pss, s1.actuator, Body(b, created));
    assert s2.pss.spa == Some(Form.Spa(a + b));
    RunCons(lib, Fresh, act, Body(a, true), [Body(b, created), BodyCompletion]);
    RunCons(lib, s1.pss, s1.actuator, Body(b, created), [BodyCompletion]);
    RunCons(lib, s2.pss, s2.actuator, BodyCompletion, []);
    var w1 := Step(lib, Fresh, act, Body(a + b, true));
    assert w1.pss.spa == Some(Form.Spa(a + b));
    RunCons(lib, Fresh, act, Body(a + b, true), [BodyCompletion]);
    RunCons(lib, w1.pss, w1.actuator, BodyCompletion, []);
  }

  /** One body-chunk event per chunk, each able to create the decoder. */
  function Chunks(chunks: seq<seq<Form.byte>>): (evs: seq<Event>)
    ensures |evs| == |chunks|
    ensures forall i :: 0 <= i < |chunks| ==> evs[i] == Body(chunks[i], true)
    decreases |chunks|
  {
    if chunks == [] then [] else [Body(chunks[0], true)] + Chunks(chunks[1..])
  }

  /**
    Body-chunk events on a transaction that already has a decoder feed it
    exactly as the decoder's own chunk-by-chunk feeding does, whenever every
    chunk is accepted; the actuator is untouched.
   */
  lemma {:induction false} RunChunksIsFeedAll(lib: Form.Library, spa: Form.Spa, act: Actuator, chunks: seq<seq<Form.byte>>)
    requires Form.FeedAll(lib, spa, chunks).Some?
    ensures var t := Run(lib, Pss(Some(spa)), act, Chunks(chunks));
            t.pss.spa == Form.FeedAll(lib, spa, chunks) && t.actuator == act
    decreases |chunks|
  {
    if chunks != [] {
      var next := Form.Process(lib, spa, chunks[0]).value;
      RunCons(lib, Pss(Some(spa)), act, Body(chunks[0], true), Chunks(chunks[1..]));
      RunChunksIsFeedAll(lib, next, act, chunks[1..]);
    }
  }

  /**
    An accepted body uploaded in any non-empty sequence of chunks leaves the
    transaction with the same decoder, and the same actuator, as the whole
    body in one chunk (the library being an incremental parser).
   */
  lemma ChunkedUploadDecodesAsWhole(lib: Form.Library, act: Actuator, chunks: seq<seq<Form.byte>>)
    requires Form.PrefixClosed(lib.accepts)
    requires |chunks| > 0
    requires lib.accepts(Form.Concat(chunks))
    ensures var split := Run(lib, Fresh, act, Chunks(chunks));
            var whole := Run(lib, Fresh, act, [Body(Form.Concat(chunks), true)]);
            && split.pss == whole.pss == Pss(Some(Form.Spa(Form.Concat(chunks))))
            && split.actuator == whole.actuator == act
  {
    var body := Form.Concat(chunks);
    Form.FeedAllIsOneProcess(lib, Form.Create(), chunks);
    assert [] + body == body;
    var first := Form.Process(lib, Form.Create(), chunks[0]);
    assert first.Some?;
    RunCons(lib, Fresh, act, Body(chunks[0], true), Chunks(chunks[1..]));
    RunChunksIsFeedAll(lib, first.value, act, chunks[1..]);
    RunCons(lib, Fresh, act, Body(body, true), []);
  }

  /**
    A POST with an empty body (no chunk before completion) reaches
    `lws_spa_finalize` with no decoder.
   */
  lemma EmptyPostFinalizesNullSpa(lib: Form.Library, act: Actuator)
    ensures Run(lib, Fresh, act, [Http(ControlPath, true), BodyCompletion]).replies[1].ret
              == Undefined(FinalizeNullSpa)
  {
  }

  /** A second teardown, with no decoder left, changes nothing. */
  lemma DropIsIdempotent(lib: Form.Library, pss: Pss, act: Actuator)
    ensures var once := Step(lib, pss, act, DropProtocol);
            Step(lib, once.pss, once.actuator, DropProtocol) == once
  {
  }
}
