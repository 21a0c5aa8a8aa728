/**
  The process around the callback (`main`): the fail-safe writes at startup
  and shutdown, and the per-transaction storages of the transactions in
  flight, all sharing the one actuator.
 */
module Server {
  import opened Wrappers
  import Form
  import opened Gpio
  import Response
  import opened Transaction

  /** Identifies one transaction in flight (one stream or keep-alive exchange). */
  type TransactionId = nat

  /** The shared actuator, and the storage of every transaction that has not been torn down. */
  datatype Server = Server(actuator: Actuator, sessions: map<TransactionId, Pss>)

  /** Result of dispatching one event. */
  datatype Dispatched = Dispatched(server: Server, reply: Reply)

  /**
    `GPIO4_setup(); GPIO4_set(false); gpio_state = false;` before the
    context is created: whatever the power-on contents, the pin is driven
    low and no transaction exists yet.
   */
  function Startup(boot: Actuator): (s: Server)
    ensures InSync(s.actuator) && !s.actuator.gpioState
    ensures s.sessions == map[]
  {
    Server(Drive(false), map[])
  }

  /**
    `lws_context_destroy` (every transaction's storage released) followed by
    `GPIO4_set(false); gpio_state = false;`.
   */
  function Shutdown(s: Server): (r: Server)
    ensures InSync(r.actuator) && !r.actuator.gpioState
    ensures r.sessions == map[]
  {
    Server(Drive(false), map[])
  }

  /**
    Deliver `ev` to transaction `id`. A transaction with no storage yet gets a
    zeroed one; after teardown its storage is released.
   */
  function Dispatch(lib: Form.Library, s: Server, id: TransactionId, ev: Event): (r: Dispatched)
    ensures InSync(s.actuator) ==> InSync(r.server.actuator)
    ensures ev.DropProtocol? <==> id !in r.server.sessions
    ensures forall other :: other != id ==> (other in r.server.sessions <==> other in s.sessions)
    ensures forall other :: other != id && other in s.sessions ==> r.server.sessions[other] == s.sessions[other]
    ensures r.server.actuator != s.actuator ==> ev.BodyCompletion?
    ensures r.reply.written.Some? ==> Response.ParseBody(r.reply.written.value) == Some(s.actuator.gpioState)
  {
    var pss := if id in s.sessions then s.sessions[id] else Fresh;
    var o := Step(lib, pss, s.actuator, ev);
    var sessions := if ev.DropProtocol? then s.sessions - {id} else s.sessions[id := o.pss];
    Dispatched(Server(o.actuator, sessions), o.reply)
  }

  /** The service loop: deliver tagged events in order. */
  function Serve(lib: Form.Library, s: Server, evs: seq<(TransactionId, Event)>): Server
    decreases |evs|
  {
    if evs == [] then s
    else Serve(lib, Dispatch(lib, s, evs[0].0, evs[0].1).server, evs[1..])
  }

  /** Interleaved transactions keep the pin level equal to `gpio_state`. */
  lemma {:induction false} ServeKeepsPinInSync(lib: Form.Library, s: Server, evs: seq<(TransactionId, Event)>)
    requires InSync(s.actuator)
    ensures InSync(Serve(lib, s, evs).actuator)
    decreases |evs|
  {
    if evs != [] {
      ServeKeepsPinInSync(lib, Dispatch(lib, s, evs[0].0, evs[0].1).server, evs[1..]);
    }
  }

  /**
    Fail-safe at both ends of the process: a probe right after startup reads
    `{"state": false}`; whatever was served, the pin is low and in step with
    the flag after shutdown, and a restarted process again reads false.
    Only the in-step clause while serving needs `ServeKeepsPinInSync`; the
    probe, shutdown and restart clauses follow from `Startup` and `Shutdown`
    alone, since both force the same fail-safe state whatever came before.
   */
  lemma {:induction false} LifetimeIsFailSafe(lib: Form.Library, boot: Actuator, evs: seq<(TransactionId, Event)>, id: TransactionId, sent: int, mustClose: bool)
    ensures Dispatch(lib, Startup(boot), id, Writeable(sent, mustClose)).reply.written
              == Some("{\"state\": false}")
    ensures var running := Serve(lib, Startup(boot), evs);
            && InSync(running.actuator)
            && InSync(Shutdown(running).actuator) && !Shutdown(running).actuator.gpioState
    ensures Startup(Shutdown(Serve(lib, Startup(boot), evs)).actuator) == Startup(boot)
  {
    ServeKeepsPinInSync(lib, Startup(boot), evs);
  }
}
