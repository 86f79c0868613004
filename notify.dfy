/** `Notify` and `Notifyf` (systemd/notify_unix.go): send one state datagram to
    the socket named by NOTIFY_SOCKET, or do nothing when it is unset or empty. */
module Notify {
  import opened Wrappers
  import opened SystemdHost
  import Format

  const SocketVariable := "NOTIFY_SOCKET"

  /** The two failures Notify reports, each wrapping the transport's cause. */
  datatype NotifyError = OpenFailed(cause: string) | WriteFailed(cause: string)

  /** The notify socket address as the environment holds it now; `None` means
      notification is disabled (the variable is unset, or set to ""). */
  function SocketAddress(env: map<string, string>): (r: Option<string>)
    // enabled exactly when the variable holds a non-empty address, which is used as set
    ensures r.None? <==> SocketVariable !in env || env[SocketVariable] == ""
    ensures r.Some? ==> r.value != "" && r.value == env[SocketVariable]
  {
    if SocketVariable in env && env[SocketVariable] != "" then Some(env[SocketVariable]) else None
  }

  /** The effects of one call on an enabled socket: the dial, then, only if it
      succeeded, the write and the close. */
  function Session(addr: string, state: string, connected: bool): seq<Event> {
    [Opened(addr)] + (if connected then [Wrote(state), Closed] else [])
  }

  /** What `Notify(state)` does to the world `w`, and what it returns. */
  function NotifyEffect(env: map<string, string>, state: string, w: World): (r: (Option<NotifyError>, World))
    // disabled: success without any I/O
    ensures SocketAddress(env).None? ==> r == (None, w)
    // enabled: one dial to the address read now, and a write and a close only after a successful dial
    ensures SocketAddress(env).Some? ==>
      r.1.log == w.log + Session(SocketAddress(env).value, state, Next(w.dials).Ok?)
    // success exactly when disabled, or when both the dial and the write succeeded
    ensures r.0.None? <==> SocketAddress(env).None? || (Next(w.dials).Ok? && Next(w.writes).Ok?)
    // a successful call on an enabled socket delivers `state` unchanged, once, to that address; nothing else is delivered
    ensures r.1.delivered ==
      w.delivered + (if SocketAddress(env).Some? && r.0.None? then [(SocketAddress(env).value, state)] else [])
    // the errors wrap the transport's cause
    ensures (r.0.Some? && r.0.value.OpenFailed?) <==> SocketAddress(env).Some? && Next(w.dials).Failed?
    ensures r.0.Some? ==> r.0.value.cause == (if r.0.value.OpenFailed? then Next(w.dials) else Next(w.writes)).cause
    ensures r.1.verdicts == w.verdicts
  {
    match SocketAddress(env)
    case None => (None, w)
    case Some(addr) =>
      var connected := w.(log := w.log + [Opened(addr)], dials := Rest(w.dials));
      if Next(w.dials).Failed? then (Some(OpenFailed(Next(w.dials).cause)), connected)
      else
        var o := Next(w.writes);
        var done := connected.(
          log := connected.log + [Wrote(state), Closed],
          delivered := connected.delivered + (if o.Ok? then [(addr, state)] else []),
          writes := Rest(w.writes));
        if o.Failed? then (Some(WriteFailed(o.cause)), done) else (None, done)
  }

  /** A connection that was connected is closed exactly once, on the failed-write
      path as on the success path, and at most one datagram, `state` itself, is
      written per call. */
  lemma ConnectionClosedOnce(env: map<string, string>, state: string, w: World)
    ensures var r := NotifyEffect(env, state, w);
      var connected := SocketAddress(env).Some? && Next(w.dials).Ok?;
      && w.log <= r.1.log
      && Count(r.1.log[|w.log|..], Closed) == (if connected then 1 else 0)
      && Count(r.1.log[|w.log|..], Wrote(state)) == (if connected then 1 else 0)
      && forall i :: |w.log| <= i < |r.1.log| && r.1.log[i].Wrote? ==> r.1.log[i] == Wrote(state)
  {
    var r := NotifyEffect(env, state, w);
    if SocketAddress(env).Some? {
      var addr := SocketAddress(env).value;
      var s := r.1.log[|w.log|..];
      assert s == Session(addr, state, Next(w.dials).Ok?);
      if Next(w.dials).Ok? {
        assert s == [Opened(addr)] + [Wrote(state)] + [Closed];
        CountAppend([Opened(addr)] + [Wrote(state)], [Closed], Closed);
        CountAppend([Opened(addr)], [Wrote(state)], Closed);
        CountAppend([Opened(addr)] + [Wrote(state)], [Closed], Wrote(state));
        CountAppend([Opened(addr)], [Wrote(state)], Wrote(state));
      } else {
        assert s == [Opened(addr)];
      }
    } else {
      assert r.1.log[|w.log|..] == [];
    }
  }

  /** On a transport that never fails, an enabled notification delivers `state`
      and reports no error, and the transport stays reliable. */
  lemma ReliableTransport(env: map<string, string>, state: string, w: World)
    requires Reliable(w.dials) && Reliable(w.writes)
    ensures var r := NotifyEffect(env, state, w);
      && r.0 == None
      && Reliable(r.1.dials) && Reliable(r.1.writes)
      && match SocketAddress(env)
         case None => r.1 == w
         case Some(addr) =>
           r.1 == w.(log := w.log + Session(addr, state, true),
                     delivered := w.delivered + [(addr, state)],
                     dials := Rest(w.dials), writes := Rest(w.writes))
  {
    ReliableRest(w.dials);
    ReliableRest(w.writes);
  }

  /** `Notify(state)`: the socket address is looked up on every call. */
  method Notify(env: map<string, string>, state: string, host: Host) returns (err: Option<NotifyError>)
    modifies host
    ensures (err, host.State()) == NotifyEffect(env, state, old(host.State()))
  {
    if SocketVariable !in env || env[SocketVariable] == "" {
      return None;
    }
    var ns := env[SocketVariable];
    var connected, conn := host.Dial(ns);
    if connected.Failed? {
      return Some(OpenFailed(connected.cause));
    }
    ghost var before := old(host.State());
    var wrote := host.Write(conn, state);
    // the deferred close runs on both remaining return paths
    host.Close(conn);
    assert wrote == Next(before.writes);
    if wrote.Failed? {
      assert host.log == before.log + [Opened(ns)] + [Wrote(state), Closed];
      assert host.delivered == before.delivered + [];
      return Some(WriteFailed(wrote.cause));
    }
    return None;
  }

  /** `Notifyf(format, args...)` is `Notify(fmt.Sprintf(format, args...))`. */
  method Notifyf(env: map<string, string>, format: string, args: seq<Format.Arg>, host: Host)
    returns (err: Option<NotifyError>)
    requires Format.Matches(format, args)
    modifies host
    ensures (err, host.State()) == NotifyEffect(env, Format.Sprintf(format, args), old(host.State()))
  {
    err := Notify(env, Format.Sprintf(format, args), host);
  }
}
