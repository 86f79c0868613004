/** The world outside the systemd helpers, reduced to what they observe: a
    connectionless datagram transport (open, write one datagram, close), the
    sleep of the calling goroutine, and the caller's health predicate. Each
    effect is appended to a log; the outcome of each open and write is chosen in
    advance by a script, and the predicate's answers are a finite list. */
module SystemdHost {
  /** The outcome of one transport operation. */
  datatype Outcome = Ok | Failed(cause: string)

  /** One effect, in the order it happened. */
  datatype Event =
    | Opened(addr: string)      // a `unixgram` dial to addr was attempted
    | Wrote(datagram: string)   // one datagram write was attempted on the open connection
    | Closed                    // the open connection was closed
    | Slept(duration: int)      // the calling goroutine slept, in nanoseconds
    | Asked(healthy: bool)      // the health predicate was called and gave this answer

  /** A connection returned by a dial: it remembers its peer. */
  datatype Conn = Conn(addr: string)

  /** Everything the host holds, as a value. `delivered` lists the datagrams that
      reached an endpoint, with that endpoint's address. */
  datatype World = World(
    log: seq<Event>,
    delivered: seq<(string, string)>,
    dials: seq<Outcome>,
    writes: seq<Outcome>,
    verdicts: seq<bool>)

  /** The outcome of the next operation of a script; an exhausted script succeeds. */
  function Next(script: seq<Outcome>): Outcome {
    if script == [] then Ok else script[0]
  }

  function Rest(script: seq<Outcome>): seq<Outcome> {
    if script == [] then [] else script[1..]
  }

  /** Every scripted outcome succeeds. */
  predicate Reliable(script: seq<Outcome>) {
    forall i :: 0 <= i < |script| ==> script[i] == Ok
  }

  /** A script that never fails yields success now and stays reliable. */
  lemma ReliableRest(script: seq<Outcome>)
    requires Reliable(script)
    ensures Next(script) == Ok && Reliable(Rest(script))
  {
    if script != [] {
      assert forall i :: 0 <= i < |script| - 1 ==> Rest(script)[i] == script[i + 1];
    }
  }

  /** How many times `e` occurs in `log`. */
  function Count(log: seq<Event>, e: Event): nat
    decreases |log|
  {
    if log == [] then 0 else Count(log[..|log| - 1], e) + (if log[|log| - 1] == e then 1 else 0)
  }

  lemma {:induction false} CountAppend(a: seq<Event>, b: seq<Event>, e: Event)
    ensures Count(a + b, e) == Count(a, e) + Count(b, e)
    decreases |b|
  {
    if b == [] {
      assert a + b == a;
    } else {
      var c := b[..|b| - 1];
      assert (a + b)[..|a + b| - 1] == a + c;
      CountAppend(a, c, e);
    }
  }

  class Host {
    var log: seq<Event>
    var delivered: seq<(string, string)>
    var dials: seq<Outcome>
    var writes: seq<Outcome>
    var verdicts: seq<bool>

    function State(): World
      reads this
    {
      World(log, delivered, dials, writes, verdicts)
    }

    constructor (dials: seq<Outcome>, writes: seq<Outcome>, verdicts: seq<bool>)
      ensures State() == World([], [], dials, writes, verdicts)
    {
      this.log := [];
      this.delivered := [];
      this.dials := dials;
      this.writes := writes;
      this.verdicts := verdicts;
    }

    /** `net.Dial("unixgram", addr)`. */
    method Dial(addr: string) returns (r: Outcome, conn: Conn)
      modifies this
      ensures r == Next(old(dials)) && conn == Conn(addr)
      ensures State() == old(State()).(log := old(log) + [Opened(addr)], dials := Rest(old(dials)))
    {
      r := Next(dials);
      conn := Conn(addr);
      log := log + [Opened(addr)];
      dials := Rest(dials);
    }

    /** `conn.Write(datagram)`: on success the whole datagram reaches conn's peer. */
    method Write(conn: Conn, datagram: string) returns (r: Outcome)
      modifies this
      ensures r == Next(old(writes))
      ensures State() == old(State()).(
        log := old(log) + [Wrote(datagram)],
        delivered := old(delivered) + (if r.Ok? then [(conn.addr, datagram)] else []),
        writes := Rest(old(writes)))
    {
      r := Next(writes);
      log := log + [Wrote(datagram)];
      if r.Ok? {
        delivered := delivered + [(conn.addr, datagram)];
      }
      writes := Rest(writes);
    }

    /** `conn.Close()`. */
    method Close(conn: Conn)
      modifies this
      ensures State() == old(State()).(log := old(log) + [Closed])
    {
      log := log + [Closed];
    }

    /** `time.Sleep(d)`; only the requested duration is recorded. */
    method Sleep(d: int)
      modifies this
      ensures State() == old(State()).(log := old(log) + [Slept(d)])
    {
      log := log + [Slept(d)];
    }

    /** One call of the caller's health predicate. */
    method Ask() returns (healthy: bool)
      requires verdicts != []
      modifies this
      ensures healthy == old(verdicts)[0]
      ensures State() == old(State()).(log := old(log) + [Asked(healthy)], verdicts := old(verdicts)[1..])
    {
      healthy := verdicts[0];
      log := log + [Asked(healthy)];
      verdicts := verdicts[1..];
    }
  }
}
