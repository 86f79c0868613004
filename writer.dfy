/** `MultiWriter` (util/writer.go): an ordered list of writer identities that
    `Write` fans a byte slice out to, in order, stopping at the first error. */
module Writers {
  import opened Wrappers

  /** The identity of an `io.Writer`: Go compares writers with `==`. */
  type WriterId = nat

  /** How a writer answers: `None` accepts every write, `Some(f)` fails every
      write with the count `f.n` and the error `f.reason`. */
  datatype Fault = Fault(n: int, reason: string)

  /** A writer's observable state: what it has accepted so far, and how it answers. */
  datatype Sink = Sink(written: seq<bv8>, fault: Option<Fault>)

  /** One `writer.Write(p)` call on sink `s`. */
  function SinkWrite(s: Sink, p: seq<bv8>): (r: (int, Option<string>, Sink))
    // an accepting writer takes all of p; a failing one keeps its buffer and reports its fault
    ensures r.1.None? <==> s.fault.None?
    ensures s.fault.None? ==> r == (|p|, None, s.(written := s.written + p))
    ensures s.fault.Some? ==> r == (s.fault.value.n, Some(s.fault.value.reason), s)
  {
    match s.fault
    case None => (|p|, None, s.(written := s.written + p))
    case Some(f) => (f.n, Some(f.reason), s)
  }

  /** What a fan-out of one byte slice returns and leaves behind. */
  datatype WriteResult = WriteResult(n: int, err: Option<string>, sinks: map<WriterId, Sink>, called: seq<WriterId>)

  predicate Healthy(sinks: map<WriterId, Sink>, id: WriterId) {
    id in sinks && sinks[id].fault.None?
  }

  /** `Write(p)` over the registered writers `ws`, with the count a successful
      write should report: len(p). */
  function FanOut(ws: seq<WriterId>, p: seq<bv8>, sinks: map<WriterId, Sink>): (r: WriteResult)
    requires forall i :: 0 <= i < |ws| ==> ws[i] in sinks
    decreases |ws|
    // writers are called in list order, stopping early only on an error
    ensures r.called <= ws && r.sinks.Keys == sinks.Keys
    // on success every writer was called and all of p is reported written
    ensures r.err.None? ==> r.called == ws && r.n == |p|
  {
    if ws == [] then WriteResult(|p|, None, sinks, [])
    else
      var (n, err, s) := SinkWrite(sinks[ws[0]], p);
      var next := sinks[ws[0] := s];
      if err.Some? then WriteResult(n, err, next, [ws[0]])
      else
        var rest := FanOut(ws[1..], p, next);
        WriteResult(rest.n, rest.err, rest.sinks, [ws[0]] + rest.called)
  }

  /** A fan-out touches only the registered writers, and no writer changes how it answers. */
  lemma {:induction false} FanOutFrame(ws: seq<WriterId>, p: seq<bv8>, sinks: map<WriterId, Sink>)
    requires forall i :: 0 <= i < |ws| ==> ws[i] in sinks
    ensures forall id :: id in sinks && id !in ws ==> FanOut(ws, p, sinks).sinks[id] == sinks[id]
    ensures forall id :: id in sinks ==> FanOut(ws, p, sinks).sinks[id].fault == sinks[id].fault
    // a writer the fan-out did not reach, such as one after the failing writer, keeps its buffer
    ensures forall id :: id in sinks && id !in FanOut(ws, p, sinks).called ==> FanOut(ws, p, sinks).sinks[id] == sinks[id]
    decreases |ws|
  {
    if ws != [] {
      var (n, err, s) := SinkWrite(sinks[ws[0]], p);
      if err.None? {
        FanOutFrame(ws[1..], p, sinks[ws[0] := s]);
        assert forall id :: id !in ws ==> id !in ws[1..];
        assert FanOut(ws, p, sinks).called == [ws[0]] + FanOut(ws[1..], p, sinks[ws[0] := s]).called;
      }
    }
  }

  /** A fan-out succeeds exactly when every registered writer accepts. */
  lemma {:induction false} FanOutSucceedsIff(ws: seq<WriterId>, p: seq<bv8>, sinks: map<WriterId, Sink>)
    requires forall i :: 0 <= i < |ws| ==> ws[i] in sinks
    ensures FanOut(ws, p, sinks).err.None? <==> forall i :: 0 <= i < |ws| ==> Healthy(sinks, ws[i])
    decreases |ws|
  {
    if ws != [] {
      var (n, err, s) := SinkWrite(sinks[ws[0]], p);
      if err.None? {
        var next := sinks[ws[0] := s];
        FanOutSucceedsIff(ws[1..], p, next);
        assert forall i :: 0 <= i < |ws| - 1 ==> ws[1..][i] == ws[i + 1];
        assert forall id :: id in next ==> (Healthy(next, id) <==> Healthy(sinks, id));
      }
    }
  }

  /** On an error the last writer called is the first failing one, every writer
      called before it accepted, and its (n, err) is what the fan-out returns. */
  lemma {:induction false} FanOutStopsAtFirstFault(ws: seq<WriterId>, p: seq<bv8>, sinks: map<WriterId, Sink>)
    requires forall i :: 0 <= i < |ws| ==> ws[i] in sinks
    ensures var r := FanOut(ws, p, sinks);
      r.err.Some? ==>
        && |r.called| > 0
        && sinks[r.called[|r.called| - 1]].fault == Some(Fault(r.n, r.err.value))
        && forall i :: 0 <= i < |r.called| - 1 ==> Healthy(sinks, r.called[i])
    decreases |ws|
  {
    if ws != [] {
      var (n, err, s) := SinkWrite(sinks[ws[0]], p);
      if err.None? {
        var next := sinks[ws[0] := s];
        FanOutStopsAtFirstFault(ws[1..], p, next);
        var rest := FanOut(ws[1..], p, next);
        var r := FanOut(ws, p, sinks);
        if r.err.Some? {
          assert r.called == [ws[0]] + rest.called;
          assert forall id :: id in next ==> next[id].fault == sinks[id].fault;
          assert forall i :: 0 < i < |r.called| ==> r.called[i] == rest.called[i - 1];
        }
      }
    }
  }

  /** `Write(p)` exactly as written: on success it returns the named result `n`,
      which the loop never assigns (its `n` is a new variable), so 0. */
  function FanOutAsWritten(ws: seq<WriterId>, p: seq<bv8>, sinks: map<WriterId, Sink>): (r: WriteResult)
    requires forall i :: 0 <= i < |ws| ==> ws[i] in sinks
    ensures r.err.None? ==> r.n == 0
    ensures r.err.Some? ==> r == FanOut(ws, p, sinks)
    ensures r.err == FanOut(ws, p, sinks).err && r.sinks == FanOut(ws, p, sinks).sinks
  {
    var r := FanOut(ws, p, sinks);
    if r.err.None? then r.(n := 0) else r
  }

  /** As written, a write of two bytes to one healthy writer succeeds but reports
      zero bytes written, breaking the `io.Writer` rule that n < len(p) comes with
      an error. */
  lemma AsWrittenReportsZero()
    ensures var r := FanOutAsWritten([0], [1, 2], map[0 := Sink([], None)]);
      r.err.None? && r.n == 0 && r.n < 2
  {
    assert Healthy(map[0 := Sink([], None)], [0][0]);
  }

  /** With the count corrected, a write that reports fewer bytes than len(p) comes
      with an error, as `io.Writer` requires, whatever the writers do. */
  lemma ShortWriteIsError(ws: seq<WriterId>, p: seq<bv8>, sinks: map<WriterId, Sink>)
    requires forall i :: 0 <= i < |ws| ==> ws[i] in sinks
    ensures FanOut(ws, p, sinks).n != |p| ==> FanOut(ws, p, sinks).err.Some?
    ensures FanOutAsWritten(ws, p, sinks).n != FanOut(ws, p, sinks).n ==> FanOut(ws, p, sinks).err.None? && |p| > 0
  {
  }

  predicate NoDuplicates(ws: seq<WriterId>) {
    forall i, j :: 0 <= i < j < |ws| ==> ws[i] != ws[j]
  }

  /** When every registered writer accepts and none is registered twice, each one's
      buffer grows by exactly p. */
  lemma {:induction false} EveryWriterGetsP(ws: seq<WriterId>, p: seq<bv8>, sinks: map<WriterId, Sink>)
    requires forall i :: 0 <= i < |ws| ==> ws[i] in sinks && sinks[ws[i]].fault.None?
    requires NoDuplicates(ws)
    ensures forall id :: id in ws ==> FanOut(ws, p, sinks).sinks[id].written == sinks[id].written + p
    decreases |ws|
  {
    if ws != [] {
      var next := sinks[ws[0] := sinks[ws[0]].(written := sinks[ws[0]].written + p)];
      assert forall i :: 0 <= i < |ws| - 1 ==> ws[1..][i] == ws[i + 1];
      assert forall i :: 0 <= i < |ws[1..]| ==> ws[1..][i] in next && next[ws[1..][i]].fault.None?;
      EveryWriterGetsP(ws[1..], p, next);
      FanOutFrame(ws[1..], p, next);
      assert ws[0] !in ws[1..];
      forall id | id in ws
        ensures FanOut(ws, p, sinks).sinks[id].written == sinks[id].written + p
      {
        if id != ws[0] {
          assert id in ws[1..];
        }
      }
    }
  }

  /** With no writer registered twice, each writer the fan-out called holds what
      it had plus p when it accepts, and just what it had when it fails: an error
      does not undo the writes that went before it. */
  lemma {:induction false} CalledWritersGetP(ws: seq<WriterId>, p: seq<bv8>, sinks: map<WriterId, Sink>)
    requires forall i :: 0 <= i < |ws| ==> ws[i] in sinks
    requires NoDuplicates(ws)
    ensures forall i :: 0 <= i < |FanOut(ws, p, sinks).called| ==>
      var id := FanOut(ws, p, sinks).called[i];
      FanOut(ws, p, sinks).sinks[id].written == sinks[id].written + (if Healthy(sinks, id) then p else [])
    decreases |ws|
  {
    if ws != [] {
      var (n, err, s) := SinkWrite(sinks[ws[0]], p);
      if err.None? {
        var next := sinks[ws[0] := s];
        var rest := FanOut(ws[1..], p, next);
        var r := FanOut(ws, p, sinks);
        assert forall i :: 0 <= i < |ws| - 1 ==> ws[1..][i] == ws[i + 1];
        CalledWritersGetP(ws[1..], p, next);
        FanOutFrame(ws[1..], p, next);
        assert r.called == [ws[0]] + rest.called;
        assert ws[0] !in ws[1..];
        forall i | 0 <= i < |r.called|
          ensures r.sinks[r.called[i]].written == sinks[r.called[i]].written + (if Healthy(sinks, r.called[i]) then p else [])
        {
          var id := r.called[i];
          assert r.sinks == rest.sinks;
          if i == 0 {
            assert id == ws[0] && id !in rest.called;
            assert rest.sinks[id] == s && Healthy(sinks, id);
          } else {
            assert id == rest.called[i - 1] && id in ws[1..];
            assert rest.sinks[id].written == next[id].written + (if Healthy(next, id) then p else []);
            assert next[id] == sinks[id];
          }
        }
      }
    }
  }

  /** A fan-out result seen after the writers `called` were already called. */
  function After(called: seq<WriterId>, r: WriteResult): WriteResult {
    r.(called := called + r.called)
  }

  lemma AfterAfter(a: seq<WriterId>, b: seq<WriterId>, r: WriteResult)
    ensures After(a, After(b, r)) == After(a + b, r)
  {
    assert a + (b + r.called) == (a + b) + r.called;
  }

  /** One step of the fan-out: the first writer, then the rest. */
  lemma FanOutStep(ws: seq<WriterId>, p: seq<bv8>, sinks: map<WriterId, Sink>)
    requires ws != [] && forall i :: 0 <= i < |ws| ==> ws[i] in sinks
    ensures var (n, err, s) := SinkWrite(sinks[ws[0]], p);
      FanOut(ws, p, sinks) ==
        if err.Some? then WriteResult(n, err, sinks[ws[0] := s], [ws[0]])
        else After([ws[0]], FanOut(ws[1..], p, sinks[ws[0] := s]))
  {
  }

  /** `Register(w)`'s new list: unchanged when w is present, w appended otherwise. */
  function Registered(ws: seq<WriterId>, w: WriterId): (r: seq<WriterId>)
    // w is registered afterwards, the earlier writers keep their places, and
    // nothing but w is added, and only when it was absent
    ensures ws <= r && w in r
    ensures forall x :: x in r ==> x in ws || x == w
    ensures w in ws <==> r == ws
  {
    if w in ws then ws else ws + [w]
  }

  /** `Unregister(w)`'s new list: the first occurrence of w spliced out. */
  function Unregistered(ws: seq<WriterId>, w: WriterId): (r: seq<WriterId>)
    ensures |r| == if w in ws then |ws| - 1 else |ws|
    ensures forall i :: 0 <= i < |r| ==> r[i] in ws
  {
    if ws == [] then []
    else if ws[0] == w then ws[1..]
    else [ws[0]] + Unregistered(ws[1..], w)
  }

  /** Registering twice is registering once, and a list without duplicates keeps
      none: the writer ends up present exactly once. */
  lemma RegisterIdempotent(ws: seq<WriterId>, w: WriterId)
    ensures Registered(Registered(ws, w), w) == Registered(ws, w)
    ensures w in Registered(ws, w) && ws <= Registered(ws, w)
    ensures NoDuplicates(ws) ==> NoDuplicates(Registered(ws, w))
  {
  }

  /** Unregistering splices out the first occurrence at index i and keeps the
      order of everything else; an absent writer leaves the list unchanged. */
  lemma {:induction false} UnregisterSplices(ws: seq<WriterId>, w: WriterId, i: nat)
    requires i <= |ws| && w !in ws[..i]
    ensures i < |ws| && ws[i] == w ==> Unregistered(ws, w) == ws[..i] + ws[i + 1..]
    ensures i == |ws| ==> Unregistered(ws, w) == ws
    decreases i
  {
    if i > 0 {
      assert ws[0] != w && ws[1..][..i - 1] == ws[1..i];
      UnregisterSplices(ws[1..], w, i - 1);
      if i < |ws| {
        assert ws[..i] == [ws[0]] + ws[1..i];
        assert ws[1..][i..] == ws[i + 1..];
      } else {
        assert ws == [ws[0]] + ws[1..];
      }
    } else if i < |ws| {
      assert ws[..0] + ws[1..] == ws[1..];
    }
  }

  /** Unregistering removes one copy of w and nothing else. */
  lemma {:induction false} UnregisterRemovesOne(ws: seq<WriterId>, w: WriterId)
    ensures multiset(Unregistered(ws, w)) == multiset(ws) - multiset{w}
    decreases |ws|
  {
    if ws != [] {
      assert ws == [ws[0]] + ws[1..];
      UnregisterRemovesOne(ws[1..], w);
    }
  }

  /** On a list without duplicates, w is gone after unregistering it, and no
      duplicate appears. */
  lemma {:induction false} UnregisterKeepsNoDuplicates(ws: seq<WriterId>, w: WriterId)
    requires NoDuplicates(ws)
    ensures w !in Unregistered(ws, w) && NoDuplicates(Unregistered(ws, w))
    decreases |ws|
  {
    if ws != [] {
      assert NoDuplicates(ws[1..]) by {
        forall i, j | 0 <= i < j < |ws[1..]| ensures ws[1..][i] != ws[1..][j] {
          assert ws[1..][i] == ws[i + 1] && ws[1..][j] == ws[j + 1];
        }
      }
      assert ws[0] !in ws[1..];
      if ws[0] != w {
        UnregisterKeepsNoDuplicates(ws[1..], w);
        var rest := Unregistered(ws[1..], w);
        assert ws[0] !in rest;
        assert Unregistered(ws, w) == [ws[0]] + rest;
      }
    }
  }

  /** Unregistering a writer that was just registered gives the list back. */
  lemma {:induction false} UnregisterUndoesRegister(ws: seq<WriterId>, w: WriterId)
    requires w !in ws
    ensures Unregistered(Registered(ws, w), w) == ws
    decreases |ws|
  {
    var r := ws + [w];
    assert Registered(ws, w) == r;
    if ws == [] {
      assert r[1..] == [];
    } else {
      assert ws[0] != w && r[1..] == ws[1..] + [w] == Registered(ws[1..], w);
      UnregisterUndoesRegister(ws[1..], w);
      assert ws == [ws[0]] + ws[1..];
    }
  }

  /** After `Unregister(w)` on a list without duplicates, writes leave w's buffer
      untouched. */
  lemma UnregisteredIsSilent(ws: seq<WriterId>, w: WriterId, p: seq<bv8>, sinks: map<WriterId, Sink>)
    requires forall i :: 0 <= i < |ws| ==> ws[i] in sinks
    requires NoDuplicates(ws) && w in sinks
    ensures forall i :: 0 <= i < |Unregistered(ws, w)| ==> Unregistered(ws, w)[i] in sinks
    ensures FanOut(Unregistered(ws, w), p, sinks).sinks[w] == sinks[w]
  {
    UnregisterKeepsNoDuplicates(ws, w);
    FanOutFrame(Unregistered(ws, w), p, sinks);
  }

  /** The registered writers, behind `Register`, `Unregister` and `Write`. */
  class MultiWriter {
    var writers: seq<WriterId>

    /** `NewMultiWriter(ws...)`: exactly ws, in order, duplicates kept. */
    constructor(ws: seq<WriterId>)
      ensures writers == ws
    {
      writers := ws;
    }

    method Register(w: WriterId)
      modifies this
      ensures writers == Registered(old(writers), w)
    {
      var i := 0;
      while i < |writers|
        invariant i <= |writers| && w !in writers[..i]
      {
        if writers[i] == w {
          return;
        }
        i := i + 1;
      }
      assert writers[..i] == writers;
      writers := writers + [w];
    }

    method Unregister(w: WriterId)
      modifies this
      ensures writers == Unregistered(old(writers), w)
    {
      var i := 0;
      while i < |writers|
        invariant i <= |writers| && w !in writers[..i]
        invariant writers == old(writers)
      {
        if writers[i] == w {
          UnregisterSplices(writers, w, i);
          writers := writers[..i] + writers[i + 1..];
          return;
        }
        i := i + 1;
      }
      UnregisterSplices(writers, w, i);
    }

    /** `Write(p)`, with the success count corrected to len(p). */
    method Write(p: seq<bv8>, sinks: map<WriterId, Sink>) returns (r: WriteResult)
      requires forall i :: 0 <= i < |writers| ==> writers[i] in sinks
      ensures r == FanOut(writers, p, sinks)
    {
      var cur := sinks;
      var called: seq<WriterId> := [];
      var todo := writers;
      while todo != []
        invariant forall j :: 0 <= j < |todo| ==> todo[j] in cur
        invariant FanOut(writers, p, sinks) == After(called, FanOut(todo, p, cur))
        decreases |todo|
      {
        var w := todo[0];
        var (n, err, s) := SinkWrite(cur[w], p);
        FanOutStep(todo, p, cur);
        AfterAfter(called, [w], FanOut(todo[1..], p, cur[w := s]));
        cur := cur[w := s];
        called := called + [w];
        if err.Some? {
          return WriteResult(n, err, cur, called);
        }
        todo := todo[1..];
      }
      return WriteResult(|p|, None, cur, called);
    }
  }
}
