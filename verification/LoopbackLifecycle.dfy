/** loopback.c: what `loopback_wait_for_code` acquires, and that it gives all of it back in reverse order. */
module LoopbackLifecycle {

  datatype Resource = Mutex | CondVar | Platform | Server | RunTask

  datatype Event = Acquired(r: Resource) | Released(r: Resource)

  /** The order of acquisition. */
  const ORDER: seq<Resource> := [Mutex, CondVar, Platform, Server, RunTask]

  function Acquisitions(n: nat): seq<Event>
    requires n <= |ORDER|
  {
    seq(n, i requires 0 <= i < n => Acquired(ORDER[i]))
  }

  /** The last `n` held resources given back, the most recent first. */
  function Releases(n: nat): seq<Event>
    requires n <= |ORDER|
  {
    if n == 0 then [] else [Released(ORDER[n - 1])] + Releases(n - 1)
  }

  /** What is held after a log of events, if every release gives back the resource acquired last. */
  function Held(log: seq<Event>, held: seq<Resource>): (r: (bool, seq<Resource>))
    decreases |log|
  {
    if log == [] then (true, held)
    else match log[0]
      case Acquired(r) => if r in held then (false, held) else Held(log[1..], held + [r])
      case Released(r) =>
        if held != [] && held[|held| - 1] == r then Held(log[1..], held[..|held| - 1]) else (false, held)
  }

  lemma {:induction false} HeldConcat(a: seq<Event>, b: seq<Event>, held: seq<Resource>)
    ensures Held(a + b, held) == if Held(a, held).0 then Held(b, Held(a, held).1) else Held(a, held)
    decreases |a|
  {
    if a == [] {
      assert a + b == b;
    } else {
      assert (a + b)[1..] == a[1..] + b;
      match a[0]
      case Acquired(r) =>
        if r !in held {
          HeldConcat(a[1..], b, held + [r]);
        }
      case Released(r) =>
        if held != [] && held[|held| - 1] == r {
          HeldConcat(a[1..], b, held[..|held| - 1]);
        }
    }
  }

  lemma {:induction false} AcquiringHolds(n: nat)
    requires n <= |ORDER|
    ensures Held(Acquisitions(n), []) == (true, ORDER[..n])
  {
    if n > 0 {
      AcquiringHolds(n - 1);
      assert Acquisitions(n) == Acquisitions(n - 1) + [Acquired(ORDER[n - 1])];
      HeldConcat(Acquisitions(n - 1), [Acquired(ORDER[n - 1])], []);
      assert ORDER[..n] == ORDER[..n - 1] + [ORDER[n - 1]];
    }
  }

  lemma {:induction false} ReleasingFrees(n: nat)
    requires n <= |ORDER|
    ensures Held(Releases(n), ORDER[..n]) == (true, [])
  {
    if n > 0 {
      ReleasingFrees(n - 1);
      assert ORDER[..n][..n - 1] == ORDER[..n - 1];
      assert Releases(n)[1..] == Releases(n - 1);
    }
  }

  /** However many acquisitions succeed, acquiring and then releasing them nests properly and leaves nothing held. */
  lemma NestedAndBalanced(n: nat)
    requires n <= |ORDER|
    ensures Held(Acquisitions(n) + Releases(n), []) == (true, [])
  {
    AcquiringHolds(n);
    ReleasingFrees(n);
    HeldConcat(Acquisitions(n), Releases(n), []);
  }

  /** Which of the six fallible set-up steps succeed. */
  datatype Setup = Setup(mutex: bool, cond: bool, platform: bool, server: bool, route: bool, task: bool)

  /** How many resources are acquired before the first failing step; adding the route acquires none. */
  function Acquirable(s: Setup): nat {
    if !s.mutex then 0
    else if !s.cond then 1
    else if !s.platform then 2
    else if !s.server then 3
    else if !s.route then 4
    else if !s.task then 4
    else 5
  }

  /** Each resource is acquired exactly when its own step and every step before it succeeds. */
  lemma WhatIsAcquired(s: Setup)
    ensures var log := Acquisitions(Acquirable(s));
            && (Acquired(Mutex) in log <==> s.mutex)
            && (Acquired(CondVar) in log <==> s.mutex && s.cond)
            && (Acquired(Platform) in log <==> s.mutex && s.cond && s.platform)
            && (Acquired(Server) in log <==> s.mutex && s.cond && s.platform && s.server)
            && (Acquired(RunTask) in log <==>
                  s.mutex && s.cond && s.platform && s.server && s.route && s.task)
  {
    var n := Acquirable(s);
    var log := Acquisitions(n);
    assert forall i :: 0 <= i < n ==> log[i] == Acquired(ORDER[i]);
    assert ORDER == [Mutex, CondVar, Platform, Server, RunTask];
    assert n > 0 ==> log[0] == Acquired(Mutex);
    assert n > 1 ==> log[1] == Acquired(CondVar);
    assert n > 2 ==> log[2] == Acquired(Platform);
    assert n > 3 ==> log[3] == Acquired(Server);
    assert n > 4 ==> log[4] == Acquired(RunTask);
  }

  // The possible logs, spelled out.

  lemma SyncLogs()
    ensures Acquisitions(0) + Releases(0) == []
    ensures Acquisitions(1) + Releases(1)
         == [Acquired(Mutex),
             Released(Mutex)]
    ensures Acquisitions(2) + Releases(2)
         == [Acquired(Mutex), Acquired(CondVar),
             Released(CondVar), Released(Mutex)]
  {
    assert Releases(2) == [Released(CondVar)] + Releases(1);
  }

  lemma ServerLogs()
    ensures Acquisitions(3) + Releases(3)
         == [Acquired(Mutex), Acquired(CondVar), Acquired(Platform),
             Released(Platform), Released(CondVar), Released(Mutex)]
    ensures Acquisitions(4) + Releases(4)
         == [Acquired(Mutex), Acquired(CondVar), Acquired(Platform), Acquired(Server),
             Released(Server), Released(Platform), Released(CondVar), Released(Mutex)]
  {
    assert Releases(2) == [Released(CondVar)] + Releases(1);
    assert Releases(3) == [Released(Platform)] + Releases(2);
    assert Releases(4) == [Released(Server)] + Releases(3);
  }

  lemma FullLog()
    ensures Acquisitions(5)
         == [Acquired(Mutex), Acquired(CondVar), Acquired(Platform), Acquired(Server), Acquired(RunTask)]
    ensures Releases(5)
         == [Released(RunTask), Released(Server), Released(Platform), Released(CondVar), Released(Mutex)]
  {
    assert Releases(2) == [Released(CondVar)] + Releases(1);
    assert Releases(3) == [Released(Platform)] + Releases(2);
    assert Releases(4) == [Released(Server)] + Releases(3);
    assert Releases(5) == [Released(RunTask)] + Releases(4);
  }

  class Ledger {
    var log: seq<Event>

    constructor ()
      ensures log == []
    {
      log := [];
    }

    method Acquire(r: Resource, succeeds: bool) returns (ok: bool)
      modifies this
      ensures ok == succeeds && log == old(log) + (if ok then [Acquired(r)] else [])
    {
      ok := succeeds;
      if ok {
        log := log + [Acquired(r)];
      }
    }

    method Release(r: Resource)
      modifies this
      ensures log == old(log) + [Released(r)]
    {
      log := log + [Released(r)];
    }
  }

  /** Mutex, condition variable and task platform, each failure undoing what came before. */
  method PrepareSync(ledger: Ledger, setup: Setup) returns (ok: bool)
    requires ledger.log == []
    modifies ledger
    ensures ok <==> Acquirable(setup) >= 3
    ensures ok ==> ledger.log == [Acquired(Mutex), Acquired(CondVar), Acquired(Platform)]
    ensures !ok ==> ledger.log == Acquisitions(Acquirable(setup)) + Releases(Acquirable(setup))
  {
    SyncLogs();
    ok := ledger.Acquire(Mutex, setup.mutex);
    if !ok {
      return;
    }
    ok := ledger.Acquire(CondVar, setup.cond);
    if !ok {
      ledger.Release(Mutex);
      return;
    }
    ok := ledger.Acquire(Platform, setup.platform);
    if !ok {
      ledger.Release(CondVar);
      ledger.Release(Mutex);
      return;
    }
  }

  /** Server, route and run task, each failure undoing everything. */
  method StartServer(ledger: Ledger, setup: Setup) returns (ok: bool)
    requires ledger.log == [Acquired(Mutex), Acquired(CondVar), Acquired(Platform)]
    requires Acquirable(setup) >= 3
    modifies ledger
    ensures ok <==> Acquirable(setup) == 5
    ensures ok ==> ledger.log == Acquisitions(5)
    ensures !ok ==> ledger.log == Acquisitions(Acquirable(setup)) + Releases(Acquirable(setup))
  {
    ServerLogs();
    FullLog();
    ok := ledger.Acquire(Server, setup.server);
    if !ok {
      ledger.Release(Platform);
      ledger.Release(CondVar);
      ledger.Release(Mutex);
      return;
    }
    if setup.route {
      ok := ledger.Acquire(RunTask, setup.task);
    }
    if !setup.route || !ok {
      ledger.Release(Server);
      ledger.Release(Platform);
      ledger.Release(CondVar);
      ledger.Release(Mutex);
      return false;
    }
  }

  /** `loopback_wait_for_code`, reduced to its resources; `captured` is what the capture protocol delivered. */
  method WaitForCode(ledger: Ledger, hasBuffer: bool, setup: Setup, captured: bool) returns (gotCode: bool)
    requires ledger.log == []
    modifies ledger
    ensures var n := if hasBuffer then Acquirable(setup) else 0;
            && ledger.log == Acquisitions(n) + Releases(n)
            && (gotCode <==> n == 5 && captured)
    ensures gotCode <==>
              && hasBuffer && setup.mutex && setup.cond && setup.platform && setup.server && setup.route && setup.task
              && captured
    ensures gotCode ==>
              ledger.log == [Acquired(Mutex), Acquired(CondVar), Acquired(Platform), Acquired(Server)]
                            + [Acquired(RunTask), Released(RunTask)]
                            + [Released(Server), Released(Platform), Released(CondVar), Released(Mutex)]
  {
    gotCode := false;
    if !hasBuffer {
      return;
    }
    var ok := PrepareSync(ledger, setup);
    if !ok {
      return;
    }
    ok := StartServer(ledger, setup);
    if !ok {
      return;
    }
    gotCode := captured;
    ledger.Release(RunTask);
    ledger.Release(Server);
    ledger.Release(Platform);
    ledger.Release(CondVar);
    ledger.Release(Mutex);
    FullLog();
  }
}
