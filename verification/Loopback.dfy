/**
  loopback.c: the one-shot capture of an authorization code. Any number of server callbacks and one waiter share a
  record guarded by a mutex and a condition variable; every statement that touches it is one atomic step here.
 */
module Loopback {
  import opened Basics

  const CODE_MAX := 1024

  /** Where a callback invocation stands; between Check and Unlock it holds the mutex. */
  datatype CallbackPc =
    | Entry | Check | CopyCode | SetLength | SetNul | SetSuccess | SetReceived | Broadcast | Unlock | Finished

  /** One invocation of the handler, with the `code` query parameter it found ("" when absent). */
  datatype Callback = Callback(code: string, pc: CallbackPc)

  datatype WaiterPc =
    | Start | Test | Blocked | Woken(timeout: bool) | CopyOut | CopyNul | Release
    | StopServer | JoinServer | DestroyMutex | Returned

  datatype Owner = Nobody | Waiter | Handler(i: nat)

  /** The fields of `loopback_ctx` that the mutex guards. */
  datatype Record = Record(received: bool, success: bool, code: string, codeLen: nat)

  /** The waiter's locals and its caller's buffer. */
  datatype WaiterState = WaiterState(pc: WaiterPc, timedOut: bool, out: string, gotCode: bool)

  /** `first` remembers the callback that found nothing received. */
  datatype Sys = Sys(owner: Owner, rec: Record, cbs: seq<Callback>, w: WaiterState,
                     serverLive: bool, mutexAlive: bool, first: Option<nat>)

  predicate Usable(code: string) {
    0 < |code| < CODE_MAX
  }

  /** Just after the server task was started; the record was zeroed. */
  predicate Init(s: Sys) {
    && s.owner == Nobody && !s.rec.received && !s.rec.success && |s.rec.code| == CODE_MAX && s.rec.codeLen == 0
    && s.cbs == [] && |s.w.out| > 0 && s.w == WaiterState(Start, false, s.w.out, false)
    && s.serverLive && s.mutexAlive && s.first == None
  }

  datatype Action = Spawn(code: string) | CallbackStep(i: nat) | WaiterStep | SpuriousWakeup | Timeout

  predicate AllFinished(cbs: seq<Callback>) {
    forall i :: 0 <= i < |cbs| ==> cbs[i].pc == Finished
  }

  predicate CallbackEnabled(s: Sys, i: nat) {
    i < |s.cbs| && s.cbs[i].pc != Finished && (s.cbs[i].pc == Entry ==> s.owner == Nobody)
  }

  predicate WaiterEnabled(s: Sys) {
    match s.w.pc
    case Start => s.owner == Nobody
    case Woken(_) => s.owner == Nobody
    case Blocked => false
    case JoinServer => AllFinished(s.cbs)
    case Returned => false
    case _ => true
  }

  predicate Enabled(s: Sys, a: Action) {
    match a
    case Spawn(_) => s.serverLive
    case CallbackStep(i) => CallbackEnabled(s, i)
    case WaiterStep => WaiterEnabled(s)
    case SpuriousWakeup => s.w.pc == Blocked
    case Timeout => s.w.pc == Blocked
  }

  /** A buffer with `text` copied to its start. */
  function CopiedTo(buffer: string, text: string): string {
    if |text| <= |buffer| then text + buffer[|text|..] else buffer
  }

  function Stored(buffer: string, i: nat, c: char): string {
    if i < |buffer| then buffer[i := c] else buffer
  }

  // ---- A callback step, part by part ----

  function PcNext(pc: CallbackPc, received: bool, c: string): CallbackPc {
    match pc
    case Entry => Check
    case Check => if received then Unlock else if Usable(c) then CopyCode else SetReceived
    case CopyCode => SetLength
    case SetLength => SetNul
    case SetNul => SetSuccess
    case SetSuccess => SetReceived
    case SetReceived => Broadcast
    case Broadcast => Unlock
    case _ => Finished
  }

  function RecordNext(r: Record, pc: CallbackPc, c: string): Record {
    match pc
    case CopyCode => r.(code := CopiedTo(r.code, c))
    case SetLength => r.(codeLen := |c|)
    case SetNul => r.(code := Stored(r.code, |c|, NUL))
    case SetSuccess => r.(success := true)
    case SetReceived => r.(received := true)
    case _ => r
  }

  function OwnerNext(owner: Owner, pc: CallbackPc, i: nat): Owner {
    if pc == Entry then Handler(i) else if pc == Unlock then Nobody else owner
  }

  function CallbackNext(s: Sys, i: nat): Sys
    requires i < |s.cbs|
  {
    var cb := s.cbs[i];
    Sys(OwnerNext(s.owner, cb.pc, i),
        RecordNext(s.rec, cb.pc, cb.code),
        s.cbs[i := Callback(cb.code, PcNext(cb.pc, s.rec.received, cb.code))],
        if cb.pc == Broadcast && s.w.pc == Blocked then s.w.(pc := Woken(false)) else s.w,
        s.serverLive, s.mutexAlive,
        if cb.pc == Check && !s.rec.received then Some(i) else s.first)
  }

  // ---- A waiter step, part by part ----

  function LocalsNext(w: WaiterState, r: Record): WaiterState {
    match w.pc
    case Start => w.(pc := Test)
    case Test => w.(pc := if !r.received && !w.timedOut then Blocked else CopyOut)
    case Woken(t) => w.(pc := Test, timedOut := w.timedOut || t)
    case CopyOut =>
      if r.received && r.success && 0 < r.codeLen < |w.out| && r.codeLen <= |r.code|
      then w.(pc := CopyNul, out := CopiedTo(w.out, r.code[..r.codeLen]))
      else w.(pc := Release)
    case CopyNul => w.(pc := Release, gotCode := true, out := Stored(w.out, r.codeLen, NUL))
    case Release => w.(pc := StopServer)
    case StopServer => w.(pc := JoinServer)
    case JoinServer => w.(pc := DestroyMutex)
    case DestroyMutex => w.(pc := Returned)
    case _ => w
  }

  predicate WaiterHolds(pc: WaiterPc) { pc == Test || pc == CopyOut || pc == CopyNul || pc == Release }

  function WaiterNext(s: Sys): Sys {
    var w := LocalsNext(s.w, s.rec);
    Sys(if WaiterHolds(w.pc) then Waiter else if WaiterHolds(s.w.pc) then Nobody else s.owner,
        s.rec, s.cbs, w,
        s.serverLive && s.w.pc != JoinServer,
        s.mutexAlive && s.w.pc != DestroyMutex,
        s.first)
  }

  function Next(s: Sys, a: Action): Sys
    requires Enabled(s, a)
  {
    match a
    case Spawn(c) => s.(cbs := s.cbs + [Callback(c, Entry)])
    case CallbackStep(i) => CallbackNext(s, i)
    case WaiterStep => WaiterNext(s)
    case SpuriousWakeup => s.(w := s.w.(pc := Woken(false)))
    case Timeout => s.(w := s.w.(pc := Woken(true)))
  }

  // ---- The invariant ----

  predicate Sized(s: Sys) {
    |s.rec.code| == CODE_MAX && s.rec.codeLen < CODE_MAX && |s.w.out| > 0
  }

  predicate Holds(pc: CallbackPc) { pc != Entry && pc != Finished }

  predicate Announced(pc: CallbackPc) { pc == Broadcast || pc == Unlock || pc == Finished }

  ghost predicate MutualExclusion(s: Sys) {
    && (s.owner == Waiter <==> WaiterHolds(s.w.pc))
    && (s.owner.Handler? ==> s.owner.i < |s.cbs|)
    && (forall i :: 0 <= i < |s.cbs| ==> (Holds(s.cbs[i].pc) <==> s.owner == Handler(i)))
  }

  /** Nothing has been captured. */
  predicate Empty(r: Record) { !r.success && r.codeLen == 0 }

  predicate Starts(r: Record, c: string) { |c| < |r.code| && r.code[..|c|] == c }

  /** The record holds exactly the code `c`, terminated. */
  predicate Holding(r: Record, c: string) {
    r.success && r.codeLen == |c| && Starts(r, c) && r.code[|c|] == NUL
  }

  /** How far the first callback has got with filling in the record. */
  predicate Progress(r: Record, c: string, pc: CallbackPc) {
    match pc
    case Entry => false
    case Check => false
    case CopyCode => Usable(c) && Empty(r)
    case SetLength => Usable(c) && Empty(r) && Starts(r, c)
    case SetNul => Usable(c) && !r.success && r.codeLen == |c| && Starts(r, c)
    case SetSuccess => Usable(c) && !r.success && r.codeLen == |c| && Starts(r, c) && r.code[|c|] == NUL
    case _ => if Usable(c) then Holding(r, c) else Empty(r)
  }

  /** A callback that is not the first one. */
  predicate Later(pc: CallbackPc, received: bool) {
    pc == Entry || pc == Check || (received && (pc == Unlock || pc == Finished))
  }

  ghost predicate CaptureOnce(s: Sys) {
    match s.first
    case None =>
      !s.rec.received && Empty(s.rec) && forall i :: 0 <= i < |s.cbs| ==> Later(s.cbs[i].pc, false)
    case Some(f) =>
      && f < |s.cbs|
      && Progress(s.rec, s.cbs[f].code, s.cbs[f].pc)
      && (s.rec.received <==> Announced(s.cbs[f].pc))
      && (forall i :: 0 <= i < |s.cbs| && i != f ==> Later(s.cbs[i].pc, s.rec.received))
  }

  /** A blocked waiter is never left asleep with something received: the wakeup is still to come. */
  ghost predicate NoLostWakeup(s: Sys) {
    s.w.pc == Blocked && s.rec.received ==>
      s.first.Some? && s.first.value < |s.cbs| && s.cbs[s.first.value].pc == Broadcast
  }

  /** The waiter has left its waiting loop. */
  predicate Left(pc: WaiterPc) {
    pc != Start && pc != Test && pc != Blocked && !pc.Woken?
  }

  predicate Decided(pc: WaiterPc) { Left(pc) && pc != CopyOut && pc != CopyNul }

  /** What the waiter has delivered so far. */
  ghost predicate Delivered(w: WaiterState, r: Record) {
    && (Left(w.pc) ==> r.received || w.timedOut)
    && (w.pc == CopyNul ==>
          && r.received && r.success && 0 < r.codeLen < |w.out| && r.codeLen <= |r.code|
          && w.out[..r.codeLen] == r.code[..r.codeLen])
    && (!Decided(w.pc) ==> !w.gotCode)
    && (w.gotCode ==>
          && r.received && r.success && 0 < r.codeLen < |w.out| && r.codeLen <= |r.code|
          && w.out[..r.codeLen + 1] == r.code[..r.codeLen] + [NUL])
  }

  ghost predicate Teardown(s: Sys) {
    && (s.serverLive <==> s.w.pc != DestroyMutex && s.w.pc != Returned)
    && (s.mutexAlive <==> s.w.pc != Returned)
    && (!s.serverLive ==> AllFinished(s.cbs))
  }

  ghost predicate Inv(s: Sys) {
    && Sized(s) && MutualExclusion(s) && CaptureOnce(s) && NoLostWakeup(s) && Delivered(s.w, s.rec) && Teardown(s)
  }

  lemma InitInv(s: Sys)
    requires Init(s)
    ensures Inv(s)
  {}

  // ---- Every step keeps it ----

  lemma CallbackKeepsMutex(s: Sys, i: nat)
    requires MutualExclusion(s) && CallbackEnabled(s, i)
    ensures MutualExclusion(CallbackNext(s, i))
  {
    var t := CallbackNext(s, i);
    assert Holds(t.cbs[i].pc) <==> s.cbs[i].pc != Unlock;
  }

  /** The first callback's own steps fill the record in order and announce it last. */
  lemma FirstProgresses(r: Record, c: string, pc: CallbackPc)
    requires |r.code| == CODE_MAX && Progress(r, c, pc) && pc != Finished && (r.received <==> Announced(pc))
    ensures var t, next := RecordNext(r, pc, c), PcNext(pc, r.received, c);
            && |t.code| == CODE_MAX && Progress(t, c, next) && (t.received <==> Announced(next))
            && (r.received ==> t == r)
  {
    var t := RecordNext(r, pc, c);
    match pc
    case CopyCode => assert t.code[..|c|] == c;
    case SetNul => assert t.code[..|c|] == r.code[..|c|];
    case _ =>
  }

  /** Mutual exclusion keeps every other callback away from the record until it is announced. */
  lemma OthersLeaveRecord(s: Sys, i: nat)
    requires MutualExclusion(s) && CaptureOnce(s) && CallbackEnabled(s, i) && s.first != Some(i)
    ensures CallbackNext(s, i).rec == s.rec
    ensures s.cbs[i].pc == Check && !s.rec.received ==> s.first == None
    ensures s.cbs[i].pc != Check || s.rec.received ==> Later(CallbackNext(s, i).cbs[i].pc, s.rec.received)
  {
    if s.first.Some? {
      var f := s.first.value;
      assert Holds(s.cbs[f].pc) <==> s.owner == Handler(f);
      assert Holds(s.cbs[i].pc) <==> s.owner == Handler(i);
      assert Later(s.cbs[i].pc, s.rec.received);
    } else {
      assert Later(s.cbs[i].pc, false);
    }
  }

  lemma CallbackKeepsCapture(s: Sys, i: nat)
    requires Sized(s) && MutualExclusion(s) && CaptureOnce(s) && CallbackEnabled(s, i)
    ensures Sized(CallbackNext(s, i)) && CaptureOnce(CallbackNext(s, i))
    ensures s.rec.received ==> CallbackNext(s, i).rec == s.rec
  {
    if s.first == Some(i) {
      FirstProgresses(s.rec, s.cbs[i].code, s.cbs[i].pc);
    } else {
      OthersLeaveRecord(s, i);
    }
  }

  lemma CallbackKeepsWakeup(s: Sys, i: nat)
    requires MutualExclusion(s) && CaptureOnce(s) && NoLostWakeup(s) && CallbackEnabled(s, i)
    ensures NoLostWakeup(CallbackNext(s, i))
  {
    if s.first != Some(i) {
      OthersLeaveRecord(s, i);
    }
  }

  lemma CallbackKeepsDelivered(s: Sys, i: nat)
    requires Sized(s) && MutualExclusion(s) && CaptureOnce(s) && Delivered(s.w, s.rec) && CallbackEnabled(s, i)
    ensures Delivered(CallbackNext(s, i).w, CallbackNext(s, i).rec)
  {
    CallbackKeepsCapture(s, i);
    assert Holds(s.cbs[i].pc) <==> s.owner == Handler(i);
    assert !WaiterHolds(s.w.pc);
  }

  lemma WaiterKeepsMutex(s: Sys)
    requires MutualExclusion(s) && WaiterEnabled(s)
    ensures MutualExclusion(WaiterNext(s))
  {
    var t := WaiterNext(s);
    assert s.owner == Nobody || s.owner == t.owner || s.owner == Waiter;
  }

  lemma WaiterKeepsDelivered(w: WaiterState, r: Record)
    requires |r.code| == CODE_MAX && r.codeLen < CODE_MAX && |w.out| > 0 && Delivered(w, r)
    ensures |LocalsNext(w, r).out| > 0 && Delivered(LocalsNext(w, r), r)
  {}

  lemma CallbackKeepsInv(s: Sys, i: nat)
    requires Inv(s) && CallbackEnabled(s, i)
    ensures Inv(CallbackNext(s, i))
  {
    CallbackKeepsMutex(s, i);
    CallbackKeepsCapture(s, i);
    CallbackKeepsWakeup(s, i);
    CallbackKeepsDelivered(s, i);
  }

  lemma WaiterKeepsInv(s: Sys)
    requires Inv(s) && WaiterEnabled(s)
    ensures Inv(WaiterNext(s))
  {
    WaiterKeepsMutex(s);
    WaiterKeepsDelivered(s.w, s.rec);
  }

  lemma StepKeepsInv(s: Sys, a: Action)
    requires Inv(s) && Enabled(s, a)
    ensures Inv(Next(s, a))
  {
    match a
    case CallbackStep(i) => CallbackKeepsInv(s, i);
    case WaiterStep => WaiterKeepsInv(s);
    case _ =>
  }

  // ---- Whole runs ----

  /** The state after the actions in order, or None as soon as one is not enabled. */
  function Run(s: Sys, acts: seq<Action>): Option<Sys>
    decreases |acts|
  {
    if acts == [] then Some(s)
    else if !Enabled(s, acts[0]) then None
    else Run(Next(s, acts[0]), acts[1..])
  }

  lemma {:induction false} RunKeepsInv(s: Sys, acts: seq<Action>)
    requires Inv(s) && Run(s, acts).Some?
    ensures Inv(Run(s, acts).value)
    decreases |acts|
  {
    if acts != [] {
      StepKeepsInv(s, acts[0]);
      RunKeepsInv(Next(s, acts[0]), acts[1..]);
    }
  }

  /** Only the first callback ever writes the record, only while it holds the mutex and before announcing it. */
  lemma RecordChangesUnderMutex(s: Sys, a: Action)
    requires Inv(s) && Enabled(s, a) && Next(s, a).rec != s.rec
    ensures a.CallbackStep? && s.owner == Handler(a.i) && s.first == Some(a.i) && !s.rec.received
  {
    if a.CallbackStep? {
      CallbackKeepsCapture(s, a.i);
      if s.first != Some(a.i) {
        OthersLeaveRecord(s, a.i);
      }
      assert Holds(s.cbs[a.i].pc) <==> s.owner == Handler(a.i);
    }
  }

  /** One-shot: in the rest of every run a received record, and who filled it, stay as they are. */
  lemma {:induction false} ReceivedOnce(s: Sys, acts: seq<Action>)
    requires Inv(s) && s.rec.received && Run(s, acts).Some?
    ensures Run(s, acts).value.rec == s.rec && Run(s, acts).value.first == s.first
    decreases |acts|
  {
    if acts != [] {
      var t := Next(s, acts[0]);
      StepKeepsInv(s, acts[0]);
      if t.rec != s.rec {
        RecordChangesUnderMutex(s, acts[0]);
      }
      ReceivedOnce(t, acts[1..]);
    }
  }

  lemma {:induction false} RunConcat(s: Sys, a: seq<Action>, b: seq<Action>)
    requires Run(s, a).Some?
    ensures Run(s, a + b) == Run(Run(s, a).value, b)
    decreases |a|
  {
    if a == [] {
      assert a + b == b;
    } else {
      assert (a + b)[1..] == a[1..] + b;
      RunConcat(Next(s, a[0]), a[1..], b);
    }
  }

  // ---- What a run's actions alone say ----

  /** The codes that callbacks arrived with, in the order of arrival. */
  function Codes(acts: seq<Action>): seq<string> {
    if acts == [] then []
    else (if acts[0].Spawn? then [acts[0].code] else []) + Codes(acts[1..])
  }

  /** The callback that was the first to make a step. */
  function FirstCaller(acts: seq<Action>): Option<nat> {
    if acts == [] then None
    else if acts[0].CallbackStep? then Some(acts[0].i)
    else FirstCaller(acts[1..])
  }

  function CodesOf(cbs: seq<Callback>): seq<string> {
    seq(|cbs|, i requires 0 <= i < |cbs| => cbs[i].code)
  }

  /** Callback number i carries the i-th code that arrived. */
  lemma {:induction false} CodesArrive(s: Sys, acts: seq<Action>)
    requires Run(s, acts).Some?
    ensures CodesOf(Run(s, acts).value.cbs) == CodesOf(s.cbs) + Codes(acts)
    decreases |acts|
  {
    if acts != [] {
      var t := Next(s, acts[0]);
      CodesArrive(t, acts[1..]);
      if acts[0].Spawn? {
        assert CodesOf(t.cbs) == CodesOf(s.cbs) + [acts[0].code];
        ConcatAssociates(CodesOf(s.cbs), [acts[0].code], Codes(acts[1..]));
      } else {
        assert CodesOf(t.cbs) == CodesOf(s.cbs);
        assert [] + Codes(acts[1..]) == Codes(acts[1..]);
      }
    }
  }

  /** The waiter has been told of a timeout. */
  predicate ToldTimeout(s: Sys) { s.w.timedOut || s.w.pc == Woken(true) }

  lemma TimeoutStep(s: Sys, a: Action)
    requires Enabled(s, a)
    ensures ToldTimeout(Next(s, a)) <==> ToldTimeout(s) || a == Timeout
  {}

  /** The waiter has timed out exactly when the run contains a timeout: spurious wakeups and broadcasts are none. */
  lemma {:induction false} TimedOutIff(s: Sys, acts: seq<Action>)
    requires Run(s, acts).Some?
    ensures ToldTimeout(Run(s, acts).value) <==> ToldTimeout(s) || Timeout in acts
    decreases |acts|
  {
    if acts != [] {
      TimeoutStep(s, acts[0]);
      TimedOutIff(Next(s, acts[0]), acts[1..]);
    }
  }

  /** Callback `i` is the first one, or it holds the mutex and is about to find that it is. */
  predicate Claims(s: Sys, i: nat) {
    s.first == Some(i) || (s.first == None && s.owner == Handler(i) && i < |s.cbs| && s.cbs[i].pc == Check)
  }

  lemma ClaimStays(s: Sys, a: Action, i: nat)
    requires Inv(s) && Enabled(s, a) && Claims(s, i)
    ensures Claims(Next(s, a), i)
  {
    if a.CallbackStep? {
      assert Holds(s.cbs[a.i].pc) <==> s.owner == Handler(a.i);
      if s.first.Some? && a.i != s.first.value {
        OthersLeaveRecord(s, a.i);
      }
    }
  }

  lemma {:induction false} ClaimIsKept(s: Sys, acts: seq<Action>, i: nat)
    requires Inv(s) && Claims(s, i) && Run(s, acts).Some?
    ensures Claims(Run(s, acts).value, i)
    decreases |acts|
  {
    if acts != [] {
      StepKeepsInv(s, acts[0]);
      ClaimStays(s, acts[0], i);
      ClaimIsKept(Next(s, acts[0]), acts[1..], i);
    }
  }

  /** The callback that found nothing received is the one that was the first to make a step. */
  lemma {:induction false} FirstIsFirstCaller(s: Sys, acts: seq<Action>)
    requires Inv(s) && s.first == None && (forall i :: 0 <= i < |s.cbs| ==> s.cbs[i].pc == Entry)
    requires Run(s, acts).Some?
    ensures Run(s, acts).value.first.Some? ==> Run(s, acts).value.first == FirstCaller(acts)
    decreases |acts|
  {
    if acts != [] {
      var t := Next(s, acts[0]);
      StepKeepsInv(s, acts[0]);
      if acts[0].CallbackStep? {
        ClaimIsKept(t, acts[1..], acts[0].i);
      } else {
        FirstIsFirstCaller(t, acts[1..]);
      }
    }
  }

  // ---- What the waiter returns ----

  /** The waiter has not yet looked at what was captured. */
  predicate BeforeLook(pc: WaiterPc) { !Left(pc) || pc == CopyOut }

  lemma LocalsBeforeLook(w: WaiterState, r: Record)
    requires BeforeLook(LocalsNext(w, r).pc)
    ensures BeforeLook(w.pc) && LocalsNext(w, r).out == w.out
  {}

  lemma LookingStep(s: Sys, a: Action)
    requires Enabled(s, a) && BeforeLook(Next(s, a).w.pc)
    ensures BeforeLook(s.w.pc) && Next(s, a).w.out == s.w.out
  {
    if a == WaiterStep {
      LocalsBeforeLook(s.w, s.rec);
    }
  }

  lemma {:induction false} NothingWrittenBefore(s: Sys, acts: seq<Action>)
    requires Run(s, acts).Some? && BeforeLook(Run(s, acts).value.w.pc)
    ensures BeforeLook(s.w.pc) && Run(s, acts).value.w.out == s.w.out
    decreases |acts|
  {
    if acts != [] {
      NothingWrittenBefore(Next(s, acts[0]), acts[1..]);
      LookingStep(s, acts[0]);
    }
  }

  /** The step at which the waiter looks. */
  lemma {:induction false} WaiterLooks(s: Sys, acts: seq<Action>) returns (k: nat)
    requires Run(s, acts).Some? && BeforeLook(s.w.pc) && !BeforeLook(Run(s, acts).value.w.pc)
    ensures k < |acts| && acts[k] == WaiterStep
    ensures Run(s, acts[..k]).Some? && Run(s, acts[..k]).value.w.pc == CopyOut
    decreases |acts|
  {
    var t := Next(s, acts[0]);
    if BeforeLook(t.w.pc) {
      var rest := WaiterLooks(t, acts[1..]);
      k := rest + 1;
      assert acts[..k][1..] == acts[1..][..rest];
    } else {
      k := 0;
    }
  }

  /** What the waiter's caller will get once it has looked: the buffer and the result. */
  function Result(w: WaiterState, r: Record): (string, bool) {
    if w.pc == CopyNul then (Stored(w.out, r.codeLen, NUL), true) else (w.out, w.gotCode)
  }

  lemma ResultStep(s: Sys, a: Action)
    requires Inv(s) && Enabled(s, a) && !BeforeLook(s.w.pc)
    ensures var t := Next(s, a); !BeforeLook(t.w.pc) && Result(t.w, t.rec) == Result(s.w, s.rec)
  {
    if s.w.pc == CopyNul && Next(s, a).rec != s.rec {
      RecordChangesUnderMutex(s, a);
    }
  }

  lemma {:induction false} ResultIsSettled(s: Sys, acts: seq<Action>)
    requires Inv(s) && !BeforeLook(s.w.pc) && Run(s, acts).Some?
    ensures var t := Run(s, acts).value; !BeforeLook(t.w.pc) && Result(t.w, t.rec) == Result(s.w, s.rec)
    decreases |acts|
  {
    if acts != [] {
      StepKeepsInv(s, acts[0]);
      ResultStep(s, acts[0]);
      ResultIsSettled(Next(s, acts[0]), acts[1..]);
    }
  }

  /** What the waiter's look at the record decides. */
  lemma LookDecides(s: Sys)
    requires Inv(s) && s.w.pc == CopyOut
    ensures s.rec.received ==> s.first.Some? && s.first.value < |s.cbs|
    ensures s.w.timedOut || s.rec.received
    ensures var t := WaiterNext(s);
            && !BeforeLook(t.w.pc)
            && (Result(t.w, t.rec).1 <==> s.rec.received && 0 < |s.cbs[s.first.value].code| < 1024
                                           && |s.cbs[s.first.value].code| < |s.w.out|)
            && Result(t.w, t.rec).0 == if Result(t.w, t.rec).1
                                       then var c := s.cbs[s.first.value].code; c + [NUL] + s.w.out[|c| + 1..]
                                       else s.w.out
  {
    if s.rec.received {
      var c := s.cbs[s.first.value].code;
      if s.rec.success {
        assert s.rec.code[..s.rec.codeLen] == c;
        if |c| < |s.w.out| {
          assert Stored(CopiedTo(s.w.out, c), |c|, NUL) == c + [NUL] + s.w.out[|c| + 1..];
        }
      }
    }
  }

  /** What the state at which the waiter looks has to do with the actions before. */
  lemma LookSees(s: Sys, before: seq<Action>)
    requires Init(s) && Run(s, before).Some? && Run(s, before).value.w.pc == CopyOut
    ensures var looked, f := Run(s, before).value, FirstCaller(before);
            && Inv(looked) && looked.w.out == s.w.out
            && (Timeout !in before ==> looked.rec.received)
            && (looked.rec.received ==> f.Some? && f == looked.first && f.value < |looked.cbs| == |Codes(before)|
                                        && Codes(before)[f.value] == looked.cbs[f.value].code)
  {
    var looked := Run(s, before).value;
    InitInv(s);
    RunKeepsInv(s, before);
    CodesArrive(s, before);
    TimedOutIff(s, before);
    FirstIsFirstCaller(s, before);
    NothingWrittenBefore(s, before);
    assert CodesOf(s.cbs) == [] && CodesOf(looked.cbs) == Codes(before);
  }

  /** What the look decides is what is returned in the end. */
  lemma LookIsFinal(s: Sys, acts: seq<Action>, k: nat)
    requires k < |acts| && acts[k] == WaiterStep
    requires Run(s, acts).Some? && Run(s, acts).value.w.pc == Returned
    requires Run(s, acts[..k]).Some? && Inv(Run(s, acts[..k]).value) && Run(s, acts[..k]).value.w.pc == CopyOut
    ensures var end, t := Run(s, acts).value.w, WaiterNext(Run(s, acts[..k]).value);
            (end.out, end.gotCode) == Result(t.w, t.rec)
  {
    var looked, rest := Run(s, acts[..k]).value, acts[k..];
    assert acts == acts[..k] + rest && rest[0] == WaiterStep && rest[1..] == acts[k + 1..];
    RunConcat(s, acts[..k], rest);
    WaiterKeepsInv(looked);
    LocalsAfterLook(looked.w, looked.rec);
    ResultIsSettled(WaiterNext(looked), acts[k + 1..]);
  }

  lemma LocalsAfterLook(w: WaiterState, r: Record)
    requires w.pc == CopyOut
    ensures !BeforeLook(LocalsNext(w, r).pc)
  {}

  /**
    What loopback_wait_for_code returns, over every interleaving and in terms of the run's actions alone. The waiter
    looks at the record once, at action `k`; without a timeout before it, something is received by then. True is
    returned exactly when something is and the code of the first callback to make a step is non-empty and shorter than
    both buffers; the caller's buffer then starts with that code, terminated, and otherwise it is untouched.
   */
  lemma ResultIsFirstCode(s: Sys, acts: seq<Action>) returns (k: nat)
    requires Init(s) && Run(s, acts).Some? && Run(s, acts).value.w.pc == Returned
    ensures k < |acts| && acts[k] == WaiterStep
    ensures Run(s, acts[..k]).Some? && Run(s, acts[..k]).value.w.pc == CopyOut
    ensures var looked, end, f := Run(s, acts[..k]).value, Run(s, acts).value.w, FirstCaller(acts[..k]);
            && (Timeout !in acts[..k] ==> looked.rec.received)
            && (looked.rec.received ==> f.Some? && f.value < |Codes(acts[..k])|)
            && (end.gotCode <==> looked.rec.received && 0 < |Codes(acts[..k])[f.value]| < 1024
                                 && |Codes(acts[..k])[f.value]| < |s.w.out|)
            && end.out == if end.gotCode then var c := Codes(acts[..k])[f.value]; c + [NUL] + s.w.out[|c| + 1..]
                          else s.w.out
  {
    k := WaiterLooks(s, acts);
    LookSees(s, acts[..k]);
    LookDecides(Run(s, acts[..k]).value);
    LookIsFinal(s, acts, k);
  }

  /** After the mutex is destroyed no callback step is possible any more. */
  lemma NoCallbackAfterDestroy(s: Sys, acts: seq<Action>, i: nat, c: string)
    requires Init(s) && Run(s, acts).Some? && !Run(s, acts).value.mutexAlive
    ensures !Enabled(Run(s, acts).value, CallbackStep(i)) && !Enabled(Run(s, acts).value, Spawn(c))
  {
    InitInv(s);
    RunKeepsInv(s, acts);
  }

  // ---- Progress without help from timeouts or spurious wakeups ----

  function CallbackRank(pc: CallbackPc): nat {
    match pc
    case Entry => 9
    case Check => 8
    case CopyCode => 7
    case SetLength => 6
    case SetNul => 5
    case SetSuccess => 4
    case SetReceived => 3
    case Broadcast => 2
    case Unlock => 1
    case Finished => 0
  }

  function WaiterRank(pc: WaiterPc): nat {
    match pc
    case Start => 10
    case Blocked => 10
    case Woken(_) => 9
    case Test => 8
    case CopyOut => 7
    case CopyNul => 6
    case Release => 5
    case StopServer => 4
    case JoinServer => 3
    case DestroyMutex => 2
    case Returned => 0
  }

  function CallbackRanks(cbs: seq<Callback>): nat {
    if cbs == [] then 0 else CallbackRank(cbs[0].pc) + CallbackRanks(cbs[1..])
  }

  lemma {:induction false} RankAfter(cbs: seq<Callback>, i: nat, cb: Callback)
    requires i < |cbs|
    ensures CallbackRanks(cbs[i := cb]) == CallbackRanks(cbs) - CallbackRank(cbs[i].pc) + CallbackRank(cb.pc)
  {
    if i > 0 {
      assert cbs[i := cb][1..] == cbs[1..][i - 1 := cb];
      RankAfter(cbs[1..], i - 1, cb);
    } else {
      assert cbs[i := cb][1..] == cbs[1..];
    }
  }

  function Rank(s: Sys): nat {
    WaiterRank(s.w.pc) + CallbackRanks(s.cbs)
  }

  predicate Own(a: Action) { a.CallbackStep? || a.WaiterStep? }

  /** Something is received, or the waiter's wait has timed out: from here on it must return. */
  predicate Decisive(s: Sys) {
    s.rec.received || (s.w.pc != Blocked && (s.w.timedOut || s.w.pc == Woken(true) || Left(s.w.pc)))
  }

  /** Then the protocol's own steps are never all blocked before the waiter has returned. */
  lemma NeverStuck(s: Sys) returns (a: Action)
    requires Inv(s) && Decisive(s) && s.w.pc != Returned
    ensures Own(a) && Enabled(s, a)
  {
    if s.owner.Handler? {
      assert Holds(s.cbs[s.owner.i].pc);
      return CallbackStep(s.owner.i);
    }
    if s.w.pc == Blocked {
      return CallbackStep(s.first.value);
    }
    if !WaiterEnabled(s) {
      var i :| 0 <= i < |s.cbs| && s.cbs[i].pc != Finished;
      assert Holds(s.cbs[i].pc) <==> s.owner == Handler(i);
      return CallbackStep(i);
    }
    return WaiterStep;
  }

  lemma CallbackRankFalls(pc: CallbackPc, received: bool, c: string)
    requires pc != Finished
    ensures CallbackRank(PcNext(pc, received, c)) < CallbackRank(pc)
  {}

  lemma WaiterRankFalls(w: WaiterState, r: Record)
    requires r.received || w.timedOut || w.pc == Woken(true) || Left(w.pc)
    requires w.pc != Blocked && w.pc != Returned
    ensures WaiterRank(LocalsNext(w, r).pc) < WaiterRank(w.pc)
  {}

  lemma OwnStepsLowerRank(s: Sys, a: Action)
    requires Inv(s) && Decisive(s) && Own(a) && Enabled(s, a)
    ensures Rank(Next(s, a)) < Rank(s)
  {
    if a.CallbackStep? {
      var cb := s.cbs[a.i];
      RankAfter(s.cbs, a.i, Callback(cb.code, PcNext(cb.pc, s.rec.received, cb.code)));
      CallbackRankFalls(cb.pc, s.rec.received, cb.code);
    } else {
      WaiterRankFalls(s.w, s.rec);
    }
  }

  /** What is received stays received, and a waiter that has timed out never waits again: any step keeps it. */
  lemma StaysDecisive(s: Sys, a: Action)
    requires Inv(s) && Decisive(s) && Enabled(s, a)
    ensures Decisive(Next(s, a))
  {
    if s.rec.received && Next(s, a).rec != s.rec {
      RecordChangesUnderMutex(s, a);
    }
  }

  /**
    From a received code or a timeout on, every run of the protocol's own steps is bounded by Rank, and one that
    cannot go on has ended with the waiter's return: no wakeup is lost and nothing deadlocks.
   */
  lemma {:induction false} OwnRunsAreBounded(s: Sys, acts: seq<Action>)
    requires Inv(s) && Decisive(s) && Run(s, acts).Some? && forall k :: 0 <= k < |acts| ==> Own(acts[k])
    ensures |acts| + Rank(Run(s, acts).value) <= Rank(s)
    ensures (forall a :: Own(a) ==> !Enabled(Run(s, acts).value, a)) ==> Run(s, acts).value.w.pc == Returned
    decreases |acts|
  {
    if acts == [] {
      if s.w.pc != Returned {
        var a := NeverStuck(s);
      }
    } else {
      StepKeepsInv(s, acts[0]);
      OwnStepsLowerRank(s, acts[0]);
      StaysDecisive(s, acts[0]);
      OwnRunsAreBounded(Next(s, acts[0]), acts[1..]);
    }
  }

  /** So the waiter does return: from every such state some run of own steps ends with its return. */
  lemma {:induction false} WaiterReturns(s: Sys) returns (acts: seq<Action>)
    requires Inv(s) && Decisive(s)
    ensures |acts| <= Rank(s) && Run(s, acts).Some? && Run(s, acts).value.w.pc == Returned
    ensures forall k :: 0 <= k < |acts| ==> Own(acts[k])
    decreases Rank(s)
  {
    if s.w.pc == Returned {
      return [];
    }
    var a := NeverStuck(s);
    StepKeepsInv(s, a);
    OwnStepsLowerRank(s, a);
    StaysDecisive(s, a);
    var rest := WaiterReturns(Next(s, a));
    acts := [a] + rest;
    assert acts[1..] == rest;
  }

  // ---- Such runs exist ----

  /** Once a callback holds the mutex, its own steps bring it to its end with something received. */
  lemma {:induction false} CallbackFinishes(s: Sys, i: nat) returns (acts: seq<Action>)
    requires Inv(s) && i < |s.cbs| && Claims(s, i) && s.cbs[i].pc != Entry
    ensures Run(s, acts).Some? && Run(s, acts).value.rec.received
    ensures forall k :: 0 <= k < |acts| ==> Own(acts[k])
    decreases CallbackRank(s.cbs[i].pc)
  {
    if s.cbs[i].pc == Finished {
      return [];
    }
    var a, t := CallbackStep(i), CallbackNext(s, i);
    assert Holds(s.cbs[i].pc) <==> s.owner == Handler(i);
    ClaimStays(s, a, i);
    CallbackKeepsInv(s, i);
    CallbackRankFalls(s.cbs[i].pc, s.rec.received, s.cbs[i].code);
    var rest := CallbackFinishes(t, i);
    acts := [a] + rest;
    assert acts[1..] == rest;
  }

  lemma OwnHasNoTimeout(acts: seq<Action>)
    requires forall k :: 0 <= k < |acts| ==> Own(acts[k])
    ensures Timeout !in acts && Codes(acts) == []
  {
    if acts != [] {
      OwnHasNoTimeout(acts[1..]);
      assert acts == [acts[0]] + acts[1..];
    }
  }

  /** Whatever code arrives at the start, some run without a timeout serves it and returns. */
  lemma CodeCanArrive(s: Sys, c: string) returns (acts: seq<Action>)
    requires Init(s)
    ensures Run(s, acts).Some? && Run(s, acts).value.w.pc == Returned
    ensures Codes(acts) == [c] && Timeout !in acts
  {
    InitInv(s);
    var s1 := Next(s, Spawn(c));
    StepKeepsInv(s, Spawn(c));
    var s2 := Next(s1, CallbackStep(0));
    StepKeepsInv(s1, CallbackStep(0));
    var serve := CallbackFinishes(s2, 0);
    RunKeepsInv(s2, serve);
    var back := WaiterReturns(Run(s2, serve).value);
    RunConcat(s2, serve, back);
    var rest := [CallbackStep(0)] + (serve + back);
    acts := [Spawn(c)] + rest;
    assert rest[1..] == serve + back && acts[1..] == rest;
    OwnHasNoTimeout(rest);
  }

  /** A waiter that nothing reaches is back asleep after a spurious wakeup, and returns without a code after a timeout. */
  lemma TimeoutCanHappen(s: Sys) returns (acts: seq<Action>)
    requires Init(s)
    ensures Run(s, [WaiterStep, WaiterStep]).Some? && Run(s, [WaiterStep, WaiterStep]).value.w.pc == Blocked
    ensures Run(s, [WaiterStep, WaiterStep, SpuriousWakeup, WaiterStep, WaiterStep])
         == Run(s, [WaiterStep, WaiterStep])
    ensures Run(s, acts).Some? && Run(s, acts).value.w.pc == Returned && !Run(s, acts).value.w.gotCode
    ensures Codes(acts) == [] && Timeout in acts
  {
    InitInv(s);
    var asleep := Next(Next(s, WaiterStep), WaiterStep);
    StepKeepsInv(s, WaiterStep);
    StepKeepsInv(Next(s, WaiterStep), WaiterStep);
    TwoSteps(s, WaiterStep, WaiterStep);
    SleepsOn(asleep);
    RunConcat(s, [WaiterStep, WaiterStep], [SpuriousWakeup, WaiterStep, WaiterStep]);
    assert [WaiterStep, WaiterStep] + [SpuriousWakeup, WaiterStep, WaiterStep]
        == [WaiterStep, WaiterStep, SpuriousWakeup, WaiterStep, WaiterStep];
    StepKeepsInv(asleep, Timeout);
    var back := WaiterReturns(Next(asleep, Timeout));
    OwnHasNoTimeout(back);
    var rest := [Timeout] + back;
    assert rest[1..] == back;
    RunConcat(s, [WaiterStep, WaiterStep], rest);
    acts := [WaiterStep, WaiterStep] + rest;
    assert acts[1..][1..] == rest && Codes(rest) == Codes(back);
    NoCallbackNoCode(s, acts);
  }

  lemma TwoSteps(s: Sys, a: Action, b: Action)
    requires Enabled(s, a) && Enabled(Next(s, a), b)
    ensures Run(s, [a, b]) == Some(Next(Next(s, a), b))
  {
    var t := Next(s, a);
    assert [a, b][1..] == [b] && [b][1..] == [];
    assert Run(t, [b]) == Run(Next(t, b), []);
  }

  lemma SleepsOn(s: Sys)
    requires Inv(s) && s.w.pc == Blocked && !s.w.timedOut && !s.rec.received && s.owner == Nobody
    ensures Run(s, [SpuriousWakeup, WaiterStep, WaiterStep]) == Some(s)
  {
    var t := Next(s, SpuriousWakeup);
    TwoSteps(t, WaiterStep, WaiterStep);
    assert [SpuriousWakeup, WaiterStep, WaiterStep][1..] == [WaiterStep, WaiterStep];
  }

  lemma NoCallbackNoCode(s: Sys, acts: seq<Action>)
    requires Init(s) && Run(s, acts).Some? && Run(s, acts).value.w.pc == Returned && Codes(acts) == []
    ensures !Run(s, acts).value.w.gotCode
  {
    var k := ResultIsFirstCode(s, acts);
    CodesSplit(acts[..k], acts[k..]);
    assert acts == acts[..k] + acts[k..];
  }

  lemma {:induction false} CodesSplit(a: seq<Action>, b: seq<Action>)
    ensures Codes(a + b) == Codes(a) + Codes(b)
    decreases |a|
  {
    if a == [] {
      assert a + b == b;
    } else {
      assert (a + b)[1..] == a[1..] + b;
      CodesSplit(a[1..], b);
      ConcatAssociates(if a[0].Spawn? then [a[0].code] else [], Codes(a[1..]), Codes(b));
    }
  }

  // ---- The C code between lock and unlock ----

  /** The record after the remaining steps of a callback's critical section. */
  function SectionFrom(r: Record, pc: CallbackPc, c: string): Record
    decreases CallbackRank(pc)
  {
    if pc == Finished then r
    else
      CallbackRankFalls(pc, r.received, c);
      SectionFrom(RecordNext(r, pc, c), PcNext(pc, r.received, c), c)
  }

  /** The section captures a usable code of the first callback, and only records the arrival of an unusable one. */
  lemma SectionCaptures(r: Record, c: string)
    requires |r.code| == CODE_MAX
    ensures var t := SectionFrom(r, Check, c);
            && (r.received ==> t == r)
            && (!r.received && !Usable(c) ==> t == r.(received := true))
            && (!r.received && Usable(c) ==>
                  t.received && Holding(t, c) && t.code[|c| + 1..] == r.code[|c| + 1..])
  {
    assert SectionFrom(r, Unlock, c) == SectionFrom(r, Finished, c);
    var end := r.(received := true);
    assert SectionFrom(end, Broadcast, c) == SectionFrom(end, Unlock, c) == SectionFrom(end, Finished, c);
    assert SectionFrom(r, SetReceived, c) == SectionFrom(end, Broadcast, c);
    if !r.received && Usable(c) {
      SectionAfterCopy(r.(code := CopiedTo(r.code, c)), c);
    }
  }

  lemma SectionAfterCopy(r: Record, c: string)
    requires |r.code| == CODE_MAX && Usable(c) && Starts(r, c)
    ensures SectionFrom(r, SetLength, c) == Record(true, true, r.code[|c| := NUL], |c|)
  {
    var a := r.(codeLen := |c|);
    var b := a.(code := Stored(a.code, |c|, NUL));
    var d := b.(success := true);
    var e := d.(received := true);
    assert SectionFrom(r, SetLength, c) == SectionFrom(a, SetNul, c);
    assert SectionFrom(a, SetNul, c) == SectionFrom(b, SetSuccess, c);
    assert SectionFrom(b, SetSuccess, c) == SectionFrom(d, SetReceived, c);
    assert SectionFrom(d, SetReceived, c) == SectionFrom(e, Broadcast, c);
    assert SectionFrom(e, Broadcast, c) == SectionFrom(e, Unlock, c);
    assert SectionFrom(e, Unlock, c) == SectionFrom(e, Finished, c);
  }

  /** `loopback_ctx_t`, whose guarded fields are the Record of the state machine. */
  class Context {
    var received: bool
    var success: bool
    const code: array<char>
    var codeLen: nat

    ghost function Rec(): Record
      reads this, code
    {
      Record(received, success, code[..], codeLen)
    }

    /** The zeroed record. */
    constructor ()
      ensures fresh(code) && code.Length == CODE_MAX && !received && !success && codeLen == 0
    {
      received, success, codeLen := false, false, 0;
      code := new char[CODE_MAX](_ => NUL);
    }

    /** The critical section of `oauth_callback_handler`: what the atomic steps from Check to Unlock do to the record. */
    method Capture(c: string)
      requires code.Length == CODE_MAX
      modifies this, code
      ensures Rec() == SectionFrom(old(Rec()), Check, c)
    {
      SectionCaptures(Rec(), c);
      ghost var was := code[..];
      if !received {
        if |c| > 0 && |c| < code.Length {
          forall i | 0 <= i < |c| {
            code[i] := c[i];
          }
          codeLen := |c|;
          code[|c|] := NUL;
          success := true;
          assert code[..] == c + [NUL] + was[|c| + 1..];
        }
        received := true;
      }
    }

    /** The waiter's copy-out: what its CopyOut and CopyNul steps deliver. */
    method Deliver(out: array<char>) returns (gotCode: bool)
      requires code.Length == CODE_MAX && codeLen < CODE_MAX && out != code && out.Length > 0
      modifies out
      ensures var w := WaiterState(CopyOut, false, old(out[..]), false);
              var w1 := LocalsNext(w, Rec());
              var w2 := if w1.pc == CopyNul then LocalsNext(w1, Rec()) else w1;
              w2.pc == Release && out[..] == w2.out && gotCode == w2.gotCode
    {
      ghost var was := out[..];
      gotCode := false;
      if received && success && codeLen > 0 && codeLen < out.Length {
        forall i | 0 <= i < codeLen {
          out[i] := code[i];
        }
        out[codeLen] := NUL;
        gotCode := true;
        assert out[..] == CopiedTo(was, code[..codeLen])[codeLen := NUL];
      }
    }
  }
}
