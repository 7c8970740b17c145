/** capture.c: who owns each capture buffer, from start_capturing through mainloop to uninit_device. */
module CaptureQueue {
  import opened Basics

  datatype IoMethod = Read | Mmap | UserPtr

  /** `struct buffer`: an address and a length. */
  datatype Buffer = Buffer(start: nat, length: nat)

  /** What the driver answers to one VIDIOC_DQBUF (or, for Read, to one read). */
  datatype Dequeue = Again | Failure | Filled(index: nat)

  /** What one pass of the select loop meets; `requeue` is whether VIDIOC_QBUF then succeeds. */
  datatype Event = Interrupted | SelectError | SelectTimeout | Ready(answer: Dequeue, requeue: bool)

  datatype Outcome = NotReady | Processed | Exited | AssertFailed

  datatype End = Finished | Exit | StillRunning

  /** The indices of `n` buffers. */
  function Below(n: nat): (s: set<nat>)
    ensures forall i: nat :: i in s <==> i < n
  {
    if n == 0 then {} else Below(n - 1) + {n - 1}
  }

  class Capture {
    const io: IoMethod
    const buffers: seq<Buffer>
    const nBuffers: nat
    /** Buffers the driver holds, each with the address and length it was queued with. */
    var queued: map<nat, Buffer>
    /** Buffers the application holds. */
    var held: set<nat>
    var frames: nat
    /** Buffers unmapped or freed, in order. */
    var released: seq<nat>

    /** Driver and application share out the buffers, none in both hands and none lost. */
    ghost predicate Valid()
      reads this
    {
      && (io == Read ==> nBuffers == 0 && |buffers| == 1)
      && (io != Read ==> nBuffers == |buffers|)
      && queued.Keys !! held && queued.Keys + held == Below(nBuffers)
      && forall i :: i in queued ==> i < |buffers| && queued[i] == buffers[i]
    }

    /** Every buffer is with the driver. */
    ghost predicate AllQueued()
      reads this
    {
      Valid() && held == {}
    }

    /** The state init_device leaves: every buffer with the application. */
    constructor (io: IoMethod, buffers: seq<Buffer>)
      requires io == Read ==> |buffers| == 1
      ensures Valid() && queued == map[] && frames == 0 && released == []
      ensures this.io == io && this.buffers == buffers
    {
      this.io, this.buffers := io, buffers;
      nBuffers := if io == Read then 0 else |buffers|;
      queued, frames, released := map[], 0, [];
      held := Below(if io == Read then 0 else |buffers|);
    }

    /** VIDIOC_QBUF of a buffer the application holds. */
    method Enqueue(i: nat, b: Buffer, succeeds: bool) returns (ok: bool)
      requires Valid() && i in held && i < |buffers| && b == buffers[i]
      modifies this`queued, this`held
      ensures Valid() && ok == succeeds
      ensures held == (if ok then old(held) - {i} else old(held))
      ensures !ok ==> queued == old(queued)
    {
      ok := succeeds;
      if ok {
        queued, held := queued[i := b], held - {i};
      }
    }

    /** `start_capturing`: queue all buffers, then VIDIOC_STREAMON; `fails` says which call fails, if any. */
    method StartCapturing(fails: Option<nat>) returns (ok: bool)
      requires Valid() && queued == map[]
      modifies this`queued, this`held
      ensures Valid()
      ensures ok <==> io == Read || fails == None || fails.value > nBuffers
      ensures ok ==> AllQueued()
    {
      if io == Read {
        return true;
      }
      var i := 0;
      while i < nBuffers
        invariant i <= nBuffers && Valid() && held == Below(nBuffers) - Below(i)
        invariant fails == None || fails.value >= i
      {
        ok := Enqueue(i, buffers[i], fails != Some(i));
        if !ok {
          return;
        }
        assert Below(i + 1) == Below(i) + {i};
        i := i + 1;
      }
      ok := fails != Some(nBuffers);
    }

    /** The search of read_frame for the buffer at a user pointer; `nBuffers` when there is none. */
    method Lookup(b: Buffer) returns (i: nat)
      requires nBuffers <= |buffers|
      ensures i <= nBuffers && (i < nBuffers ==> buffers[i] == b)
      ensures forall j :: 0 <= j < i ==> buffers[j] != b
    {
      i := 0;
      while i < nBuffers
        invariant i <= nBuffers
        invariant forall j :: 0 <= j < i ==> buffers[j] != b
      {
        if b.start == buffers[i].start && b.length == buffers[i].length {
          break;
        }
        i := i + 1;
      }
    }

    /** What VIDIOC_DQBUF really does with an answer: a buffer the driver does not hold cannot be handed out. */
    function Effective(answer: Dequeue): Dequeue
      reads this
    {
      if answer.Filled? && io != Read && answer.index !in queued then Again else answer
    }

    /** A successful VIDIOC_DQBUF: the buffer changes hands, described as it was queued. */
    method Take(index: nat) returns (b: Buffer)
      requires AllQueued() && index in queued
      modifies this`queued, this`held
      ensures Valid() && held == {index} && queued == old(queued) - {index}
      ensures index < nBuffers && nBuffers == |buffers| && b == buffers[index]
    {
      assert index in queued.Keys + held;
      b := queued[index];
      queued, held := queued - {index}, {index};
    }

    /** The assertion read_frame makes about the buffer it was handed. */
    method Known(index: nat, b: Buffer) returns (ok: bool)
      requires nBuffers == |buffers|
      ensures index < nBuffers && b == buffers[index] ==> ok
    {
      if io == Mmap {
        ok := index < nBuffers;
      } else {
        var i := Lookup(b);
        ok := i < nBuffers;
      }
    }

    /** With every buffer queued, the driver can hand out exactly the buffers there are. */
    lemma QueuedAreAll(i: nat)
      requires AllQueued()
      ensures i in queued <==> i < nBuffers
    {
      assert queued.Keys + held == queued.Keys;
      assert i in queued.Keys <==> i in Below(nBuffers);
    }

    /** `read_frame`. Neither of its assertions can fail, and it never keeps a buffer. */
    method ReadFrame(answer: Dequeue, requeue: bool) returns (r: Outcome)
      requires AllQueued()
      modifies this`queued, this`held, this`frames
      ensures Valid() && r != AssertFailed
      ensures r == match old(Effective(answer))
                   case Again => NotReady
                   case Failure => Exited
                   case Filled(_) => if io == Read || requeue then Processed else Exited
      ensures r != Exited ==> AllQueued() && queued == old(queued)
      ensures held == {} || (answer.Filled? && held == {answer.index})
      ensures frames == old(frames) + if old(Effective(answer)).Filled? then 1 else 0
      ensures r == Processed <==> IsFrame(Ready(answer, requeue), io, nBuffers)
      ensures r == Exited <==> IsFatal(Ready(answer, requeue), io, nBuffers)
      ensures frames == old(frames) + if Delivers(Ready(answer, requeue), io, nBuffers) then 1 else 0
    {
      if answer.Filled? {
        QueuedAreAll(answer.index);
      }
      var got := Effective(answer);
      if got == Again {
        return NotReady;
      }
      if got == Failure {
        return Exited;
      }
      if io == Read {
        frames := frames + 1;
        return Processed;
      }
      ghost var all := queued;
      var b := Take(got.index);
      var known := Known(got.index, b);
      if !known {
        return AssertFailed;
      }
      frames := frames + 1;
      var ok := Enqueue(got.index, b, requeue);
      if !ok {
        return Exited;
      }
      assert all[got.index] == b && queued == all;
      r := Processed;
    }

    /** The inner select loop of `mainloop`, from event `from` on; NotReady when the events run out. */
    method AwaitFrame(events: seq<Event>, from: nat) returns (r: Outcome, e: nat)
      requires AllQueued() && from <= |events|
      modifies this`queued, this`held, this`frames
      ensures Valid() && from <= e <= |events| && r != AssertFailed
      ensures r != Exited ==> AllQueued() && queued == old(queued)
      ensures r == NotReady ==> e == |events| && frames == old(frames) && AllQuiet(events, from, e, io, nBuffers)
      ensures r == Processed ==>
                && from < e && AllQuiet(events, from, e - 1, io, nBuffers) && IsFrame(events[e - 1], io, nBuffers)
                && frames == old(frames) + 1
      ensures r == Exited ==>
                && from < e && AllQuiet(events, from, e - 1, io, nBuffers) && IsFatal(events[e - 1], io, nBuffers)
                && frames == old(frames) + (if Delivers(events[e - 1], io, nBuffers) then 1 else 0) && |held| <= 1
    {
      e := from;
      while e < |events|
        invariant from <= e <= |events| && AllQueued() && queued == old(queued) && frames == old(frames)
        invariant AllQuiet(events, from, e, io, nBuffers)
      {
        var ev := events[e];
        e := e + 1;
        match ev
        case Interrupted =>
        case SelectError => return Exited, e;
        case SelectTimeout => return Exited, e;
        case Ready(answer, requeue) =>
          r := ReadFrame(answer, requeue);
          if r != NotReady {
            return;
          }
      }
      r := NotReady;
    }

    /**
      `mainloop` against a finite record of what select and the driver answer; `frameCount` is C's `int`. `k` is how
      many of the events it took when it finished, and the number of the fatal one when it exited.
     */
    method MainLoop(frameCount: int, events: seq<Event>) returns (end: End, ghost k: nat)
      requires AllQueued()
      modifies this`queued, this`held, this`frames
      ensures Valid() && (end != Exit ==> AllQueued()) && |held| <= 1 && k <= |events|
      ensures end == Finished <==> Finishes(ToUint32(frameCount), events, io, nBuffers)
      ensures end == Exit <==> Exits(ToUint32(frameCount), events, io, nBuffers)
      ensures end == Finished ==>
                && FinishesAt(ToUint32(frameCount), events, k, io, nBuffers)
                && frames == old(frames) + ToUint32(frameCount)
      ensures end == Exit ==>
                && ExitsAt(ToUint32(frameCount), events, k, io, nBuffers)
                && frames == old(frames) + Frames(events, k, io, nBuffers)
                             + if Delivers(events[k], io, nBuffers) then 1 else 0
      ensures end == StillRunning ==> frames == old(frames) + Frames(events, |events|, io, nBuffers)
    {
      var count, e := ToUint32(frameCount), 0;
      while count > 0
        invariant 0 <= count <= ToUint32(frameCount) && e <= |events| && AllQueued()
        invariant frames + count == old(frames) + ToUint32(frameCount)
        invariant NoneFatal(events, e, io, nBuffers) && Frames(events, e, io, nBuffers) + count == ToUint32(frameCount)
        decreases count
      {
        count := count - 1;
        ghost var from := e;
        var r;
        r, e := AwaitFrame(events, e);
        if r == NotReady {
          QuietStretch(events, from, e, io, nBuffers);
          RunsOutOnly(ToUint32(frameCount), events, io, nBuffers);
          return StillRunning, e;
        }
        QuietStretch(events, from, e - 1, io, nBuffers);
        if r == Exited {
          ExitsOnly(ToUint32(frameCount), events, e - 1, io, nBuffers);
          return Exit, e - 1;
        }
      }
      FinishesOnly(ToUint32(frameCount), events, e, io, nBuffers);
      end, k := Finished, e;
    }

    /** `stop_capturing`: VIDIOC_STREAMOFF takes every buffer back from the driver. */
    method StopCapturing(succeeds: bool) returns (ok: bool)
      requires Valid()
      modifies this`queued, this`held
      ensures Valid() && (ok <==> io == Read || succeeds)
      ensures queued == if ok then map[] else old(queued)
    {
      ok := io == Read || succeeds;
      if ok {
        queued, held := map[], Below(nBuffers);
      }
      assert io == Read ==> queued.Keys == {};
    }

    /** The whole program after init_device, as main calls it. */
    method Session(frameCount: int, startFails: Option<nat>, events: seq<Event>, stopOk: bool, unmapFails: Option<nat>)
      returns (end: End)
      requires Valid() && queued == map[] && released == [] && frames == 0
      modifies this
      ensures Valid()
      ensures var starts := io == Read || startFails == None || startFails.value > nBuffers;
              var count := ToUint32(frameCount);
              && (end == Finished <==>
                    && starts && Finishes(count, events, io, nBuffers) && (io == Read || stopOk)
                    && (io != Mmap || unmapFails == None || unmapFails.value >= nBuffers))
              && (end == StillRunning <==>
                    starts && !Finishes(count, events, io, nBuffers) && !Exits(count, events, io, nBuffers))
      ensures end == Finished ==>
                frames == ToUint32(frameCount) && queued == map[] && released == Indices(|buffers|)
      ensures end == StillRunning ==> AllQueued() && released == []
    {
      var ok := StartCapturing(startFails);
      if !ok {
        return Exit;
      }
      ghost var k;
      end, k := MainLoop(frameCount, events);
      if end != Finished {
        return;
      }
      ok := StopCapturing(stopOk);
      if !ok {
        return Exit;
      }
      ok := Uninit(unmapFails);
      if !ok {
        return Exit;
      }
    }

    /** `uninit_device`: give every buffer's memory back; `fails` is the munmap that fails, if any. */
    method Uninit(fails: Option<nat>) returns (ok: bool)
      requires Valid() && released == []
      modifies this`released
      ensures Valid()
      ensures ok <==> io != Mmap || fails == None || fails.value >= nBuffers
      ensures ok ==> released == Indices(|buffers|)
      ensures !ok ==> released == Indices(fails.value)
    {
      if io == Read {
        released := released + [0];
        assert Indices(1) == Indices(0) + [0];
        return true;
      }
      var i := 0;
      while i < nBuffers
        invariant i <= nBuffers && released == Indices(i) && Valid()
        invariant io == Mmap && fails.Some? ==> fails.value >= i
      {
        if io == Mmap && fails == Some(i) {
          return false;
        }
        released := released + [i];
        i := i + 1;
      }
      ok := true;
    }
  }

  /** 0, 1, ..., n - 1: each index once. */
  function Indices(n: nat): seq<nat> {
    if n == 0 then [] else Indices(n - 1) + [n - 1]
  }

  // ---- How a record of events ends the main loop ----

  /** A buffer is handed out; with n buffers the driver knows the numbers below n. */
  predicate Delivers(ev: Event, io: IoMethod, n: nat) {
    ev.Ready? && ev.answer.Filled? && (io == Read || ev.answer.index < n)
  }

  /** A frame is read and its buffer, where there is one to give back, is queued again. */
  predicate IsFrame(ev: Event, io: IoMethod, n: nat) {
    Delivers(ev, io, n) && (io == Read || ev.requeue)
  }

  /** The program exits on a select error, a select timeout, a failed dequeue or a buffer it cannot queue again. */
  predicate IsFatal(ev: Event, io: IoMethod, n: nat) {
    || ev.SelectError?
    || ev.SelectTimeout?
    || (ev.Ready? && ev.answer.Failure?)
    || (Delivers(ev, io, n) && io != Read && !ev.requeue)
  }

  /** Which events are which, one by one: no event is both, and an interruption, EAGAIN or a foreign buffer is neither. */
  lemma EventKinds(io: IoMethod, n: nat, i: nat, requeue: bool)
    ensures IsFatal(SelectError, io, n) && IsFatal(SelectTimeout, io, n) && IsFatal(Ready(Failure, requeue), io, n)
    ensures !IsFatal(Interrupted, io, n) && !IsFrame(Interrupted, io, n)
    ensures !IsFatal(Ready(Again, requeue), io, n) && !IsFrame(Ready(Again, requeue), io, n)
    ensures IsFrame(Ready(Filled(i), requeue), io, n) <==> io == Read || (i < n && requeue)
    ensures IsFatal(Ready(Filled(i), requeue), io, n) <==> io != Read && i < n && !requeue
  {}

  ghost predicate AllQuiet(events: seq<Event>, from: nat, until: nat, io: IoMethod, n: nat)
    requires until <= |events|
  {
    forall j :: from <= j < until ==> !IsFrame(events[j], io, n) && !IsFatal(events[j], io, n)
  }

  ghost predicate NoneFatal(events: seq<Event>, until: nat, io: IoMethod, n: nat)
    requires until <= |events|
  {
    forall j :: 0 <= j < until ==> !IsFatal(events[j], io, n)
  }

  /** How many of the first `k` events are frames. */
  function Frames(events: seq<Event>, k: nat, io: IoMethod, n: nat): nat
    requires k <= |events|
  {
    if k == 0 then 0 else Frames(events, k - 1, io, n) + if IsFrame(events[k - 1], io, n) then 1 else 0
  }

  /** Event `k` is the first fatal one and comes before there are enough frames. */
  ghost predicate ExitsAt(count: nat, events: seq<Event>, k: nat, io: IoMethod, n: nat) {
    k < |events| && IsFatal(events[k], io, n) && NoneFatal(events, k, io, n) && Frames(events, k, io, n) < count
  }

  /** The first `k` events hold enough frames, and nothing fatal. */
  ghost predicate FinishesAt(count: nat, events: seq<Event>, k: nat, io: IoMethod, n: nat) {
    k <= |events| && NoneFatal(events, k, io, n) && Frames(events, k, io, n) == count
  }

  ghost predicate Exits(count: nat, events: seq<Event>, io: IoMethod, n: nat) {
    exists k: nat :: ExitsAt(count, events, k, io, n)
  }

  ghost predicate Finishes(count: nat, events: seq<Event>, io: IoMethod, n: nat) {
    exists k: nat :: FinishesAt(count, events, k, io, n)
  }

  lemma {:induction false} FramesGrow(events: seq<Event>, a: nat, b: nat, io: IoMethod, n: nat)
    requires a <= b <= |events|
    ensures Frames(events, a, io, n) <= Frames(events, b, io, n)
    decreases b
  {
    if a < b {
      FramesGrow(events, a, b - 1, io, n);
    }
  }

  lemma {:induction false} QuietStretch(events: seq<Event>, from: nat, until: nat, io: IoMethod, n: nat)
    requires from <= until <= |events| && AllQuiet(events, from, until, io, n)
    ensures Frames(events, until, io, n) == Frames(events, from, io, n)
    decreases until
  {
    if from < until {
      QuietStretch(events, from, until - 1, io, n);
    }
  }

  /** A run that exits cannot also finish. */
  lemma ExitsOnly(count: nat, events: seq<Event>, k: nat, io: IoMethod, n: nat)
    requires ExitsAt(count, events, k, io, n)
    ensures Exits(count, events, io, n) && !Finishes(count, events, io, n)
  {
    forall j: nat | FinishesAt(count, events, j, io, n)
      ensures false
    {
      if j <= k {
        FramesGrow(events, j, k, io, n);
      }
    }
  }

  lemma FinishesOnly(count: nat, events: seq<Event>, k: nat, io: IoMethod, n: nat)
    requires FinishesAt(count, events, k, io, n)
    ensures Finishes(count, events, io, n) && !Exits(count, events, io, n)
  {
    forall j: nat | ExitsAt(count, events, j, io, n)
      ensures false
    {
      ExitsOnly(count, events, j, io, n);
    }
  }

  lemma RunsOutOnly(count: nat, events: seq<Event>, io: IoMethod, n: nat)
    requires NoneFatal(events, |events|, io, n) && Frames(events, |events|, io, n) < count
    ensures !Exits(count, events, io, n) && !Finishes(count, events, io, n)
  {
    forall k: nat | FinishesAt(count, events, k, io, n)
      ensures false
    {
      FramesGrow(events, k, |events|, io, n);
    }
  }

  /** A non-negative frame count is processed as it is; a negative one wraps to a huge unsigned count. */
  lemma FrameCountIff(frameCount: int)
    requires -0x8000_0000 <= frameCount < 0x8000_0000
    ensures ToUint32(frameCount) == frameCount <==> frameCount >= 0
    ensures frameCount < 0 ==> ToUint32(frameCount) == frameCount + 0x1_0000_0000 >= 0x8000_0000
  {}
}
