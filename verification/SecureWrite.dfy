/** util.c: `write_file_secure`, which fills `path.tmp` and renames it over `path`. */
module SecureWrite {
  import opened Basics

  const TMP_CAP := 512

  type Files = map<string, string>

  function At(files: Files, path: string): Option<string> {
    if path in files then Some(files[path]) else None
  }

  function Tmp(path: string): string { path + ".tmp" }

  /** What a `write` of `n` bytes returns when the environment answers `o`: -1, 0 or a count up to `n`. */
  function Written(o: int, n: nat): (w: int)
    ensures -1 <= w <= n
  {
    if o < 0 then -1 else if o > n then n else o
  }

  /** A file system whose every system call is answered by an arbitrary environment. */
  class Disk {
    const answer: nat -> int
    var calls: nat
    var files: Files
    ghost var trace: seq<Files>
    /** How many calls have failed so far; a write that takes nothing counts as failed. */
    ghost var failures: nat

    constructor (answer: nat -> int, files: Files)
      ensures this.answer == answer && calls == 0 && this.files == files && trace == [] && failures == 0
    {
      this.answer := answer;
      this.files := files;
      calls := 0;
      trace := [];
      failures := 0;
    }

    /** `open` with O_CREAT and O_TRUNC. */
    method Open(path: string) returns (ok: bool)
      modifies this
      ensures calls == old(calls) + 1 && trace == old(trace) + [files]
      ensures ok <==> answer(old(calls)) >= 0
      ensures failures == old(failures) + if ok then 0 else 1
      ensures files == if ok then old(files)[path := []] else old(files)
    {
      ok := answer(calls) >= 0;
      if ok {
        files := files[path := []];
      }
      failures := failures + if ok then 0 else 1;
      calls, trace := calls + 1, trace + [files];
    }

    /** `write` at the end of an open file: any prefix of the data may be taken. */
    method Write(path: string, data: string) returns (w: int)
      requires path in files
      modifies this
      ensures calls == old(calls) + 1 && trace == old(trace) + [files]
      ensures w == Written(answer(old(calls)), |data|)
      ensures failures == old(failures) + if w > 0 then 0 else 1
      ensures files == if w > 0 then old(files)[path := old(files)[path] + data[..w]] else old(files)
    {
      w := Written(answer(calls), |data|);
      if w > 0 {
        files := files[path := files[path] + data[..w]];
      }
      failures := failures + if w > 0 then 0 else 1;
      calls, trace := calls + 1, trace + [files];
    }

    method Close() returns (r: int)
      modifies this
      ensures calls == old(calls) + 1 && files == old(files) && trace == old(trace) + [files]
      ensures r == answer(old(calls))
      ensures failures == old(failures) + if r == 0 then 0 else 1
    {
      r := answer(calls);
      failures := failures + if r == 0 then 0 else 1;
      calls, trace := calls + 1, trace + [files];
    }

    /** `rename`: atomic, and without effect when it fails. */
    method Rename(from: string, to: string) returns (r: int)
      requires from in files
      modifies this
      ensures calls == old(calls) + 1 && trace == old(trace) + [files]
      ensures r == answer(old(calls))
      ensures failures == old(failures) + if r == 0 then 0 else 1
      ensures files == if r == 0 then (old(files) - {from})[to := old(files)[from]] else old(files)
    {
      r := answer(calls);
      if r == 0 {
        files := (files - {from})[to := files[from]];
      }
      failures := failures + if r == 0 then 0 else 1;
      calls, trace := calls + 1, trace + [files];
    }

    method Unlink(path: string)
      modifies this
      ensures calls == old(calls) + 1 && trace == old(trace) + [files]
      ensures files == if answer(old(calls)) == 0 then old(files) - {path} else old(files)
      ensures failures == old(failures) + if answer(old(calls)) == 0 then 0 else 1
    {
      failures := failures + if answer(calls) == 0 then 0 else 1;
      if answer(calls) == 0 {
        files := files - {path};
      }
      calls, trace := calls + 1, trace + [files];
    }
  }

  /** The number of the call after the write loop, when every write from call `c` on makes progress. */
  function WriteLoop(answer: nat -> int, c: nat, left: nat): Option<nat>
    decreases left
  {
    if left == 0 then Some(c)
    else
      var w := Written(answer(c), left);
      if w <= 0 then None else WriteLoop(answer, c + 1, left - w)
  }

  /** The write loop completes exactly when every call it makes is answered with progress. */
  lemma {:induction false} WriteLoopMeaning(answer: nat -> int, c: nat, left: nat)
    ensures WriteLoop(answer, c, left).Some? ==>
              var end := WriteLoop(answer, c, left).value;
              c <= end <= c + left && (forall k :: c <= k < end ==> answer(k) > 0)
    ensures WriteLoop(answer, c, left).None? ==> exists k :: c <= k < c + left && answer(k) <= 0
    decreases left
  {
    if left > 0 {
      var w := Written(answer(c), left);
      if w > 0 {
        WriteLoopMeaning(answer, c + 1, left - w);
      }
    }
  }

  /** Exactly which environments let a write of `n` bytes to `path` succeed. */
  predicate Succeeds(answer: nat -> int, c: nat, path: string, n: nat) {
    && |Tmp(path)| < TMP_CAP
    && answer(c) >= 0
    && WriteLoop(answer, c + 1, n).Some?
    && (var end := WriteLoop(answer, c + 1, n).value; answer(end) == 0 && answer(end + 1) == 0)
  }

  /** The target holds its old or the whole new contents; everything but the temporary file is untouched. */
  ghost predicate Atomic(before: Files, now: Files, path: string, buf: string) {
    && now - {path, Tmp(path)} == before - {path, Tmp(path)}
    && (At(now, path) == At(before, path) || At(now, path) == Some(buf))
  }

  /** Nothing but the temporary file differs. */
  ghost predicate Untouched(before: Files, now: Files, path: string) {
    now - {Tmp(path)} == before - {Tmp(path)}
  }

  lemma UntouchedIsAtomic(before: Files, now: Files, path: string, buf: string)
    requires Untouched(before, now, path)
    ensures At(now, path) == At(before, path) && Atomic(before, now, path, buf)
  {
    TmpDiffers(path);
    assert At(now - {Tmp(path)}, path) == At(now, path);
    assert At(before - {Tmp(path)}, path) == At(before, path);
    assert now - {path, Tmp(path)} == (now - {Tmp(path)}) - {path};
    assert before - {path, Tmp(path)} == (before - {Tmp(path)}) - {path};
  }

  /** Every state recorded from position `t0` on leaves all but the temporary file as before. */
  ghost predicate UntouchedSince(trace: seq<Files>, t0: nat, before: Files, path: string) {
    forall k :: t0 <= k < |trace| ==> Untouched(before, trace[k], path)
  }

  /** The same, except that the last recorded state of a successful call is the final one. */
  ghost predicate Recorded(trace: seq<Files>, t0: nat, before: Files, end: Files, path: string, ok: bool) {
    forall k :: t0 <= k < |trace| ==>
      if ok && k == |trace| - 1 then trace[k] == end else Untouched(before, trace[k], path)
  }

  /** The write loop of `write_file_secure`: it stops at the first write without progress. */
  method WriteAll(disk: Disk, ghost path: string, tmp: string, buf: string, ghost before: Files, ghost t0: nat)
    returns (ok: bool)
    requires tmp == Tmp(path) && tmp in disk.files && disk.files[tmp] == []
    requires Untouched(before, disk.files, path)
    requires t0 <= |disk.trace| && UntouchedSince(disk.trace, t0, before, path)
    modifies disk
    ensures var end := WriteLoop(disk.answer, old(disk.calls), |buf|);
            ok == end.Some? && (ok ==> disk.calls == end.value && disk.files == old(disk.files)[tmp := buf])
    ensures ok <==> disk.failures == old(disk.failures)
    ensures old(disk.failures) <= disk.failures
    ensures tmp in disk.files && Untouched(before, disk.files, path)
    ensures old(disk.trace) <= disk.trace && UntouchedSince(disk.trace, t0, before, path)
  {
    var off := 0;
    while off < |buf|
      invariant 0 <= off <= |buf|
      invariant disk.files == old(disk.files)[tmp := buf[..off]]
      invariant old(disk.trace) <= disk.trace && UntouchedSince(disk.trace, t0, before, path)
      invariant disk.failures == old(disk.failures)
      invariant WriteLoop(disk.answer, old(disk.calls), |buf|) == WriteLoop(disk.answer, disk.calls, |buf| - off)
    {
      var w := disk.Write(tmp, buf[off..]);
      if w <= 0 {
        return false;
      }
      assert buf[..off] + buf[off..][..w] == buf[..off + w];
      off := off + w;
    }
    assert buf[..off] == buf;
    ok := true;
  }

  /** The calls between open and unlink: write everything, close, and rename if nothing failed. */
  method FillAndRename(disk: Disk, path: string, tmp: string, buf: string, ghost before: Files, ghost t0: nat)
    returns (ok: bool)
    requires tmp == Tmp(path) && tmp in disk.files && disk.files[tmp] == []
    requires Untouched(before, disk.files, path)
    requires t0 <= |disk.trace| && UntouchedSince(disk.trace, t0, before, path)
    modifies disk
    ensures var end := WriteLoop(disk.answer, old(disk.calls), |buf|);
            ok <==> end.Some? && disk.answer(end.value) == 0 && disk.answer(end.value + 1) == 0
    ensures ok <==> disk.failures == old(disk.failures)
    ensures old(disk.failures) <= disk.failures
    ensures ok ==> disk.files == old(disk.files)[path := buf] - {tmp}
    ensures !ok ==> tmp in disk.files && Untouched(before, disk.files, path)
    ensures old(disk.trace) <= disk.trace && Recorded(disk.trace, t0, before, disk.files, path, ok)
  {
    TmpDiffers(path);
    ok := WriteAll(disk, path, tmp, buf, before, t0);
    var r := disk.Close();
    if r != 0 {
      ok := false;
    }
    if ok {
      r := disk.Rename(tmp, path);
      if r != 0 {
        ok := false;
      }
    }
  }

  /**
    `write_file_secure`, under every pattern of short writes and failures. After a failure the temporary file, which
    may hold part of the secrets, is left behind only if the final unlink failed as well.
   */
  method WriteFileSecure(disk: Disk, path: string, buf: string) returns (ok: bool)
    modifies disk
    ensures ok <==> Succeeds(disk.answer, old(disk.calls), path, |buf|)
    ensures ok <==> |path| + 4 < 512 && disk.failures == old(disk.failures)
    ensures Tmp(path) == path + ".tmp"
    ensures ok ==> disk.files == old(disk.files)[path := buf] - {Tmp(path)}
    ensures !ok ==> Untouched(old(disk.files), disk.files, path)
    ensures old(disk.trace) <= disk.trace
    ensures Recorded(disk.trace, |old(disk.trace)|, old(disk.files), disk.files, path, ok)
    ensures |Tmp(path)| >= TMP_CAP ==> disk.files == old(disk.files) && disk.calls == old(disk.calls)
    ensures |Tmp(path)| < TMP_CAP && disk.answer(old(disk.calls)) < 0 ==>
              disk.files == old(disk.files) && disk.calls == old(disk.calls) + 1
    ensures !ok && |Tmp(path)| < TMP_CAP && disk.answer(old(disk.calls)) >= 0 ==>
              disk.calls > 0 && (Tmp(path) in disk.files <==> disk.answer(disk.calls - 1) != 0)
  {
    var tmp := Tmp(path);
    TmpDiffers(path);
    if |tmp| >= TMP_CAP {
      return false;
    }
    var isOpen := disk.Open(tmp);
    if !isOpen {
      return false;
    }
    ok := FillAndRename(disk, path, tmp, buf, old(disk.files), |old(disk.trace)|);
    if !ok {
      disk.Unlink(tmp);
    }
  }

  lemma TmpDiffers(path: string)
    ensures Tmp(path) != path
  {
    assert |path| < |Tmp(path)|;
  }

  /** What the contract above means for the target: a crash after any call finds the old or the whole new contents. */
  lemma TargetIsAtomic(before: Files, now: Files, path: string, buf: string)
    requires Untouched(before, now, path) || now == before[path := buf] - {Tmp(path)}
    ensures Atomic(before, now, path, buf)
    ensures Untouched(before, now, path) ==> At(now, path) == At(before, path)
    ensures !Untouched(before, now, path) ==> At(now, path) == Some(buf)
  {
    TmpDiffers(path);
    if Untouched(before, now, path) {
      UntouchedIsAtomic(before, now, path, buf);
    }
  }
}
