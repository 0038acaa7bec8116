/** The local sibling of the multipart writer (tsync/storage.go localAtomicWriter): bytes go to a temp
    file, which only a successful Close renames onto the destination. */
module LocalWriter {
  import opened Base

  datatype WriteError = WriterClosed | Cancelled | Failed

  /** The directory of the destination; calls may fail. */
  class Directory {
    var files: map<string, seq<byte>>
    ghost var failures: nat    // calls that failed

    constructor (files: map<string, seq<byte>>)
      ensures this.files == files
    {
      this.files, failures := files, 0;
    }

    method Append(name: string, p: seq<byte>) returns (n: nat)
      requires name in files
      modifies this
      ensures n <= |p| && files == old(files)[name := old(files)[name] + p[..n]]
      ensures failures == old(failures) + if n < |p| then 1 else 0
    {
      var short: int := *;
      n := if 0 <= short < |p| then short else |p|;
      files := files[name := files[name] + p[..n]];
      failures := failures + if n < |p| then 1 else 0;
    }

    /** Sync and Close of an open file. */
    method Flush() returns (ok: bool)
      modifies this`failures
      ensures failures == old(failures) + if ok then 0 else 1
    {
      ok := *;
      failures := failures + if ok then 0 else 1;
    }

    method Rename(from: string, to: string) returns (ok: bool)
      requires from in files && from != to
      modifies this
      ensures files == if ok then old(files)[to := old(files)[from]] - {from} else old(files)
      ensures failures == old(failures) + if ok then 0 else 1
    {
      ok := *;
      if ok {
        files := files[to := files[from]] - {from};
      }
      failures := failures + if ok then 0 else 1;
    }

    method Remove(name: string) returns (ok: bool)
      modifies this
      ensures files == if ok then old(files) - {name} else old(files)
      ensures failures == old(failures) + if ok then 0 else 1
    {
      ok := *;
      if ok {
        files := files - {name};
      }
      failures := failures + if ok then 0 else 1;
    }
  }

  /** Every name but this one is as before. */
  predicate OnlyName(before: map<string, seq<byte>>, after: map<string, seq<byte>>, name: string)
  {
    && (forall n | n in before && n != name :: n in after && after[n] == before[n])
    && (forall n | n in after && n != name :: n in before)
  }

  class Writer {
    const dir: Directory
    const finalPath: string
    const temp: string
    var done: bool
    ghost var accepted: seq<byte>

    ghost predicate Valid()
      reads this, dir
    {
      temp != finalPath && (!done ==> temp in dir.files && dir.files[temp] == accepted)
    }

    /** openAtomicWriter: CreateTemp picks a name that is not in use. */
    constructor (dir: Directory, finalPath: string, temp: string)
      requires temp != finalPath && temp !in dir.files
      modifies dir
      ensures Valid() && !done && accepted == [] && this.dir == dir && this.finalPath == finalPath && this.temp == temp
      ensures dir.files == old(dir.files)[temp := []]
    {
      this.dir, this.finalPath, this.temp, done, accepted := dir, finalPath, temp, false, [];
      new;
      dir.files := dir.files[temp := []];
    }

    /** Accepts a prefix of p; the destination does not change. */
    method Write(p: seq<byte>, cancelled: bool) returns (n: nat, e: Option<WriteError>)
      requires Valid()
      modifies this`accepted, dir
      ensures Valid() && n <= |p| && OnlyName(old(dir.files), dir.files, temp)
      ensures done ==> n == 0 && e == Some(WriterClosed) && dir.files == old(dir.files) && accepted == old(accepted)
      ensures !done ==> accepted == old(accepted) + p[..n]
      ensures e.None? ==> n == |p|
      ensures !done && cancelled ==> e == Some(Cancelled) && n == 0
      ensures e == Some(Failed) ==> old(dir.failures) < dir.failures
      ensures e == Some(Cancelled) ==> cancelled
    {
      if done {
        return 0, Some(WriterClosed);
      }
      if cancelled {
        return 0, Some(Cancelled);
      }
      n := dir.Append(temp, p);
      e := if n < |p| then Some(Failed) else None;
      accepted := accepted + p[..n];
    }

    /** Sync, Close and Rename, up to the first that fails. */
    method Publish() returns (ok: bool)
      requires temp in dir.files && temp != finalPath
      modifies dir
      ensures dir.files == if ok then old(dir.files)[finalPath := old(dir.files)[temp]] - {temp} else old(dir.files)
      ensures if ok then dir.failures == old(dir.failures) else old(dir.failures) < dir.failures
    {
      ok := dir.Flush();
      if ok {
        ok := dir.Flush();
      }
      if ok {
        ok := dir.Rename(temp, finalPath);
      }
    }

    /** On success the destination holds exactly the accepted bytes and the temp file is gone; on any
        failure the destination is untouched. */
    method Close(cancelled: bool) returns (ok: bool)
      requires Valid()
      modifies this`done, dir
      ensures Valid() && done
      ensures old(done) ==> ok && dir.files == old(dir.files)
      ensures !old(done) && ok ==> !cancelled && dir.files == old(dir.files)[finalPath := accepted] - {temp}
      ensures !ok ==> OnlyName(old(dir.files), dir.files, temp) && (cancelled || old(dir.failures) < dir.failures)
    {
      if done {
        return true;
      }
      done := true;
      if !cancelled {
        ok := Publish();
        if ok {
          return true;
        }
      }
      var _ := dir.Remove(temp);
      return false;
    }

    method Abort() returns (ok: bool)
      requires Valid()
      modifies this`done, dir
      ensures Valid() && done && OnlyName(old(dir.files), dir.files, temp)
      ensures old(done) ==> ok && dir.files == old(dir.files)
      ensures if ok then !old(done) ==> temp !in dir.files else old(dir.failures) < dir.failures
    {
      if done {
        return true;
      }
      done := true;
      var closed := dir.Flush();
      ok := dir.Remove(temp);
      ok := ok && closed;
    }
  }
}
