/** `ssh_upload_file`: upload over SFTP, completing a partial file when there is one. */
module ResumableUpload {
  import opened Base

  const RESUME_CHUNK := 256 * 1024

  class RemoteFile {
    var contents: Option<seq<Byte>>
  }

  /** What the connection does during one call. A write of the append loop may raise, with
    * some of its octets landed; a fresh upload may raise, leaving anything at all; either
    * hash may be unavailable. */
  datatype Connection = Connection(
    statFails: bool, raisingWrite: Option<nat>, torn: nat, localHash: bool, remoteHash: bool,
    putLeaves: Option<Option<seq<Byte>>>)

  datatype Restart = NoRestart | Unverifiable | Mismatch

  datatype Report = Report(ok: bool, bytes: nat, resumed: bool, restart: Restart)

  datatype Result = Result(report: Report, remote: Option<seq<Byte>>)

  const FAILED := Report(false, 0, false, NoRestart)

  // ---------------------------------------------------------------------
  // The append loop
  // ---------------------------------------------------------------------

  /** Whether the loop that starts at `offset` reaches the write that raises. */
  predicate AppendRaises(local: seq<Byte>, offset: nat, conn: Connection) {
    conn.raisingWrite.Some? && offset + conn.raisingWrite.value * RESUME_CHUNK < |local|
  }

  /** How far into the local file the remote one then reaches. */
  function AppendedTo(local: seq<Byte>, offset: nat, conn: Connection): (e: nat)
    requires offset <= |local|
    ensures offset <= e <= |local|
  {
    if AppendRaises(local, offset, conn) then
      var done := offset + conn.raisingWrite.value * RESUME_CHUNK;
      Min(done + Min(conn.torn, RESUME_CHUNK), |local|)
    else |local|
  }

  /** `_sftp_append_tail` */
  method AppendTail(remote: RemoteFile, local: seq<Byte>, offset: nat, conn: Connection) returns (raised: bool)
    requires remote.contents.Some? && |remote.contents.value| == offset <= |local|
    modifies remote
    ensures raised == AppendRaises(local, offset, conn)
    ensures remote.contents == Some(old(remote.contents.value) + local[offset..AppendedTo(local, offset, conn)])
  {
    ghost var partial := remote.contents.value;
    var done, writes := offset, 0;
    assert partial == partial + local[offset..offset];
    while done < |local|
      invariant offset <= done <= |local| && (done < |local| ==> done == offset + writes * RESUME_CHUNK)
      invariant remote.contents == Some(partial + local[offset..done])
      invariant AppendRaises(local, offset, conn) ==> writes <= conn.raisingWrite.value
      invariant writes * RESUME_CHUNK + offset >= done
    {
      var end := Min(done + RESUME_CHUNK, |local|);
      if conn.raisingWrite == Some(writes) {
        var landed := Min(done + Min(conn.torn, RESUME_CHUNK), |local|);
        AppendMore(partial, local, offset, done, landed);
        remote.contents := Some(remote.contents.value + local[done..landed]);
        return true;
      }
      AppendMore(partial, local, offset, done, end);
      remote.contents := Some(remote.contents.value + local[done..end]);
      done := end;
      writes := writes + 1;
    }
    return false;
  }

  lemma AppendMore(partial: seq<Byte>, local: seq<Byte>, offset: nat, done: nat, end: nat)
    requires offset <= done <= end <= |local|
    ensures partial + local[offset..done] + local[done..end] == partial + local[offset..end]
  {
    assert local[offset..done] + local[done..end] == local[offset..end];
  }

  // ---------------------------------------------------------------------
  // The upload
  // ---------------------------------------------------------------------

  /** `sftp.put`: all of the local file, or a failure that leaves anything. */
  function Fresh(local: seq<Byte>, conn: Connection, resumedSoFar: bool, restart: Restart): Result {
    match conn.putLeaves
    case None => Result(Report(true, |local|, false, restart), Some(local))
    case Some(left) => Result(FAILED.(resumed := resumedSoFar), left)
  }

  /** The size the call goes by: none when resuming is off or the file cannot be stat'ed. */
  function RemoteSize(remote: Option<seq<Byte>>, resume: bool, conn: Connection): Option<nat> {
    if resume && !conn.statFails && remote.Some? then Some(|remote.value|) else None
  }

  predicate Resumes(local: seq<Byte>, remote: Option<seq<Byte>>, resume: bool, conn: Connection) {
    RemoteSize(remote, resume, conn).Some? && 0 < |remote.value| < |local|
  }

  /** One call, for a local file that exists and a valid remote path. */
  function Uploaded(local: seq<Byte>, remote: Option<seq<Byte>>, resume: bool, conn: Connection): Result {
    if !Resumes(local, remote, resume, conn) then Fresh(local, conn, false, NoRestart)
    else
      var after := remote.value + local[|remote.value|..AppendedTo(local, |remote.value|, conn)];
      if AppendRaises(local, |remote.value|, conn) then Result(FAILED, Some(after))
      else if !conn.localHash || !conn.remoteHash then Fresh(local, conn, true, Unverifiable)
      else if after != local then Fresh(local, conn, true, Mismatch)
      else Result(Report(true, |local|, true, NoRestart), Some(after))
  }

  method Put(remote: RemoteFile, local: seq<Byte>, conn: Connection) returns (raised: bool)
    modifies remote
    ensures raised == conn.putLeaves.Some?
    ensures remote.contents == if raised then conn.putLeaves.value else Some(local)
  {
    if conn.putLeaves.Some? {
      remote.contents := conn.putLeaves.value;
      return true;
    }
    remote.contents := Some(local);
    return false;
  }

  /** `ssh_upload_file`. A missing local file or a bad remote path touches nothing. */
  method Upload(remote: RemoteFile, pathValid: bool, local: Option<seq<Byte>>, resume: bool, conn: Connection)
    returns (res: Report)
    modifies remote
    ensures !pathValid || local.None? ==> res == FAILED && remote.contents == old(remote.contents)
    ensures pathValid && local.Some? ==>
              Result(res, remote.contents) == Uploaded(local.value, old(remote.contents), resume, conn)
  {
    res := FAILED;
    if !pathValid || local.None? {
      return;
    }
    var file := local.value;
    var remoteSize: Option<nat> := None;
    if resume && !conn.statFails && remote.contents.Some? {
      remoteSize := Some(|remote.contents.value|);
    }
    if remoteSize.Some? && 0 < remoteSize.value < |file| {
      var raised := AppendTail(remote, file, remoteSize.value, conn);
      if raised {
        return;
      }
      res := res.(resumed := true);
      if !conn.localHash || !conn.remoteHash {
        raised := Put(remote, file, conn);
        if raised {
          return;
        }
        res := res.(resumed := false, restart := Unverifiable);
      } else if remote.contents != Some(file) {
        raised := Put(remote, file, conn);
        if raised {
          return;
        }
        res := res.(resumed := false, restart := Mismatch);
      }
    } else {
      var raised := Put(remote, file, conn);
      if raised {
        return;
      }
    }
    res := res.(ok := true, bytes := |file|);
  }

  // ---------------------------------------------------------------------
  // What a successful upload means
  // ---------------------------------------------------------------------

  lemma PrefixCompletes(partial: seq<Byte>, local: seq<Byte>)
    requires |partial| <= |local|
    ensures partial + local[|partial|..] == local <==> partial <= local
  {
    assert (partial + local[|partial|..])[..|partial|] == partial;
    assert local == local[..|partial|] + local[|partial|..];
  }

  /** Status ok means the remote file is the local one, whatever was there before; it was
    * resumed exactly when a proper non-empty prefix was there, was noticed and could be
    * verified, and it says why when a partial was given up. */
  lemma OkMeansIdentical(local: seq<Byte>, remote: Option<seq<Byte>>, resume: bool, conn: Connection)
    requires Uploaded(local, remote, resume, conn).report.ok
    ensures var r := Uploaded(local, remote, resume, conn);
            var usable := Resumes(local, remote, resume, conn);
            var verifiable := conn.localHash && conn.remoteHash;
            && r.remote == Some(local) && r.report.bytes == |local|
            && (r.report.resumed <==> usable && verifiable && remote.value <= local)
            && (r.report.restart == Unverifiable <==> usable && !verifiable)
            && (r.report.restart == Mismatch <==> usable && verifiable && !(remote.value <= local))
  {
    if Resumes(local, remote, resume, conn) {
      PrefixCompletes(remote.value, local);
      assert local[|remote.value|..|local|] == local[|remote.value|..];
    }
  }

  /** A partial file is used only when resuming is asked for, the remote file can be looked at
    * and is a proper, non-empty start in length; a call that does not puts the whole file. */
  lemma ResumesExactly(local: seq<Byte>, remote: Option<seq<Byte>>, resume: bool, conn: Connection)
    ensures var r := Uploaded(local, remote, resume, conn);
            var usable := resume && !conn.statFails && remote.Some? && 0 < |remote.value| < |local|;
            var completes := usable && !AppendRaises(local, |remote.value|, conn) && remote.value <= local;
            && (completes && conn.localHash && conn.remoteHash ==>
                  r == Result(Report(true, |local|, true, NoRestart), Some(local)))
            && (!usable ==>
                  r == match conn.putLeaves
                       case None => Result(Report(true, |local|, false, NoRestart), Some(local))
                       case Some(left) => Result(Report(false, 0, false, NoRestart), left))
  {
    if Resumes(local, remote, resume, conn) {
      PrefixCompletes(remote.value, local);
      assert local[|remote.value|..|local|] == local[|remote.value|..];
    }
  }

  /** A call succeeds exactly when nothing it needs raises. */
  lemma SucceedsExactly(local: seq<Byte>, remote: Option<seq<Byte>>, resume: bool, conn: Connection)
    ensures Uploaded(local, remote, resume, conn).report.ok <==>
            if Resumes(local, remote, resume, conn) then
              && !AppendRaises(local, |remote.value|, conn)
              && ((conn.localHash && conn.remoteHash && remote.value <= local) || conn.putLeaves.None?)
            else conn.putLeaves.None?
  {
    if Resumes(local, remote, resume, conn) {
      PrefixCompletes(remote.value, local);
      assert local[|remote.value|..|local|] == local[|remote.value|..];
    }
  }

  /** An append cut short leaves a prefix of the local file, no shorter than before, and a
    * longer one exactly when a write before the one that raised, or part of that one, landed. */
  lemma InterruptionKeepsPrefix(local: seq<Byte>, partial: seq<Byte>, conn: Connection)
    requires 0 < |partial| < |local| && partial <= local && !conn.statFails
    requires AppendRaises(local, |partial|, conn)
    ensures var r := Uploaded(local, Some(partial), true, conn);
            && !r.report.ok && r.remote.Some?
            && partial <= r.remote.value <= local
            && (|partial| < |r.remote.value| <==> conn.raisingWrite.value > 0 || conn.torn > 0)
  {
    var e := AppendedTo(local, |partial|, conn);
    assert partial + local[|partial|..e] == local[..e];
  }

  /** On a failed call the `resumed` flag says nothing: it stays set when a partial that
    * did not verify was to be replaced and that upload failed too. */
  lemma FlagSurvivesFailure(local: seq<Byte>, partial: seq<Byte>, conn: Connection, left: Option<seq<Byte>>)
    requires 0 < |partial| < |local| && !(partial <= local)
    requires !conn.statFails && conn.raisingWrite.None? && conn.putLeaves == Some(left)
    ensures var r := Uploaded(local, Some(partial), true, conn);
            !r.report.ok && r.report.resumed && r.remote == left
  {
    PrefixCompletes(partial, local);
    assert local[|partial|..|local|] == local[|partial|..];
  }
}
