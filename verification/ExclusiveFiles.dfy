/**
  The file operations the blob store is built from: exclusive creation, the write loop, and
  publication without replacement. What the kernel answers is given from outside.
 */
module ExclusiveFiles {
  import opened Options
  import opened BlobProtocol

  datatype Status = Ok | OwnershipCollision | IoFailure

  /** One answer of `write`: this many bytes taken, a signal before any, or an error. */
  datatype WriteAnswer = Took(count: nat) | Signal | Error

  class Disk {
    var fs: FileSystem

    constructor (fs: FileSystem)
      ensures this.fs == fs
    {
      this.fs := fs;
    }

    method Do(e: Effect)
      requires Allowed(fs, e)
      modifies this
      ensures fs == Perform(old(fs), e)
    {
      fs := Perform(fs, e);
    }
  }

  /** How far a write came, and how it ended if it did. */
  datatype WriteEnd = WriteEnd(written: nat, status: Option<Status>)

  /** How many bytes these answers take of a write of `size`, and how it ends; nothing when they run out. */
  function Written(answers: seq<WriteAnswer>, written: nat, size: nat): WriteEnd
    requires written <= size
    decreases |answers|
  {
    if written == size then WriteEnd(written, Some(Ok))
    else if answers == [] then WriteEnd(written, None)
    else
      match answers[0]
      case Signal => Written(answers[1..], written, size)
      case Error => WriteEnd(written, Some(IoFailure))
      case Took(count) =>
        if count == 0 then WriteEnd(written, Some(IoFailure))
        else Written(answers[1..], written + Least(count, size - written), size)
  }

  /** The kernel takes no more than it is given. */
  function Least(a: nat, b: nat): nat {
    if a < b then a else b
  }

  lemma {:induction false} WrittenInFull(answers: seq<WriteAnswer>, written: nat, size: nat)
    requires written <= size
    ensures written <= Written(answers, written, size).written <= size
    ensures Written(answers, written, size).status == Some(Ok) <==> Written(answers, written, size).written == size
    decreases |answers|
  {
    if written < size && answers != [] {
      match answers[0]
      case Signal => WrittenInFull(answers[1..], written, size);
      case Error =>
      case Took(count) =>
        if count > 0 {
          WrittenInFull(answers[1..], written + Least(count, size - written), size);
        }
    }
  }

  /** A file system whose one file has grown. */
  function Grown(fs: FileSystem, ino: Inode, bytes: Bytes): FileSystem
    requires ino in fs.data
  {
    FileSystem(fs.names, fs.data[ino := fs.data[ino] + bytes])
  }

  lemma AppendMore(fs: FileSystem, ino: Inode, first: Bytes, second: Bytes)
    requires ino in fs.data
    ensures Perform(Grown(fs, ino, first), Append(ino, second)) == Grown(fs, ino, first + second)
  {
    assert fs.data[ino] + first + second == fs.data[ino] + (first + second);
  }

  lemma GrownByNothing(fs: FileSystem, ino: Inode, bytes: Bytes)
    requires ino in fs.data
    ensures Grown(fs, ino, bytes[..0]) == fs
  {
    assert fs.data[ino] + bytes[..0] == fs.data[ino];
    assert fs.data[ino := fs.data[ino]] == fs.data;
  }

  class ExclusiveFile {
    const disk: Disk
    var handle: Option<Inode>

    constructor (disk: Disk)
      ensures this.disk == disk && handle == None
    {
      this.disk := disk;
      handle := None;
    }

    /** An existing name is a collision, whatever it names; only a new file is ever opened. */
    method Create(path: string, ino: Inode, fails: bool) returns (status: Status)
      requires ino !in disk.fs.data
      modifies this, disk
      ensures status == if old(handle.Some?) then IoFailure
                        else if path in old(disk.fs).names then OwnershipCollision
                        else if fails then IoFailure else Ok
      ensures status == Ok ==> disk.fs == Perform(old(disk.fs), BlobProtocol.Effect.Create(path, ino)) && handle == Some(ino)
      ensures status != Ok ==> disk.fs == old(disk.fs) && handle == old(handle)
    {
      if handle.Some? {
        return IoFailure;
      }
      if path in disk.fs.names {
        return OwnershipCollision;
      }
      if fails {
        return IoFailure;
      }
      disk.Do(BlobProtocol.Effect.Create(path, ino));
      handle := Some(ino);
      return Ok;
    }

    /** The file this handle writes, and the only thing `Write` may change. */
    ghost predicate Appended(before: FileSystem, bytes: Bytes)
      reads this, disk
    {
      handle.Some? && handle.value in before.data && disk.fs == Grown(before, handle.value, bytes)
    }

    /**
      Short writes are continued and signals retried. The file grows by a prefix of the bytes, by
      all of them exactly when the write succeeds; no status means stopped before the end.
     */
    method Write(bytes: Bytes, answers: seq<WriteAnswer>) returns (status: Option<Status>)
      requires handle.Some? ==> handle.value in disk.fs.data
      modifies disk
      ensures handle.None? ==> status == Some(IoFailure) && disk.fs == old(disk.fs)
      ensures handle.Some? ==> status == Written(answers, 0, |bytes|).status
      ensures handle.Some? ==>
                var n := Written(answers, 0, |bytes|).written;
                n <= |bytes| && Appended(old(disk.fs), bytes[..n]) && (status == Some(Ok) <==> n == |bytes|)
    {
      WrittenInFull(answers, 0, |bytes|);
      if handle.None? {
        return Some(IoFailure);
      }
      ghost var total := Written(answers, 0, |bytes|);
      assert bytes[..total.written] <= bytes;
      var written, k := 0, 0;
      GrownByNothing(disk.fs, handle.value, bytes);
      while written < |bytes|
        invariant 0 <= written <= |bytes| && 0 <= k <= |answers|
        invariant Written(answers[k..], written, |bytes|) == total
        invariant Appended(old(disk.fs), bytes[..written])
        decreases |answers| - k
      {
        if k == |answers| {
          return None;
        }
        assert answers[k..][0] == answers[k] && answers[k..][1..] == answers[k + 1..];
        var answer := answers[k];
        k := k + 1;
        if answer == Signal {
          continue;
        }
        if answer == Error || answer.count == 0 {
          return Some(IoFailure);
        }
        var count := Least(answer.count, |bytes| - written);
        assert bytes[..written] + bytes[written..written + count] == bytes[..written + count];
        AppendMore(old(disk.fs), handle.value, bytes[..written], bytes[written..written + count]);
        disk.Do(Append(handle.value, bytes[written..written + count]));
        written := written + count;
      }
      return Some(Ok);
    }

    /** The handle is gone whatever the kernel answers. */
    method Close(fails: bool) returns (status: Status)
      modifies this`handle
      ensures handle == None && status == if old(handle.Some?) && fails then IoFailure else Ok
    {
      if handle.None? {
        return Ok;
      }
      handle := None;
      return if fails then IoFailure else Ok;
    }
  }

  /**
    The staged file gains its second name only where there is none, and then loses its first. What
    was at the destination is never replaced, and no contents change.
   */
  method PublishWithoutReplacement(disk: Disk, staged: string, destination: string, linkFails: bool, unlinkFails: bool)
    returns (status: Status)
    modifies disk
    ensures disk.fs.data == old(disk.fs.data)
    ensures destination in old(disk.fs.names) ==> disk.fs == old(disk.fs) && status != Ok
    ensures status == OwnershipCollision <==> staged in old(disk.fs.names) && destination in old(disk.fs.names)
    ensures status == Ok <==>
              staged in old(disk.fs.names) && destination !in old(disk.fs.names) && !linkFails && !unlinkFails
    ensures status == Ok ==>
              && staged in old(disk.fs.names) && destination !in old(disk.fs.names)
              && disk.fs.names == old(disk.fs.names)[destination := old(disk.fs.names)[staged]] - {staged}
    ensures status == IoFailure ==>
              if staged in old(disk.fs.names) && destination !in old(disk.fs.names) && !linkFails
              then disk.fs.names == old(disk.fs.names)[destination := old(disk.fs.names)[staged]]
              else disk.fs == old(disk.fs)
  {
    if staged !in disk.fs.names || linkFails {
      return if destination in disk.fs.names && staged in disk.fs.names then OwnershipCollision else IoFailure;
    }
    if destination in disk.fs.names {
      return OwnershipCollision;
    }
    disk.Do(Link(staged, destination));
    if unlinkFails {
      return IoFailure;
    }
    disk.Do(Unlink(staged));
    return Ok;
  }
}
