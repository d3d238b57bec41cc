/**
  The store is not safe by never storing: a put that nothing disturbs publishes its source, a second
  put of it changes nothing, and a get can call a good blob corrupt.
 */
module BlobProgress {
  import opened BlobNames
  import opened BlobProtocol
  import opened BlobSafety

  function Last(history: seq<System>): System
    requires history != []
  {
    history[|history| - 1]
  }

  /** A history from the first file system to the second, with this one run in it. */
  ghost predicate Leads(cfg: Config, history: seq<System>, from: FileSystem, fs: FileSystem, p: Run)
    requires IsHash(cfg)
  {
    IsHistory(cfg, history) && history[0] == System(from, map[]) && Last(history) == System(fs, map[0 := p])
  }

  lemma OneStepOn(cfg: Config, history: seq<System>, next: System) returns (longer: seq<System>)
    requires IsHash(cfg) && IsHistory(cfg, history) && Step(cfg, Last(history), next)
    ensures IsHistory(cfg, longer) && Last(longer) == next && longer[0] == history[0]
  {
    longer := history + [next];
    forall k | 0 <= k < |longer| - 1 ensures Step(cfg, longer[k], longer[k + 1]) {
      if k < |history| - 1 {
        assert longer[k] == history[k] && longer[k + 1] == history[k + 1];
      }
    }
  }

  /** One system call of the run. */
  lemma Call(cfg: Config, history: seq<System>, from: FileSystem, fs: FileSystem, p: Run, e: Effect, p': Run) returns (longer: seq<System>)
    requires IsHash(cfg) && Leads(cfg, history, from, fs, p)
    requires Allowed(fs, e) && RunStep(cfg, fs, p, e, p')
    ensures Leads(cfg, longer, from, Perform(fs, e), p')
  {
    var s := Last(history);
    var next := System(Perform(fs, e), map[0 := p']);
    assert s.runs[0 := p'] == next.runs;
    assert Advances(cfg, s, 0, e, p', next);
    longer := OneStepOn(cfg, history, next);
  }

  lemma StartPut(cfg: Config, fs: FileSystem) returns (history: seq<System>)
    requires IsHash(cfg) && WellFormed(fs)
    ensures Leads(cfg, history, fs, fs, MeasuringSource([]))
  {
    var s := System(fs, map[]);
    var next := System(fs, map[0 := MeasuringSource([])]);
    assert s.runs[0 := MeasuringSource([])] == next.runs;
    assert 0 !in s.runs && Start(MeasuringSource([])) && next == s.(runs := s.runs[0 := MeasuringSource([])]);
    assert Step(cfg, s, next);
    history := OneStepOn(cfg, [s], next);
  }

  /** The file system once the staged copy is written. */
  function WithStaged(fs: FileSystem, name: string, ino: Inode, bytes: Bytes): FileSystem {
    FileSystem(fs.names[name := File(ino)], fs.data[ino := bytes])
  }

  /** Pass one measures the source, and pass two copies what it then holds. */
  lemma StageCopy(cfg: Config, fs: FileSystem, measured: Bytes, copied: Bytes, process: nat, ordinal: nat, ino: Inode)
    returns (history: seq<System>, name: string)
    requires IsHash(cfg) && WellFormed(fs) && |measured| <= MAXIMUM_BLOB_BYTES && ino !in fs.data
    requires StagedName(cfg.root, DigestOf(cfg, measured), process, ordinal, 0) !in fs.names
    ensures name == StagedName(cfg.root, DigestOf(cfg, measured), process, ordinal, 0)
    ensures Leads(cfg, history, fs, WithStaged(fs, name, ino, copied), OpeningStaged(measured, name, ino))
  {
    name := StagedName(cfg.root, DigestOf(cfg, measured), process, ordinal, 0);
    history := Measure(cfg, fs, measured, process, ordinal);
    history := Call(cfg, history, fs, fs, CreatingStaged(measured, process, ordinal, 0), Create(name, ino),
                    Copying(measured, name, ino, []));
    history := CopyAll(cfg, history, fs, fs, measured, copied, name, ino);
  }

  lemma Measure(cfg: Config, fs: FileSystem, measured: Bytes, process: nat, ordinal: nat) returns (history: seq<System>)
    requires IsHash(cfg) && WellFormed(fs) && |measured| <= MAXIMUM_BLOB_BYTES
    ensures Leads(cfg, history, fs, fs, CreatingStaged(measured, process, ordinal, 0))
  {
    history := StartPut(cfg, fs);
    if measured != [] {
      history := Call(cfg, history, fs, fs, MeasuringSource([]), Nothing, MeasuringSource(measured));
    }
    history := Call(cfg, history, fs, fs, MeasuringSource(measured), Nothing, CreatingStaged(measured, process, ordinal, 0));
  }

  lemma CopyAll(
    cfg: Config, before: seq<System>, from: FileSystem, fs: FileSystem, measured: Bytes, bytes: Bytes, name: string, ino: Inode)
    returns (history: seq<System>)
    requires IsHash(cfg) && Leads(cfg, before, from, WithStaged(fs, name, ino, []), Copying(measured, name, ino, []))
    ensures Leads(cfg, history, from, WithStaged(fs, name, ino, bytes), OpeningStaged(measured, name, ino))
  {
    history := before;
    var empty := WithStaged(fs, name, ino, []);
    if bytes != [] {
      history := Call(cfg, history, from, empty, Copying(measured, name, ino, []), Nothing, Copying(measured, name, ino, bytes));
      history := Call(cfg, history, from, empty, Copying(measured, name, ino, bytes), Append(ino, bytes), Copying(measured, name, ino, []));
      assert [] + bytes == bytes;
      assert empty.data[ino := bytes] == fs.data[ino := bytes];
    }
    history := Call(cfg, history, from, WithStaged(fs, name, ino, bytes), Copying(measured, name, ino, []), Nothing,
                    OpeningStaged(measured, name, ino));
  }

  /** Pass three reads the staged copy back. */
  lemma ReadStaged(
    cfg: Config, before: seq<System>, from: FileSystem, fs: FileSystem, measured: Bytes, copied: Bytes, name: string, ino: Inode)
    returns (history: seq<System>)
    requires IsHash(cfg) && |copied| <= MAXIMUM_BLOB_BYTES
    requires name in fs.names && fs.names[name] == File(ino) && ino in fs.data && fs.data[ino] == copied
    requires Leads(cfg, before, from, fs, OpeningStaged(measured, name, ino))
    ensures Leads(cfg, history, from, fs, Remeasuring(measured, name, ino, ino, copied))
  {
    history := Call(cfg, before, from, fs, OpeningStaged(measured, name, ino), Nothing, Remeasuring(measured, name, ino, ino, []));
    if copied != [] {
      assert [] + copied[0..|copied|] == copied;
      history := Call(cfg, history, from, fs, Remeasuring(measured, name, ino, ino, []), Nothing,
                      Remeasuring(measured, name, ino, ino, copied));
    }
  }

  /** The staged copy is found to be what was measured. */
  lemma VerifyStaged(cfg: Config, before: seq<System>, from: FileSystem, fs: FileSystem, bytes: Bytes, name: string, ino: Inode)
    returns (history: seq<System>)
    requires IsHash(cfg) && |bytes| <= MAXIMUM_BLOB_BYTES
    requires name in fs.names && fs.names[name] == File(ino) && ino in fs.data && fs.data[ino] == bytes
    requires Leads(cfg, before, from, fs, OpeningStaged(bytes, name, ino))
    ensures Leads(cfg, history, from, fs, Classifying(bytes, name, ino))
  {
    history := ReadStaged(cfg, before, from, fs, bytes, bytes, name, ino);
    history := Call(cfg, history, from, fs, Remeasuring(bytes, name, ino, ino, bytes), Nothing, Classifying(bytes, name, ino));
  }

  lemma Publish(cfg: Config, before: seq<System>, from: FileSystem, fs: FileSystem, bytes: Bytes, name: string, ino: Inode)
    returns (history: seq<System>, after: FileSystem)
    requires IsHash(cfg) && name in fs.names && fs.names[name] == File(ino) && ino in fs.data && fs.data[ino] == bytes
    requires PathOf(cfg, bytes) !in fs.names && PathOf(cfg, bytes) != name
    requires Leads(cfg, before, from, fs, Classifying(bytes, name, ino))
    ensures Leads(cfg, history, from, after, Published(bytes)) && name !in after.names
    ensures PathOf(cfg, bytes) in after.names && after.names[PathOf(cfg, bytes)] == File(ino) && after.data == fs.data
  {
    var path := PathOf(cfg, bytes);
    history := Call(cfg, before, from, fs, Classifying(bytes, name, ino), Nothing, Linking(bytes, name, ino));
    history := Call(cfg, history, from, fs, Linking(bytes, name, ino), Link(name, path), Unlinking(bytes, name, ino));
    var linked := Perform(fs, Link(name, path));
    history := Call(cfg, history, from, linked, Unlinking(bytes, name, ino), Unlink(name), Published(bytes));
    after := Perform(linked, Unlink(name));
  }

  /**
    From any store without this blob, for any source within the limit, some history publishes it:
    the blob's path then leads to exactly the source's bytes, and the staged name is gone.
   */
  lemma PutCanSucceed(cfg: Config, fs: FileSystem, bytes: Bytes, process: nat, ordinal: nat, ino: Inode)
    returns (history: seq<System>, after: FileSystem)
    requires IsHash(cfg) && WellFormed(fs) && |bytes| <= MAXIMUM_BLOB_BYTES && ino !in fs.data
    requires PathOf(cfg, bytes) !in fs.names
    requires StagedName(cfg.root, DigestOf(cfg, bytes), process, ordinal, 0) !in fs.names
    ensures Leads(cfg, history, fs, after, Published(bytes))
    ensures PathOf(cfg, bytes) in after.names && after.names[PathOf(cfg, bytes)] == File(ino)
    ensures ino in after.data && after.data[ino] == bytes
    ensures StagedName(cfg.root, DigestOf(cfg, bytes), process, ordinal, 0) !in after.names
  {
    var digest := DigestOf(cfg, bytes);
    var staging, name := StageCopy(cfg, fs, bytes, bytes, process, ordinal, ino);
    StagedNamesAreNeverDestinations(cfg.root, digest, digest, process, ordinal, 0);
    var staged := WithStaged(fs, name, ino, bytes);
    var verified := VerifyStaged(cfg, staging, fs, staged, bytes, name, ino);
    history, after := Publish(cfg, verified, fs, staged, bytes, name, ino);
  }

  /** The path is taken: the staged copy goes, and the blob already there is opened instead. */
  lemma OpenInstead(cfg: Config, before: seq<System>, from: FileSystem, fs: FileSystem, bytes: Bytes, name: string, ino: Inode)
    returns (history: seq<System>)
    requires IsHash(cfg) && name in fs.names && PathOf(cfg, bytes) != name && ExistingFile(cfg, fs, bytes)
    requires Leads(cfg, before, from, fs, Classifying(bytes, name, ino))
    ensures Leads(cfg, history, from, Perform(fs, Unlink(name)), ConfirmingExisting(bytes, fs.names[PathOf(cfg, bytes)].ino, []))
  {
    var handle := fs.names[PathOf(cfg, bytes)].ino;
    var after := Perform(fs, Unlink(name));
    history := Call(cfg, before, from, fs, Classifying(bytes, name, ino), Nothing, Discarding(bytes, name, ino, ConfirmExisting));
    history := Call(cfg, history, from, fs, Discarding(bytes, name, ino, ConfirmExisting), Unlink(name), OpeningExisting(bytes));
    history := Call(cfg, history, from, after, OpeningExisting(bytes), Nothing, ConfirmingExisting(bytes, handle, []));
  }

  lemma ReadExisting(cfg: Config, before: seq<System>, from: FileSystem, fs: FileSystem, bytes: Bytes, handle: Inode)
    returns (history: seq<System>)
    requires IsHash(cfg) && handle in fs.data && |fs.data[handle]| <= MAXIMUM_BLOB_BYTES
    requires Leads(cfg, before, from, fs, ConfirmingExisting(bytes, handle, []))
    ensures Leads(cfg, history, from, fs, ConfirmingExisting(bytes, handle, fs.data[handle]))
  {
    history := before;
    var stored := fs.data[handle];
    if stored != [] {
      assert [] + stored[0..|stored|] == stored;
      history := Call(cfg, history, from, fs, ConfirmingExisting(bytes, handle, []), Nothing, ConfirmingExisting(bytes, handle, stored));
    }
  }

  lemma ConfirmInstead(cfg: Config, before: seq<System>, from: FileSystem, fs: FileSystem, bytes: Bytes, name: string, ino: Inode)
    returns (history: seq<System>)
    requires IsHash(cfg) && |bytes| <= MAXIMUM_BLOB_BYTES && name in fs.names && PathOf(cfg, bytes) != name
    requires Confirmed(cfg, fs, bytes)
    requires Leads(cfg, before, from, fs, Classifying(bytes, name, ino))
    ensures Leads(cfg, history, from, Perform(fs, Unlink(name)), Published(bytes))
  {
    var handle := fs.names[PathOf(cfg, bytes)].ino;
    var after := Perform(fs, Unlink(name));
    history := OpenInstead(cfg, before, from, fs, bytes, name, ino);
    history := ReadExisting(cfg, history, from, after, bytes, handle);
    history := Call(cfg, history, from, after, ConfirmingExisting(bytes, handle, fs.data[handle]), Nothing, Published(bytes));
  }

  /**
    Idempotence: from any store that already holds this content, some history of a second put of
    the same bytes ends in success with the names, and so every destination, as they were, and
    with the bytes of every file as they were.
   */
  lemma PutIsIdempotent(cfg: Config, fs: FileSystem, bytes: Bytes, process: nat, ordinal: nat, ino: Inode)
    returns (history: seq<System>, after: FileSystem)
    requires IsHash(cfg) && WellFormed(fs) && |bytes| <= MAXIMUM_BLOB_BYTES && ino !in fs.data
    requires Confirmed(cfg, fs, bytes)
    requires StagedName(cfg.root, DigestOf(cfg, bytes), process, ordinal, 0) !in fs.names
    ensures Leads(cfg, history, fs, after, Published(bytes))
    ensures after.names == fs.names && SameDestinations(cfg, fs, after) && BlobsKept(cfg, fs, after)
    ensures forall i | i in fs.data :: i in after.data && after.data[i] == fs.data[i]
  {
    var staging, name := StageCopy(cfg, fs, bytes, bytes, process, ordinal, ino);
    StagedNamesAreNeverDestinations(cfg.root, DigestOf(cfg, bytes), DigestOf(cfg, bytes), process, ordinal, 0);
    var staged := WithStaged(fs, name, ino, bytes);
    var verified := VerifyStaged(cfg, staging, fs, staged, bytes, name, ino);
    history := ConfirmInstead(cfg, verified, fs, staged, bytes, name, ino);
    after := Perform(staged, Unlink(name));
    assert after.names == fs.names;
    BlobsAreImmutable(cfg, history, 0, |history| - 1);
  }

  lemma StartGet(cfg: Config, fs: FileSystem, digest: string) returns (history: seq<System>)
    requires IsHash(cfg) && WellFormed(fs)
    ensures Leads(cfg, history, fs, fs, Looking(digest))
  {
    var s := System(fs, map[]);
    var next := System(fs, map[0 := Looking(digest)]);
    assert s.runs[0 := Looking(digest)] == next.runs;
    assert 0 !in s.runs && Start(Looking(digest)) && next == s.(runs := s.runs[0 := Looking(digest)]);
    assert Step(cfg, s, next);
    history := OneStepOn(cfg, [s], next);
  }

  /** The content a get of this digest should return. */
  ghost predicate HoldsGood(cfg: Config, fs: FileSystem, digest: string, bytes: Bytes)
    requires IsHash(cfg)
  {
    IsDigest(digest) && StoredAt(cfg, fs, digest, bytes) && DigestOf(cfg, bytes) == digest && |bytes| <= MAXIMUM_BLOB_BYTES
  }

  /** Verification of a good blob, and its second opening. */
  lemma VerifyGood(cfg: Config, fs: FileSystem, digest: string, bytes: Bytes) returns (history: seq<System>, handle: Inode)
    requires IsHash(cfg) && WellFormed(fs) && HoldsGood(cfg, fs, digest, bytes)
    ensures handle in fs.data && fs.data[handle] == bytes
    ensures Leads(cfg, history, fs, fs, ReadingBlob(digest, |bytes|, handle, []))
  {
    handle := fs.names[Destination(cfg.root, digest)].ino;
    history := StartGet(cfg, fs, digest);
    history := Call(cfg, history, fs, fs, Looking(digest), Nothing, VerifyingBlob(digest, handle, []));
    if bytes != [] {
      assert [] + bytes[0..|bytes|] == bytes;
      history := Call(cfg, history, fs, fs, VerifyingBlob(digest, handle, []), Nothing, VerifyingBlob(digest, handle, bytes));
    }
    history := Call(cfg, history, fs, fs, VerifyingBlob(digest, handle, bytes), Nothing, ReopeningBlob(digest, |bytes|));
    history := Call(cfg, history, fs, fs, ReopeningBlob(digest, |bytes|), Nothing, ReadingBlob(digest, |bytes|, handle, []));
  }

  /** A get of a good blob returns its bytes in some history. */
  lemma GetCanSucceed(cfg: Config, fs: FileSystem, digest: string, bytes: Bytes) returns (history: seq<System>)
    requires IsHash(cfg) && WellFormed(fs) && HoldsGood(cfg, fs, digest, bytes)
    ensures Leads(cfg, history, fs, fs, Fetched(digest, bytes))
  {
    var handle;
    history, handle := VerifyGood(cfg, fs, digest, bytes);
    if bytes != [] {
      assert [] + bytes[0..|bytes|] == bytes;
      history := Call(cfg, history, fs, fs, ReadingBlob(digest, |bytes|, handle, []), Nothing,
                      ReadingBlob(digest, |bytes|, handle, bytes));
    }
    history := Call(cfg, history, fs, fs, ReadingBlob(digest, |bytes|, handle, bytes), Nothing, Fetched(digest, bytes));
  }

  /** The history starts from this file system, and one of its gets of the digest ends refused for this reason. */
  ghost predicate GetEndsIn(cfg: Config, history: seq<System>, fs: FileSystem, digest: string, why: BlobRejection, id: nat)
    requires IsHash(cfg)
  {
    && IsHistory(cfg, history) && history[0] == System(fs, map[])
    && id in Last(history).runs && Last(history).runs[id].GetRefused?
    && Last(history).runs[id].digest == digest && Last(history).runs[id].rejection == why
  }

  ghost predicate GetCanEndIn(cfg: Config, fs: FileSystem, digest: string, why: BlobRejection)
    requires IsHash(cfg)
  {
    exists history: seq<System>, id: nat :: GetEndsIn(cfg, history, fs, digest, why, id)
  }

  /** A good blob can be reported as corrupt, whatever runs beside it, exactly when it has bytes to read. */
  lemma GoodBlobCalledCorrupt(cfg: Config, fs: FileSystem, digest: string, bytes: Bytes)
    requires IsHash(cfg) && WellFormed(fs) && HoldsGood(cfg, fs, digest, bytes)
    ensures GetCanEndIn(cfg, fs, digest, CorruptStoredBlob) <==> bytes != []
  {
    if bytes != [] {
      var history, handle := VerifyGood(cfg, fs, digest, bytes);
      history := Call(cfg, history, fs, fs, ReadingBlob(digest, |bytes|, handle, []), Nothing,
                      GetRefused(digest, CorruptStoredBlob, Rereading));
      assert GetEndsIn(cfg, history, fs, digest, CorruptStoredBlob, 0);
    }
    forall history: seq<System>, id: nat | GetEndsIn(cfg, history, fs, digest, CorruptStoredBlob, id)
      ensures bytes != []
    {
      var k := |history| - 1;
      if history[k].runs[id].pass == Verifying {
        GetBlamesOnlyOldCorruption(cfg, history, k, id);
      } else {
        RereadBlamesOnlyAGoodBlob(cfg, history, k, id);
      }
    }
  }
}
