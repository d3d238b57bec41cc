/**
  What every reachable state of the store protocol satisfies, and what a finished run may claim.
 */
module BlobSafety {
  import opened BlobNames
  import opened BlobProtocol

  /** The blob at `digest`, if any, is in `fs'` under the same inode with the same bytes. */
  ghost predicate BlobKept(cfg: Config, fs: FileSystem, fs': FileSystem, digest: string)
    requires IsDigest(digest)
  {
    var path := Destination(cfg.root, digest);
    path in fs.names ==>
      && path in fs'.names && fs'.names[path] == fs.names[path]
      && (fs.names[path].File? ==>
            var ino := fs.names[path].ino;
            ino in fs.data && ino in fs'.data && fs'.data[ino] == fs.data[ino])
  }

  /** Nothing at a derived path was altered, replaced or removed. */
  ghost predicate BlobsKept(cfg: Config, fs: FileSystem, fs': FileSystem) {
    forall digest | IsDigest(digest) :: BlobKept(cfg, fs, fs', digest)
  }

  ghost predicate StoredAt(cfg: Config, fs: FileSystem, digest: string, bytes: Bytes)
    requires IsDigest(digest)
  {
    var path := Destination(cfg.root, digest);
    && path in fs.names && fs.names[path].File?
    && fs.names[path].ino in fs.data && fs.data[fs.names[path].ino] == bytes
  }

  /** The path of `digest` holds an ordinary file whose bytes hash to `digest`. */
  ghost predicate GoodBlob(cfg: Config, fs: FileSystem, digest: string)
    requires IsHash(cfg) && IsDigest(digest)
  {
    var path := Destination(cfg.root, digest);
    && path in fs.names && fs.names[path].File? && fs.names[path].ino in fs.data
    && DigestOf(cfg, fs.data[fs.names[path].ino]) == digest
    && |fs.data[fs.names[path].ino]| <= MAXIMUM_BLOB_BYTES
  }

  /** The stored blob has the length and digest of what pass one measured. */
  ghost predicate Confirmed(cfg: Config, fs: FileSystem, measured: Bytes)
    requires IsHash(cfg)
  {
    var path := PathOf(cfg, measured);
    && path in fs.names && fs.names[path].File? && fs.names[path].ino in fs.data
    && SameIdentity(cfg, fs.data[fs.names[path].ino], measured)
  }

  ghost predicate ExistingFile(cfg: Config, fs: FileSystem, measured: Bytes)
    requires IsHash(cfg)
  {
    PathOf(cfg, measured) in fs.names && fs.names[PathOf(cfg, measured)].File?
  }

  /** The stored blob, within the limit, disagrees with its name or with the measured length. */
  ghost predicate Disagrees(cfg: Config, fs: FileSystem, measured: Bytes)
    requires IsHash(cfg)
  {
    var path := PathOf(cfg, measured);
    && path in fs.names && fs.names[path].File? && fs.names[path].ino in fs.data
    && |fs.data[fs.names[path].ino]| <= MAXIMUM_BLOB_BYTES && !SameIdentity(cfg, fs.data[fs.names[path].ino], measured)
  }

  predicate Owns(p: Run) {
    p.Copying? || p.OpeningStaged? || p.Remeasuring? || p.Classifying? || p.Linking? || p.Unlinking?
    || p.Reclassifying? || p.Discarding?
  }

  /** A run from creation to discarding is the only one that writes or removes its staged file. */
  ghost predicate OwnsStaged(cfg: Config, fs: FileSystem, p: Run)
    requires Owns(p)
  {
    && IsStagedShaped(cfg.root, p.staged)
    && p.staged in fs.names && fs.names[p.staged] == File(p.ino) && p.ino in fs.data
    && (p.Copying? ==> forall n | n in fs.names && n != p.staged :: fs.names[n] != File(p.ino))
  }

  /** The staged bytes have been proven to be what the identity names. */
  ghost predicate StagedVerified(cfg: Config, fs: FileSystem, measured: Bytes, ino: Inode)
    requires IsHash(cfg)
  {
    ino in fs.data && SameIdentity(cfg, fs.data[ino], measured) && |fs.data[ino]| <= MAXIMUM_BLOB_BYTES
  }

  ghost predicate Reading(fs: FileSystem, handle: Inode, seen: Bytes) {
    handle in fs.data && seen <= fs.data[handle]
  }

  ghost predicate BlobHandle(cfg: Config, fs: FileSystem, digest: string, handle: Inode) {
    && IsDigest(digest)
    && Destination(cfg.root, digest) in fs.names && fs.names[Destination(cfg.root, digest)] == File(handle)
  }

  ghost predicate BlobOfLength(cfg: Config, fs: FileSystem, digest: string, length: nat)
    requires IsHash(cfg)
  {
    && IsDigest(digest)
    && var path := Destination(cfg.root, digest);
    && path in fs.names && fs.names[path].File? && fs.names[path].ino in fs.data
    && DigestOf(cfg, fs.data[fs.names[path].ino]) == digest && |fs.data[fs.names[path].ino]| == length <= MAXIMUM_BLOB_BYTES
  }

  /** The stored blob is longer than any blob may be. */
  ghost predicate OversizedBlob(cfg: Config, fs: FileSystem, digest: string) {
    && IsDigest(digest)
    && var path := Destination(cfg.root, digest);
    && path in fs.names && fs.names[path].File? && fs.names[path].ino in fs.data
    && |fs.data[fs.names[path].ino]| > MAXIMUM_BLOB_BYTES
  }

  /** What stands at the path of the blob is no ordinary file. */
  ghost predicate NotAFile(cfg: Config, fs: FileSystem, digest: string) {
    IsDigest(digest) && Destination(cfg.root, digest) in fs.names && fs.names[Destination(cfg.root, digest)].NotRegular?
  }

  ghost predicate CorruptBlob(cfg: Config, fs: FileSystem, digest: string)
    requires IsHash(cfg)
  {
    && IsDigest(digest)
    && var path := Destination(cfg.root, digest);
    && path in fs.names && fs.names[path].File? && fs.names[path].ino in fs.data
    && |fs.data[fs.names[path].ino]| <= MAXIMUM_BLOB_BYTES && DigestOf(cfg, fs.data[fs.names[path].ino]) != digest
  }

  /** A blob that hashes to its name and has bytes to read. */
  ghost predicate NonemptyGoodBlob(cfg: Config, fs: FileSystem, digest: string)
    requires IsHash(cfg)
  {
    && IsDigest(digest)
    && var path := Destination(cfg.root, digest);
    && path in fs.names && fs.names[path].File? && fs.names[path].ino in fs.data
    && DigestOf(cfg, fs.data[fs.names[path].ino]) == digest && 0 < |fs.data[fs.names[path].ino]| <= MAXIMUM_BLOB_BYTES
  }

  /** Why a staged copy may be given up: something was wrong with it, or with what stands in its place. */
  ghost predicate DiscardReason(cfg: Config, fs: FileSystem, measured: Bytes, ino: Inode, why: BlobRejection)
    requires IsHash(cfg)
  {
    match why
    case StoreIoFailure => true
    case LimitExceeded => ino in fs.data && |fs.data[ino]| > MAXIMUM_BLOB_BYTES
    case StagedVerificationFailed =>
      ino in fs.data && |fs.data[ino]| <= MAXIMUM_BLOB_BYTES && !SameIdentity(cfg, fs.data[ino], measured)
    case UnsafePath => NotAFile(cfg, fs, DigestOf(cfg, measured))
    case _ => false
  }

  /** Why a get may be refused, as far as the file system still bears it out. */
  ghost predicate GetReason(cfg: Config, fs: FileSystem, digest: string, why: BlobRejection, pass: Pass)
    requires IsHash(cfg)
  {
    match why
    case InvalidDigest => !IsDigest(digest)
    case MissingBlob => IsDigest(digest)
    case UnsafePath => IsDigest(digest)
    case StoreIoFailure => IsDigest(digest)
    case LimitExceeded => OversizedBlob(cfg, fs, digest)
    case CorruptStoredBlob => if pass == Verifying then CorruptBlob(cfg, fs, digest) else NonemptyGoodBlob(cfg, fs, digest)
    case _ => false
  }

  /** What is known at each point of a run, and stays known whatever the others do. */
  ghost predicate RunOk(cfg: Config, fs: FileSystem, p: Run)
    requires IsHash(cfg)
  {
    && (Owns(p) ==> OwnsStaged(cfg, fs, p))
    && match p
       case Remeasuring(_, _, ino, handle, seen) => handle == ino && Reading(fs, handle, seen)
                                                    && |seen| <= MAXIMUM_BLOB_BYTES
       case Classifying(m, _, ino) => StagedVerified(cfg, fs, m, ino)
       case Linking(m, _, ino) => StagedVerified(cfg, fs, m, ino)
       case Reclassifying(m, _, ino) => StagedVerified(cfg, fs, m, ino) && PathOf(cfg, m) in fs.names
       case Unlinking(m, _, ino) => Confirmed(cfg, fs, m)
       case Discarding(m, _, ino, after) => match after {
         case ConfirmExisting => ExistingFile(cfg, fs, m)
         case Refuse(r) => DiscardReason(cfg, fs, m, ino, r)
       }
       case OpeningExisting(m) => ExistingFile(cfg, fs, m)
       case ConfirmingExisting(m, handle, seen) =>
         BlobHandle(cfg, fs, DigestOf(cfg, m), handle) && Reading(fs, handle, seen) && |seen| <= MAXIMUM_BLOB_BYTES
       case Published(m) => Confirmed(cfg, fs, m)
       case PutRefused(m, r) => r !in {InvalidDigest, MissingBlob} && (r == CorruptStoredBlob ==> Disagrees(cfg, fs, m))
       case VerifyingBlob(d, handle, seen) =>
         BlobHandle(cfg, fs, d, handle) && Reading(fs, handle, seen) && |seen| <= MAXIMUM_BLOB_BYTES
       case ReopeningBlob(d, length) => BlobOfLength(cfg, fs, d, length)
       case ReadingBlob(d, length, handle, seen) =>
         BlobOfLength(cfg, fs, d, length) && BlobHandle(cfg, fs, d, handle) && Reading(fs, handle, seen)
       case Fetched(d, bytes) => IsDigest(d) && DigestOf(cfg, bytes) == d && StoredAt(cfg, fs, d, bytes)
       case GetRefused(d, r, pass) => GetReason(cfg, fs, d, r, pass)
       case _ => true
  }

  ghost predicate Invariant(cfg: Config, fs0: FileSystem, s: System)
    requires IsHash(cfg)
  {
    && WellFormed(s.fs)
    && BlobsKept(cfg, fs0, s.fs)
    && (forall d | IsDigest(d) && Destination(cfg.root, d) in s.fs.names && Destination(cfg.root, d) !in fs0.names
          :: GoodBlob(cfg, s.fs, d))
    && (forall id | id in s.runs :: RunOk(cfg, s.fs, s.runs[id]))
    && (forall i, j | i in s.runs && j in s.runs && i != j && Owns(s.runs[i]) && Owns(s.runs[j])
          :: s.runs[i].staged != s.runs[j].staged)
  }

  /** Every effect a run has is confined to its own staged file and one new derived name. */
  ghost predicate Confined(cfg: Config, fs: FileSystem, p: Run, e: Effect)
    requires IsHash(cfg)
  {
    match e
    case Nothing => true
    case Create(name, _) => IsStagedShaped(cfg.root, name)
    case Append(ino, _) => p.Copying? && ino == p.ino
    case Link(source, target) => p.Linking? && source == p.staged && target == PathOf(cfg, p.measured)
    case Unlink(name) => (p.Unlinking? || p.Discarding?) && name == p.staged
  }

  lemma StepsAreConfined(cfg: Config, fs: FileSystem, p: Run, e: Effect, p': Run)
    requires IsHash(cfg) && RunStep(cfg, fs, p, e, p')
    ensures Confined(cfg, fs, p, e)
  {
    if p.CreatingStaged? {
      StagedNamesAreNeverDestinations(cfg.root, DigestOf(cfg, p.measured), DigestOf(cfg, p.measured),
                                      p.process, p.ordinal, p.attempt);
    }
  }

  lemma DestinationsAreNotStagedShaped(root: string, digest: string)
    requires IsDigest(digest)
    ensures !IsStagedShaped(root, Destination(root, digest))
  {
    StagedNamesAreNeverDestinations(root, digest, digest, 0, 0, 0);
  }

  /** No effect of any run touches what is already at a derived path. */
  lemma EffectsKeepBlobs(cfg: Config, fs: FileSystem, p: Run, e: Effect)
    requires IsHash(cfg) && WellFormed(fs) && RunOk(cfg, fs, p)
    requires Allowed(fs, e) && Confined(cfg, fs, p, e)
    ensures WellFormed(Perform(fs, e)) && BlobsKept(cfg, fs, Perform(fs, e))
  {
    forall digest | IsDigest(digest)
      ensures BlobKept(cfg, fs, Perform(fs, e), digest)
    {
      DestinationsAreNotStagedShaped(cfg.root, digest);
    }
  }

  /** What another run knows survives the effect. */
  lemma EffectsKeepOthers(cfg: Config, fs: FileSystem, p: Run, e: Effect, q: Run)
    requires IsHash(cfg) && WellFormed(fs) && RunOk(cfg, fs, p) && RunOk(cfg, fs, q)
    requires Allowed(fs, e) && Confined(cfg, fs, p, e)
    requires Owns(p) && Owns(q) ==> p.staged != q.staged
    ensures RunOk(cfg, Perform(fs, e), q)
  {
    EffectsKeepBlobs(cfg, fs, p, e);
    if IsPut(q) {
      EffectsKeepPut(cfg, fs, p, e, q);
    } else {
      EffectsKeepSettled(cfg, fs, p, e, q);
    }
  }

  lemma EffectsKeepPut(cfg: Config, fs: FileSystem, p: Run, e: Effect, q: Run)
    requires IsHash(cfg) && WellFormed(fs) && RunOk(cfg, fs, p) && RunOk(cfg, fs, q) && IsPut(q)
    requires Allowed(fs, e) && Confined(cfg, fs, p, e) && BlobsKept(cfg, fs, Perform(fs, e))
    requires Owns(p) && Owns(q) ==> p.staged != q.staged
    ensures RunOk(cfg, Perform(fs, e), q)
  {
    var fs' := Perform(fs, e);
    if Owns(q) {
      assert OwnsStaged(cfg, fs', q);
      assert fs'.data[q.ino] == fs.data[q.ino];
    }
    if !q.MeasuringSource? {
      assert BlobKept(cfg, fs, fs', DigestOf(cfg, q.measured));
    }
  }

  lemma EffectsKeepSettled(cfg: Config, fs: FileSystem, p: Run, e: Effect, q: Run)
    requires IsHash(cfg) && WellFormed(fs) && RunOk(cfg, fs, q) && !IsPut(q)
    requires Allowed(fs, e) && BlobsKept(cfg, fs, Perform(fs, e))
    ensures RunOk(cfg, Perform(fs, e), q)
  {
    var fs' := Perform(fs, e);
    match q
    case Published(m) => assert BlobKept(cfg, fs, fs', DigestOf(cfg, m));
    case PutRefused(m, _) => assert BlobKept(cfg, fs, fs', DigestOf(cfg, m));
    case VerifyingBlob(d, _, _) => assert BlobKept(cfg, fs, fs', d);
    case ReopeningBlob(d, _) => assert BlobKept(cfg, fs, fs', d);
    case ReadingBlob(d, _, _, _) => assert BlobKept(cfg, fs, fs', d);
    case Fetched(d, _) => assert BlobKept(cfg, fs, fs', d);
    case GetRefused(d, _, _) => if IsDigest(d) { assert BlobKept(cfg, fs, fs', d); }
    case _ =>
  }

  /** A read that reached the end has read the whole content. */
  lemma ReadToTheEnd(content: Bytes, seen: Bytes)
    requires seen <= content && EndOfFile(content, seen)
    ensures seen == content
  {
  }

  /** Staging, copying and the third pass keep what the run knows. */
  lemma StagingKeepsOwnRun(cfg: Config, fs: FileSystem, p: Run, e: Effect, p': Run)
    requires IsHash(cfg) && WellFormed(fs) && RunOk(cfg, fs, p)
    requires Allowed(fs, e) && RunStep(cfg, fs, p, e, p')
    requires p.CreatingStaged? || p.Copying? || p.OpeningStaged?
    ensures RunOk(cfg, Perform(fs, e), p')
  {
    StepsAreConfined(cfg, fs, p, e, p');
  }

  lemma RemeasuringKeepsOwnRun(cfg: Config, fs: FileSystem, p: Run, e: Effect, p': Run)
    requires IsHash(cfg) && WellFormed(fs) && RunOk(cfg, fs, p) && p.Remeasuring?
    requires RunStep(cfg, fs, p, e, p')
    ensures e == Nothing && RunOk(cfg, fs, p')
  {
    if EndOfFile(fs.data[p.handle], p.seen) { ReadToTheEnd(fs.data[p.handle], p.seen); }
  }

  lemma LinkingKeepsOwnRun(cfg: Config, fs: FileSystem, p: Run, e: Effect, p': Run)
    requires IsHash(cfg) && WellFormed(fs) && RunOk(cfg, fs, p) && p.Linking?
    requires Allowed(fs, e) && RunStep(cfg, fs, p, e, p')
    ensures RunOk(cfg, Perform(fs, e), p')
  {
    DestinationsAreNotStagedShaped(cfg.root, DigestOf(cfg, p.measured));
  }

  /** Removing the staged name never removes the blob's. */
  lemma RemovalKeepsOwnRun(cfg: Config, fs: FileSystem, p: Run, e: Effect, p': Run)
    requires IsHash(cfg) && WellFormed(fs) && RunOk(cfg, fs, p)
    requires Allowed(fs, e) && RunStep(cfg, fs, p, e, p')
    requires p.Unlinking? || p.Discarding?
    ensures RunOk(cfg, Perform(fs, e), p')
  {
    DestinationsAreNotStagedShaped(cfg.root, DigestOf(cfg, p.measured));
  }

  lemma ChoosingKeepsOwnRun(cfg: Config, fs: FileSystem, p: Run, e: Effect, p': Run)
    requires IsHash(cfg) && WellFormed(fs) && RunOk(cfg, fs, p)
    requires RunStep(cfg, fs, p, e, p')
    requires p.Classifying? || p.Reclassifying? || p.OpeningExisting? || p.MeasuringSource?
    ensures e == Nothing && RunOk(cfg, fs, p')
  {
  }

  lemma ConfirmingKeepsOwnRun(cfg: Config, fs: FileSystem, p: Run, e: Effect, p': Run)
    requires IsHash(cfg) && WellFormed(fs) && RunOk(cfg, fs, p) && p.ConfirmingExisting?
    requires RunStep(cfg, fs, p, e, p')
    ensures e == Nothing && RunOk(cfg, fs, p')
  {
    if EndOfFile(fs.data[p.handle], p.seen) { ReadToTheEnd(fs.data[p.handle], p.seen); }
  }

  lemma VerifyingKeepsOwnRun(cfg: Config, fs: FileSystem, p: Run, e: Effect, p': Run)
    requires IsHash(cfg) && WellFormed(fs) && RunOk(cfg, fs, p)
    requires RunStep(cfg, fs, p, e, p')
    requires p.Looking? || p.VerifyingBlob?
    ensures e == Nothing && RunOk(cfg, fs, p')
  {
    if p.VerifyingBlob? && EndOfFile(fs.data[p.handle], p.seen) {
      ReadToTheEnd(fs.data[p.handle], p.seen);
    }
  }

  lemma FetchingKeepsOwnRun(cfg: Config, fs: FileSystem, p: Run, e: Effect, p': Run)
    requires IsHash(cfg) && WellFormed(fs) && RunOk(cfg, fs, p)
    requires RunStep(cfg, fs, p, e, p')
    requires p.ReopeningBlob? || p.ReadingBlob?
    ensures e == Nothing && RunOk(cfg, fs, p')
  {
    if p.ReadingBlob? && |p.seen| == p.length {
      ReadToTheEnd(fs.data[p.handle], p.seen);
    }
  }

  /** The run that moved knows at its new point what that point promises. */
  lemma StepKeepsOwnRun(cfg: Config, fs: FileSystem, p: Run, e: Effect, p': Run)
    requires IsHash(cfg) && WellFormed(fs) && RunOk(cfg, fs, p)
    requires Allowed(fs, e) && RunStep(cfg, fs, p, e, p')
    ensures RunOk(cfg, Perform(fs, e), p')
  {
    if IsPut(p) {
      PutKeepsOwnRun(cfg, fs, p, e, p');
    } else if p.Looking? || p.VerifyingBlob? {
      VerifyingKeepsOwnRun(cfg, fs, p, e, p');
    } else {
      FetchingKeepsOwnRun(cfg, fs, p, e, p');
    }
  }

  predicate IsPut(p: Run) {
    || p.MeasuringSource? || p.CreatingStaged? || p.Copying? || p.OpeningStaged? || p.Remeasuring? || p.Classifying?
    || p.Linking? || p.Unlinking? || p.Reclassifying? || p.Discarding? || p.OpeningExisting? || p.ConfirmingExisting?
  }

  lemma PutKeepsOwnRun(cfg: Config, fs: FileSystem, p: Run, e: Effect, p': Run)
    requires IsHash(cfg) && WellFormed(fs) && RunOk(cfg, fs, p) && IsPut(p)
    requires Allowed(fs, e) && RunStep(cfg, fs, p, e, p')
    ensures RunOk(cfg, Perform(fs, e), p')
  {
    if p.CreatingStaged? || p.Copying? || p.OpeningStaged? {
      StagingKeepsOwnRun(cfg, fs, p, e, p');
    } else if p.Remeasuring? {
      RemeasuringKeepsOwnRun(cfg, fs, p, e, p');
    } else if p.Linking? {
      LinkingKeepsOwnRun(cfg, fs, p, e, p');
    } else if p.Unlinking? || p.Discarding? {
      RemovalKeepsOwnRun(cfg, fs, p, e, p');
    } else if p.ConfirmingExisting? {
      ConfirmingKeepsOwnRun(cfg, fs, p, e, p');
    } else {
      ChoosingKeepsOwnRun(cfg, fs, p, e, p');
    }
  }

  /** The one effect that adds a derived name adds a blob whose bytes hash to it. */
  lemma NewBlobsAreGood(cfg: Config, fs: FileSystem, p: Run, e: Effect, p': Run, digest: string)
    requires IsHash(cfg) && WellFormed(fs) && RunOk(cfg, fs, p) && IsDigest(digest)
    requires Allowed(fs, e) && RunStep(cfg, fs, p, e, p')
    requires Destination(cfg.root, digest) !in fs.names && Destination(cfg.root, digest) in Perform(fs, e).names
    ensures GoodBlob(cfg, Perform(fs, e), digest)
  {
    StepsAreConfined(cfg, fs, p, e, p');
    DestinationsAreNotStagedShaped(cfg.root, digest);
    assert p.Linking?;
    DestinationsAreInjective(cfg.root, digest, DigestOf(cfg, p.measured));
  }

  lemma BlobsKeptIsTransitive(cfg: Config, a: FileSystem, b: FileSystem, c: FileSystem)
    requires BlobsKept(cfg, a, b) && BlobsKept(cfg, b, c)
    ensures BlobsKept(cfg, a, c)
  {
    forall d | IsDigest(d) ensures BlobKept(cfg, a, c, d) {
      assert BlobKept(cfg, a, b, d) && BlobKept(cfg, b, c, d);
    }
  }

  lemma AdvanceKeepsInvariant(
    cfg: Config, fs0: FileSystem, s: System, id: nat, e: Effect, p': Run, s': System)
    requires IsHash(cfg) && Invariant(cfg, fs0, s) && Advances(cfg, s, id, e, p', s')
    ensures Invariant(cfg, fs0, s') && BlobsKept(cfg, s.fs, s'.fs)
  {
    var p := s.runs[id];
    StepsAreConfined(cfg, s.fs, p, e, p');
    EffectsKeepBlobs(cfg, s.fs, p, e);
    BlobsKeptIsTransitive(cfg, fs0, s.fs, s'.fs);
    forall d | IsDigest(d) && Destination(cfg.root, d) in s'.fs.names && Destination(cfg.root, d) !in fs0.names
      ensures GoodBlob(cfg, s'.fs, d)
    {
      if Destination(cfg.root, d) in s.fs.names {
        assert GoodBlob(cfg, s.fs, d) && BlobKept(cfg, s.fs, s'.fs, d);
      } else {
        NewBlobsAreGood(cfg, s.fs, p, e, p', d);
      }
    }
    forall j | j in s'.runs
      ensures RunOk(cfg, s'.fs, s'.runs[j])
    {
      if j == id {
        StepKeepsOwnRun(cfg, s.fs, p, e, p');
      } else {
        EffectsKeepOthers(cfg, s.fs, p, e, s.runs[j]);
      }
    }
    OwnersStayApart(cfg, fs0, s, id, e, p');
  }

  /** A run's staged name is fixed from its creation, and was no one's name before. */
  lemma StagedNameIsFixed(cfg: Config, fs: FileSystem, p: Run, e: Effect, p': Run)
    requires IsHash(cfg) && RunStep(cfg, fs, p, e, p') && Owns(p')
    ensures if Owns(p) then p'.staged == p.staged else p'.staged !in fs.names
  {
    if IsPut(p) {
      match p
      case CreatingStaged(_, _, _, _) =>
      case Copying(_, _, _, _) =>
      case Remeasuring(_, _, _, _, _) =>
      case _ =>
    }
  }

  lemma OwnersStayApart(cfg: Config, fs0: FileSystem, s: System, id: nat, e: Effect, p': Run)
    requires IsHash(cfg) && Invariant(cfg, fs0, s) && id in s.runs
    requires Allowed(s.fs, e) && RunStep(cfg, s.fs, s.runs[id], e, p')
    ensures forall j | j in s.runs && j != id && Owns(s.runs[j]) && Owns(p') :: s.runs[j].staged != p'.staged
  {
    if Owns(p') {
      StagedNameIsFixed(cfg, s.fs, s.runs[id], e, p');
      forall j | j in s.runs && j != id && Owns(s.runs[j])
        ensures s.runs[j].staged != p'.staged
      {
        assert OwnsStaged(cfg, s.fs, s.runs[j]);
      }
    }
  }

  /** A new run and an interrupted run own nothing, so they change nothing others rely on. */
  lemma OwnerlessRunKeepsInvariant(cfg: Config, fs0: FileSystem, s: System, id: nat, p: Run)
    requires IsHash(cfg) && Invariant(cfg, fs0, s) && (Start(p) || p == Interrupted)
    ensures Invariant(cfg, fs0, s.(runs := s.runs[id := p]))
  {
    assert RunOk(cfg, s.fs, p);
  }

  /** Every step of the system keeps the invariant and every blob. */
  lemma StepKeepsInvariant(cfg: Config, fs0: FileSystem, s: System, s': System)
    requires IsHash(cfg) && Invariant(cfg, fs0, s) && Step(cfg, s, s')
    ensures Invariant(cfg, fs0, s') && BlobsKept(cfg, s.fs, s'.fs)
  {
    if id: nat, e: Effect, p': Run :| Advances(cfg, s, id, e, p', s') {
      AdvanceKeepsInvariant(cfg, fs0, s, id, e, p', s');
    } else if id: nat, p: Run :| id !in s.runs && Start(p) && s' == s.(runs := s.runs[id := p]) {
      OwnerlessRunKeepsInvariant(cfg, fs0, s, id, p);
      BlobsKeptIsReflexive(cfg, s.fs);
    } else {
      var id: nat :| id in s.runs && s' == s.(runs := s.runs[id := Interrupted]);
      OwnerlessRunKeepsInvariant(cfg, fs0, s, id, Interrupted);
      BlobsKeptIsReflexive(cfg, s.fs);
    }
  }

  lemma BlobsKeptIsReflexive(cfg: Config, fs: FileSystem)
    requires WellFormed(fs)
    ensures BlobsKept(cfg, fs, fs)
  {
  }

  lemma {:induction false} HistoryKeepsInvariant(cfg: Config, history: seq<System>, k: nat)
    requires IsHash(cfg) && IsHistory(cfg, history) && k < |history|
    ensures Invariant(cfg, history[0].fs, history[k])
  {
    if k == 0 {
      assert BlobsKept(cfg, history[0].fs, history[0].fs);
    } else {
      HistoryKeepsInvariant(cfg, history, k - 1);
      StepKeepsInvariant(cfg, history[0].fs, history[k - 1], history[k]);
    }
  }

  /**
    Immutability: between any two moments of any history, no file at a derived path is altered,
    replaced or removed, whatever it held before the history began.
   */
  lemma {:induction false} BlobsAreImmutable(cfg: Config, history: seq<System>, i: nat, j: nat)
    requires IsHash(cfg) && IsHistory(cfg, history) && i <= j < |history|
    ensures BlobsKept(cfg, history[i].fs, history[j].fs)
    decreases j - i
  {
    HistoryKeepsInvariant(cfg, history, i);
    if i < j {
      StepKeepsInvariant(cfg, history[0].fs, history[i], history[i + 1]);
      BlobsAreImmutable(cfg, history, i + 1, j);
      BlobsKeptIsTransitive(cfg, history[i].fs, history[i + 1].fs, history[j].fs);
    } else {
      assert BlobsKept(cfg, history[i].fs, history[i].fs);
    }
  }

  /** The store holds, at every derived path, an ordinary file whose bytes hash to that path. */
  ghost predicate SoundStore(cfg: Config, fs: FileSystem)
    requires IsHash(cfg)
  {
    forall d | IsDigest(d) && Destination(cfg.root, d) in fs.names :: GoodBlob(cfg, fs, d)
  }

  /** Safety: a store that starts sound is sound at every moment of every history. */
  lemma StoreStaysSound(cfg: Config, history: seq<System>, k: nat)
    requires IsHash(cfg) && IsHistory(cfg, history) && k < |history|
    requires SoundStore(cfg, history[0].fs)
    ensures SoundStore(cfg, history[k].fs)
  {
    HistoryKeepsInvariant(cfg, history, k);
    forall d | IsDigest(d) && Destination(cfg.root, d) in history[k].fs.names
      ensures GoodBlob(cfg, history[k].fs, d)
    {
      if Destination(cfg.root, d) in history[0].fs.names {
        assert GoodBlob(cfg, history[0].fs, d) && BlobKept(cfg, history[0].fs, history[k].fs, d);
      }
    }
  }

  /** A blob that appears during a history is good, even in a store that already held bad ones. */
  lemma OnlyGoodBlobsAppear(cfg: Config, history: seq<System>, k: nat, digest: string)
    requires IsHash(cfg) && IsHistory(cfg, history) && k < |history| && IsDigest(digest)
    requires Destination(cfg.root, digest) !in history[0].fs.names
    requires Destination(cfg.root, digest) in history[k].fs.names
    ensures GoodBlob(cfg, history[k].fs, digest)
  {
    HistoryKeepsInvariant(cfg, history, k);
  }

  /**
    A `put` that reported success left, under the digest of what it measured, a file of that digest
    and length, and the file is still there at every later moment.
   */
  lemma PublishedBlobsStay(cfg: Config, history: seq<System>, i: nat, j: nat, id: nat)
    requires IsHash(cfg) && IsHistory(cfg, history) && i <= j < |history|
    requires id in history[i].runs && history[i].runs[id].Published?
    ensures Confirmed(cfg, history[j].fs, history[i].runs[id].measured)
  {
    var m := history[i].runs[id].measured;
    HistoryKeepsInvariant(cfg, history, i);
    assert RunOk(cfg, history[i].fs, history[i].runs[id]);
    BlobsAreImmutable(cfg, history, i, j);
    assert BlobKept(cfg, history[i].fs, history[j].fs, DigestOf(cfg, m));
  }

  /** A `get` returns exactly the bytes stored under the digest it was asked for. */
  lemma FetchedBytesAreTheBlob(cfg: Config, history: seq<System>, i: nat, j: nat, id: nat)
    requires IsHash(cfg) && IsHistory(cfg, history) && i <= j < |history|
    requires id in history[i].runs && history[i].runs[id].Fetched?
    ensures IsDigest(history[i].runs[id].digest)
    ensures DigestOf(cfg, history[i].runs[id].bytes) == history[i].runs[id].digest
    ensures StoredAt(cfg, history[j].fs, history[i].runs[id].digest, history[i].runs[id].bytes)
  {
    HistoryKeepsInvariant(cfg, history, i);
    assert RunOk(cfg, history[i].fs, history[i].runs[id]);
    BlobsAreImmutable(cfg, history, i, j);
    assert BlobKept(cfg, history[i].fs, history[j].fs, history[i].runs[id].digest);
  }

  /**
    Corruption is never the protocol's own doing: while verifying, a `get` reports it only for a
    blob that was already wrong before the history began.
   */
  lemma GetBlamesOnlyOldCorruption(cfg: Config, history: seq<System>, k: nat, id: nat)
    requires IsHash(cfg) && IsHistory(cfg, history) && k < |history|
    requires id in history[k].runs && history[k].runs[id].GetRefused?
    requires history[k].runs[id].rejection == CorruptStoredBlob && history[k].runs[id].pass == Verifying
    ensures CorruptBlob(cfg, history[0].fs, history[k].runs[id].digest)
  {
    var d := history[k].runs[id].digest;
    HistoryKeepsInvariant(cfg, history, k);
    assert RunOk(cfg, history[k].fs, history[k].runs[id]);
    if Destination(cfg.root, d) in history[0].fs.names {
      assert BlobKept(cfg, history[0].fs, history[k].fs, d);
    }
  }

  /** The verdicts verification can reach once it has read the whole blob. */
  predicate VerificationVerdict(p: Run) {
    p.ReopeningBlob? || (p.GetRefused? && p.rejection == CorruptStoredBlob)
  }

  /** The verdicts of the second read. */
  predicate ReadVerdict(p: Run) {
    p.Fetched? || (p.GetRefused? && p.rejection == CorruptStoredBlob)
  }

  /**
    When verification reaches a verdict, the verdict is corruption exactly when the blob disagreed
    with its name from the start.
   */
  lemma VerifyingBlamesExactlyOldCorruption(cfg: Config, history: seq<System>, k: nat, id: nat, e: Effect, p': Run)
    requires IsHash(cfg) && IsHistory(cfg, history) && k + 1 < |history|
    requires Advances(cfg, history[k], id, e, p', history[k + 1])
    requires history[k].runs[id].VerifyingBlob? && VerificationVerdict(p')
    ensures p'.GetRefused? <==> CorruptBlob(cfg, history[0].fs, history[k].runs[id].digest)
  {
    var p := history[k].runs[id];
    HistoryKeepsInvariant(cfg, history, k);
    assert RunOk(cfg, history[k].fs, p);
    ReadToTheEnd(history[k].fs.data[p.handle], p.seen);
    if Destination(cfg.root, p.digest) in history[0].fs.names {
      assert BlobKept(cfg, history[0].fs, history[k].fs, p.digest);
    } else {
      assert GoodBlob(cfg, history[k].fs, p.digest);
    }
  }

  /**
    The second read blames a blob that is good: it reports corruption exactly when it fell short of
    the verified length, which no change of the blob ever causes.
   */
  lemma ReadingBlamesExactlyAShortRead(cfg: Config, history: seq<System>, k: nat, id: nat, e: Effect, p': Run)
    requires IsHash(cfg) && IsHistory(cfg, history) && k + 1 < |history|
    requires Advances(cfg, history[k], id, e, p', history[k + 1])
    requires history[k].runs[id].ReadingBlob? && ReadVerdict(p')
    ensures p'.GetRefused? <==> |history[k].runs[id].seen| < history[k].runs[id].length
    ensures BlobOfLength(cfg, history[k + 1].fs, history[k].runs[id].digest, history[k].runs[id].length)
  {
    var p := history[k].runs[id];
    HistoryKeepsInvariant(cfg, history, k);
    assert RunOk(cfg, history[k].fs, p);
    if |p.seen| == p.length {
      ReadToTheEnd(history[k].fs.data[p.handle], p.seen);
    }
  }

  /** The blob of a `get` whose second read reported corruption was good at every moment it existed. */
  lemma RereadBlamesOnlyAGoodBlob(cfg: Config, history: seq<System>, k: nat, id: nat)
    requires IsHash(cfg) && IsHistory(cfg, history) && k < |history|
    requires id in history[k].runs && history[k].runs[id].GetRefused?
    requires history[k].runs[id].rejection == CorruptStoredBlob && history[k].runs[id].pass == Rereading
    ensures NonemptyGoodBlob(cfg, history[k].fs, history[k].runs[id].digest)
    ensures Destination(cfg.root, history[k].runs[id].digest) in history[0].fs.names
            ==> NonemptyGoodBlob(cfg, history[0].fs, history[k].runs[id].digest)
  {
    HistoryKeepsInvariant(cfg, history, k);
    assert RunOk(cfg, history[k].fs, history[k].runs[id]);
    assert BlobKept(cfg, history[0].fs, history[k].fs, history[k].runs[id].digest);
  }

  /** Two byte strings of one digest and different lengths. */
  ghost predicate Collide(cfg: Config, left: Bytes, right: Bytes)
    requires IsHash(cfg)
  {
    |left| != |right| && DigestOf(cfg, left) == DigestOf(cfg, right)
  }

  /** A `put` reports a corrupt blob only for an old one, or on exhibiting a hash collision. */
  lemma PutBlamesOldCorruptionOrACollision(cfg: Config, history: seq<System>, k: nat, id: nat)
    requires IsHash(cfg) && IsHistory(cfg, history) && k < |history|
    requires id in history[k].runs && history[k].runs[id].PutRefused?
    requires history[k].runs[id].rejection == CorruptStoredBlob
    ensures || Disagrees(cfg, history[0].fs, history[k].runs[id].measured)
            || exists stored: Bytes :: Collide(cfg, stored, history[k].runs[id].measured)
  {
    var m := history[k].runs[id].measured;
    HistoryKeepsInvariant(cfg, history, k);
    assert RunOk(cfg, history[k].fs, history[k].runs[id]);
    var path := PathOf(cfg, m);
    if path in history[0].fs.names {
      assert BlobKept(cfg, history[0].fs, history[k].fs, DigestOf(cfg, m));
    } else {
      assert GoodBlob(cfg, history[k].fs, DigestOf(cfg, m));
      var stored := history[k].fs.data[history[k].fs.names[path].ino];
      assert Collide(cfg, stored, m);
    }
  }

  /** The run has finished pass one, so its blob's path is settled. */
  predicate HasMeasured(p: Run) {
    (IsPut(p) && !p.MeasuringSource?) || p.Published? || p.PutRefused?
  }

  ghost predicate SameDestinations(cfg: Config, fs: FileSystem, fs': FileSystem) {
    forall d | IsDigest(d) :: Destination(cfg.root, d) in fs.names <==> Destination(cfg.root, d) in fs'.names
  }

  /** A put whose path was taken at some earlier moment never adds a destination, or removes one. */
  lemma TakenPathAddsNoDestination(
    cfg: Config, history: seq<System>, i: nat, j: nat, id: nat, e: Effect, p': Run)
    requires IsHash(cfg) && IsHistory(cfg, history) && i <= j && j + 1 < |history|
    requires Advances(cfg, history[j], id, e, p', history[j + 1]) && HasMeasured(history[j].runs[id])
    requires PathOf(cfg, history[j].runs[id].measured) in history[i].fs.names
    ensures SameDestinations(cfg, history[j].fs, history[j + 1].fs)
  {
    var p := history[j].runs[id];
    BlobsAreImmutable(cfg, history, i, j);
    assert BlobKept(cfg, history[i].fs, history[j].fs, DigestOf(cfg, p.measured));
    StepsAreConfined(cfg, history[j].fs, p, e, p');
    HistoryKeepsInvariant(cfg, history, j);
    assert RunOk(cfg, history[j].fs, p);
    forall d | IsDigest(d)
      ensures Destination(cfg.root, d) in history[j].fs.names <==> Destination(cfg.root, d) in history[j + 1].fs.names
    {
      DestinationsAreNotStagedShaped(cfg.root, d);
    }
  }
}
