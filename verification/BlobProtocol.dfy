/**
  The blob store as a step machine: any number of `put` and `get` runs over one file system of
  names, inodes and bytes. Each step is one system call of one run (short reads and short writes
  included), so every interleaving, every interruption between two calls, and every change of a
  source between two reads is a behaviour of this machine.
 */
module BlobProtocol {
  import opened BlobNames

  type Byte = b: int | 0 <= b < 256
  type Bytes = seq<Byte>
  type Inode = nat

  const MAXIMUM_BLOB_BYTES := 16_777_216
  const STAGING_COLLISION_RETRIES := 4

  /** The store's root and the hash, of which only the shape of its result is known. */
  datatype Config = Config(root: string, hash: Bytes -> string)

  ghost predicate IsHash(cfg: Config) {
    forall b :: |cfg.hash(b)| == DIGEST_HEX_LENGTH && IsHexText(cfg.hash(b))
  }

  ghost function DigestOf(cfg: Config, bytes: Bytes): (digest: string)
    requires IsHash(cfg)
    ensures IsDigest(digest)
  {
    var digest := DIGEST_PREFIX + cfg.hash(bytes);
    assert digest[|DIGEST_PREFIX|..] == cfg.hash(bytes);
    digest
  }

  /** The path of the blob that holds these bytes. */
  ghost function PathOf(cfg: Config, bytes: Bytes): string
    requires IsHash(cfg)
  {
    Destination(cfg.root, DigestOf(cfg, bytes))
  }

  // A name leads to an ordinary file's inode, or to something a run must refuse.
  datatype Node = File(ino: Inode) | NotRegular

  // `link` gives one inode two names, so names and contents are separate maps.
  datatype FileSystem = FileSystem(names: map<string, Node>, data: map<Inode, Bytes>)

  predicate WellFormed(fs: FileSystem) {
    forall n | n in fs.names && fs.names[n].File? :: fs.names[n].ino in fs.data
  }

  /** What one system call does to the file system. */
  datatype Effect =
    | Nothing
    | Create(name: string, ino: Inode)
    | Append(ino: Inode, bytes: Bytes)
    | Link(source: string, target: string)
    | Unlink(name: string)

  /** `O_EXCL` and `link` refuse an existing name: the kernel allows exactly these effects. */
  predicate Allowed(fs: FileSystem, e: Effect) {
    match e
    case Nothing => true
    case Create(name, ino) => name !in fs.names && ino !in fs.data
    case Append(ino, _) => ino in fs.data
    case Link(source, target) => source in fs.names && target !in fs.names
    case Unlink(name) => name in fs.names
  }

  function Perform(fs: FileSystem, e: Effect): FileSystem
    requires Allowed(fs, e)
  {
    match e
    case Nothing => fs
    case Create(name, ino) => FileSystem(fs.names[name := File(ino)], fs.data[ino := []])
    case Append(ino, bytes) => fs.(data := fs.data[ino := fs.data[ino] + bytes])
    case Link(source, target) => fs.(names := fs.names[target := fs.names[source]])
    case Unlink(name) => fs.(names := fs.names - {name})
  }

  // What a run still does once its staged file is gone.
  datatype After = Refuse(rejection: BlobRejection) | ConfirmExisting

  // Which of a get's two reads of a blob a refusal comes from.
  datatype Pass = Verifying | Rereading

  /** Where a run stands. `measured` is what pass one read, and so what the blob is named after. */
  datatype Run =
    // put: pass one
    | MeasuringSource(seen: Bytes)
    | CreatingStaged(measured: Bytes, process: nat, ordinal: nat, attempt: nat)
    // put: pass two
    | Copying(measured: Bytes, staged: string, ino: Inode, pending: Bytes)
    // put: pass three
    | OpeningStaged(measured: Bytes, staged: string, ino: Inode)
    | Remeasuring(measured: Bytes, staged: string, ino: Inode, handle: Inode, seen: Bytes)
    | Classifying(measured: Bytes, staged: string, ino: Inode)
    | Linking(measured: Bytes, staged: string, ino: Inode)
    | Unlinking(measured: Bytes, staged: string, ino: Inode)
    | Reclassifying(measured: Bytes, staged: string, ino: Inode)
    | Discarding(measured: Bytes, staged: string, ino: Inode, after: After)
    | OpeningExisting(measured: Bytes)
    | ConfirmingExisting(measured: Bytes, handle: Inode, seen: Bytes)
    | Published(measured: Bytes)
    | PutRefused(measured: Bytes, rejection: BlobRejection)
    // get
    | Looking(digest: string)
    | VerifyingBlob(digest: string, handle: Inode, seen: Bytes)
    | ReopeningBlob(digest: string, length: nat)
    | ReadingBlob(digest: string, length: nat, handle: Inode, seen: Bytes)
    | Fetched(digest: string, bytes: Bytes)
    | GetRefused(digest: string, rejection: BlobRejection, pass: Pass)
    | Interrupted

  /** A read at the current offset that returned something. */
  predicate ReadMore(content: Bytes, seen: Bytes, seen': Bytes) {
    |seen| < |seen'| <= |content| && seen' == seen + content[|seen|..|seen'|]
  }

  predicate EndOfFile(content: Bytes, seen: Bytes) {
    |content| <= |seen|
  }

  /** The length and digest comparison of `confirmStoredContent`. */
  ghost predicate SameIdentity(cfg: Config, observed: Bytes, expected: Bytes)
    requires IsHash(cfg)
  {
    |observed| == |expected| && DigestOf(cfg, observed) == DigestOf(cfg, expected)
  }

  /** One system call of one run: from `p` to `p'`, doing `e` to the file system it observes. */
  ghost predicate RunStep(cfg: Config, fs: FileSystem, p: Run, e: Effect, p': Run)
    requires IsHash(cfg)
  {
    match p
    case MeasuringSource(_) => MeasureSourceStep(p, e, p')
    case CreatingStaged(_, _, _, _) => CreateStep(cfg, fs, p, e, p')
    case Copying(_, _, _, _) => CopyStep(p, e, p')
    case OpeningStaged(m, staged, ino) =>
      && e == Nothing
      && (|| (staged in fs.names && fs.names[staged].File? && p' == Remeasuring(m, staged, ino, fs.names[staged].ino, []))
          || p' == Discarding(m, staged, ino, Refuse(StoreIoFailure)))
    case Remeasuring(_, _, _, _, _) => RemeasureStep(cfg, fs, p, e, p')
    case Classifying(m, staged, ino) =>
      var destination := PathOf(cfg, m);
      && e == Nothing
      && (|| p' == (if destination !in fs.names then Linking(m, staged, ino)
                    else if fs.names[destination].File? then Discarding(m, staged, ino, ConfirmExisting)
                    else Discarding(m, staged, ino, Refuse(UnsafePath)))
          || p' == Discarding(m, staged, ino, Refuse(StoreIoFailure)))
    case Linking(m, staged, ino) =>
      var destination := PathOf(cfg, m);
      || (destination !in fs.names && e == Link(staged, destination) && p' == Unlinking(m, staged, ino))
      || (destination in fs.names && e == Nothing && p' == Reclassifying(m, staged, ino))
      || (e == Nothing && p' == Discarding(m, staged, ino, Refuse(StoreIoFailure)))
    case Unlinking(m, staged, ino) =>
      || (e == Unlink(staged) && p' == Published(m))
      || (e == Nothing && p' == Discarding(m, staged, ino, Refuse(StoreIoFailure)))
    case Reclassifying(m, staged, ino) =>
      var destination := PathOf(cfg, m);
      && e == Nothing
      && (|| p' == (if destination in fs.names && fs.names[destination].File?
                    then Discarding(m, staged, ino, ConfirmExisting)
                    else Discarding(m, staged, ino, Refuse(UnsafePath)))
          || p' == Discarding(m, staged, ino, Refuse(StoreIoFailure)))
    case Discarding(m, staged, _, after) =>
      && (e == Unlink(staged) || e == Nothing)
      && p' == match after { case Refuse(r) => PutRefused(m, r) case ConfirmExisting => OpeningExisting(m) }
    case OpeningExisting(m) =>
      var destination := PathOf(cfg, m);
      && e == Nothing
      && (|| (&& destination in fs.names && fs.names[destination].File?
              && p' == ConfirmingExisting(m, fs.names[destination].ino, []))
          || p' == PutRefused(m, StoreIoFailure))
    case ConfirmingExisting(_, _, _) => ConfirmStep(cfg, fs, p, e, p')
    case Looking(_) => LookStep(cfg, fs, p, e, p')
    case VerifyingBlob(_, _, _) => VerifyStep(cfg, fs, p, e, p')
    case ReopeningBlob(d, length) =>
      && e == Nothing && IsDigest(d)
      && var path := Destination(cfg.root, d);
      (|| (path in fs.names && fs.names[path].File? && p' == ReadingBlob(d, length, fs.names[path].ino, []))
       || p' == GetRefused(d, StoreIoFailure, Rereading))
    case ReadingBlob(_, _, _, _) => ReadBlobStep(cfg, fs, p, e, p')
    case _ => false
  }

  /** Each read of a source returns whatever the source holds at that moment. */
  predicate MeasureSourceStep(p: Run, e: Effect, p': Run)
    requires p.MeasuringSource?
  {
    && e == Nothing
    && (|| (p'.MeasuringSource? && p.seen < p'.seen && |p'.seen| <= MAXIMUM_BLOB_BYTES)
        || (p'.CreatingStaged? && p'.measured == p.seen && p'.attempt == 0)
        || (p'.PutRefused? && p'.rejection in {SourceNotPermitted, LimitExceeded, UnsafePath, StoreIoFailure}))
  }

  /** Exclusive creation under a fresh suffix, with four retries after a collision. */
  ghost predicate CreateStep(cfg: Config, fs: FileSystem, p: Run, e: Effect, p': Run)
    requires IsHash(cfg) && p.CreatingStaged?
  {
    var name := StagedName(cfg.root, DigestOf(cfg, p.measured), p.process, p.ordinal, p.attempt);
    || (name !in fs.names && e.Create? && e.name == name && p' == Copying(p.measured, name, e.ino, []))
    || (&& name in fs.names && e == Nothing
        && if p.attempt == STAGING_COLLISION_RETRIES then p' == PutRefused(p.measured, StagingCollision)
           else p'.CreatingStaged? && p'.measured == p.measured && p'.process == p.process
                && p'.ordinal > p.ordinal && p'.attempt == p.attempt + 1)
    || (e == Nothing && p' == PutRefused(p.measured, StoreIoFailure))
  }

  /** Read a chunk of the source again, write it in as many pieces as the kernel takes, close. */
  predicate CopyStep(p: Run, e: Effect, p': Run)
    requires p.Copying?
  {
    || (&& p.pending == [] && e == Nothing
        && p'.Copying? && p'.pending != [] && p' == p.(pending := p'.pending))
    || (p.pending == [] && e == Nothing && p' == OpeningStaged(p.measured, p.staged, p.ino))
    || (&& e.Append? && e.ino == p.ino && e.bytes != [] && e.bytes <= p.pending
        && p' == p.(pending := p.pending[|e.bytes|..]))
    || (e == Nothing && p' == Discarding(p.measured, p.staged, p.ino, Refuse(StoreIoFailure)))
  }

  ghost predicate RemeasureStep(cfg: Config, fs: FileSystem, p: Run, e: Effect, p': Run)
    requires IsHash(cfg) && p.Remeasuring?
  {
    && e == Nothing && p.handle in fs.data
    && var content := fs.data[p.handle];
    (|| (&& p'.Remeasuring? && p' == Remeasuring(p.measured, p.staged, p.ino, p.handle, p'.seen)
         && ReadMore(content, p.seen, p'.seen) && |p'.seen| <= MAXIMUM_BLOB_BYTES)
     || (|content| > MAXIMUM_BLOB_BYTES && p' == Discarding(p.measured, p.staged, p.ino, Refuse(LimitExceeded)))
     || (&& EndOfFile(content, p.seen)
         && p' == if SameIdentity(cfg, p.seen, p.measured) then Classifying(p.measured, p.staged, p.ino)
                  else Discarding(p.measured, p.staged, p.ino, Refuse(StagedVerificationFailed)))
     || p' == Discarding(p.measured, p.staged, p.ino, Refuse(StoreIoFailure)))
  }

  ghost predicate ConfirmStep(cfg: Config, fs: FileSystem, p: Run, e: Effect, p': Run)
    requires IsHash(cfg) && p.ConfirmingExisting?
  {
    && e == Nothing && p.handle in fs.data
    && var content := fs.data[p.handle];
    (|| (&& p'.ConfirmingExisting? && p' == ConfirmingExisting(p.measured, p.handle, p'.seen)
         && ReadMore(content, p.seen, p'.seen) && |p'.seen| <= MAXIMUM_BLOB_BYTES)
     || (|content| > MAXIMUM_BLOB_BYTES && p' == PutRefused(p.measured, LimitExceeded))
     || (&& EndOfFile(content, p.seen)
         && p' == if SameIdentity(cfg, p.seen, p.measured) then Published(p.measured)
                  else PutRefused(p.measured, CorruptStoredBlob))
     || p' == PutRefused(p.measured, StoreIoFailure))
  }

  ghost predicate LookStep(cfg: Config, fs: FileSystem, p: Run, e: Effect, p': Run)
    requires IsHash(cfg) && p.Looking?
  {
    && e == Nothing
    && if !IsDigest(p.digest) then p' == GetRefused(p.digest, InvalidDigest, Verifying) else
       var path := Destination(cfg.root, p.digest);
       || (path !in fs.names && p' == GetRefused(p.digest, MissingBlob, Verifying))
       || (path in fs.names && fs.names[path].NotRegular? && p' == GetRefused(p.digest, UnsafePath, Verifying))
       || (path in fs.names && fs.names[path].File? && p' == VerifyingBlob(p.digest, fs.names[path].ino, []))
       || p' == GetRefused(p.digest, UnsafePath, Verifying)   // a directory above it was replaced
       || p' == GetRefused(p.digest, StoreIoFailure, Verifying)
  }

  ghost predicate VerifyStep(cfg: Config, fs: FileSystem, p: Run, e: Effect, p': Run)
    requires IsHash(cfg) && p.VerifyingBlob?
  {
    && e == Nothing && p.handle in fs.data
    && var content := fs.data[p.handle];
    (|| (&& p'.VerifyingBlob? && p' == VerifyingBlob(p.digest, p.handle, p'.seen)
         && ReadMore(content, p.seen, p'.seen) && |p'.seen| <= MAXIMUM_BLOB_BYTES)
     || (|content| > MAXIMUM_BLOB_BYTES && p' == GetRefused(p.digest, LimitExceeded, Verifying))
     || (&& EndOfFile(content, p.seen)
         && p' == if DigestOf(cfg, p.seen) == p.digest then ReopeningBlob(p.digest, |p.seen|)
                  else GetRefused(p.digest, CorruptStoredBlob, Verifying))
     || p' == GetRefused(p.digest, StoreIoFailure, Verifying))
  }

  /**
    The second read asks for exactly the verified length and hashes what it got. Getting less is
    reported as corruption, whether the file ended or the read failed.
   */
  ghost predicate ReadBlobStep(cfg: Config, fs: FileSystem, p: Run, e: Effect, p': Run)
    requires IsHash(cfg) && p.ReadingBlob?
  {
    && e == Nothing && p.handle in fs.data
    && var content := fs.data[p.handle];
    (|| (&& p'.ReadingBlob? && p' == ReadingBlob(p.digest, p.length, p.handle, p'.seen)
         && ReadMore(content, p.seen, p'.seen) && |p'.seen| <= p.length)
     || (|p.seen| < p.length && p' == GetRefused(p.digest, CorruptStoredBlob, Rereading))
     || (&& |p.seen| == p.length
         && (|| p' == (if DigestOf(cfg, p.seen) == p.digest then Fetched(p.digest, p.seen)
                       else GetRefused(p.digest, CorruptStoredBlob, Rereading))
             || p' == GetRefused(p.digest, StoreIoFailure, Rereading))))
  }

  /** The whole system: one file system and every run that was ever started, by its number. */
  datatype System = System(fs: FileSystem, runs: map<nat, Run>)

  predicate Start(p: Run) {
    p == MeasuringSource([]) || p.Looking?
  }

  ghost predicate Advances(cfg: Config, s: System, id: nat, e: Effect, p': Run, s': System)
    requires IsHash(cfg)
  {
    && id in s.runs && Allowed(s.fs, e) && RunStep(cfg, s.fs, s.runs[id], e, p')
    && s' == System(Perform(s.fs, e), s.runs[id := p'])
  }

  /** A run starts, one run makes one system call, or one run is interrupted for good. */
  ghost predicate Step(cfg: Config, s: System, s': System)
    requires IsHash(cfg)
  {
    || (exists id: nat, p: Run :: id !in s.runs && Start(p) && s' == s.(runs := s.runs[id := p]))
    || (exists id: nat, e: Effect, p': Run :: Advances(cfg, s, id, e, p', s'))
    || (exists id: nat :: id in s.runs && s' == s.(runs := s.runs[id := Interrupted]))
  }

  /** A history from any file system, whatever earlier runs left in it. */
  ghost predicate IsHistory(cfg: Config, history: seq<System>)
    requires IsHash(cfg)
  {
    && |history| > 0
    && WellFormed(history[0].fs) && history[0].runs == map[]
    && forall k | 0 <= k < |history| - 1 :: Step(cfg, history[k], history[k + 1])
  }
}
