/**
  Why the store says no: for every reason, exactly when some history of a run ends with it, and what
  must have been so for a run to end with it.
 */
module BlobRefusals {
  import opened BlobNames
  import opened BlobProtocol
  import opened BlobSafety
  import opened BlobProgress

  // ---- the call that ended a run

  predicate Ended(p: Run) {
    p.Published? || p.PutRefused? || p.Fetched? || p.GetRefused?
  }

  lemma OneStepOfARun(cfg: Config, s: System, s': System, id: nat)
    requires IsHash(cfg) && Step(cfg, s, s') && id in s'.runs && Ended(s'.runs[id])
    ensures id in s.runs
    ensures s.runs[id] == s'.runs[id] || exists e :: Advances(cfg, s, id, e, s'.runs[id], s')
  {
    if j: nat, e: Effect, p': Run :| Advances(cfg, s, j, e, p', s') {
      if j == id {
        assert s'.runs[id] == p';
      }
    } else if j: nat, p: Run :| j !in s.runs && Start(p) && s' == s.(runs := s.runs[j := p]) {
    } else {
      var j: nat :| j in s.runs && s' == s.(runs := s.runs[j := Interrupted]);
    }
  }

  /** A run that ended made a last call, and that call ended it. */
  lemma {:induction false} LastCall(cfg: Config, history: seq<System>, k: nat, id: nat) returns (j: nat, e: Effect)
    requires IsHash(cfg) && IsHistory(cfg, history) && k < |history|
    requires id in history[k].runs && Ended(history[k].runs[id])
    ensures j < k && id in history[j].runs && RunOk(cfg, history[j].fs, history[j].runs[id])
    ensures Advances(cfg, history[j], id, e, history[k].runs[id], history[j + 1])
    decreases k
  {
    assert k > 0;
    assert Step(cfg, history[k - 1], history[k]);
    OneStepOfARun(cfg, history[k - 1], history[k], id);
    if history[k - 1].runs[id] == history[k].runs[id] {
      j, e := LastCall(cfg, history, k - 1, id);
    } else {
      j := k - 1;
      e :| Advances(cfg, history[j], id, e, history[k].runs[id], history[k]);
      HistoryKeepsInvariant(cfg, history, j);
    }
  }

  // ---- gets

  /** A get is told that its blob is missing only if the digest is well-formed and its path was absent during the run. */
  lemma MissingWasAbsent(cfg: Config, history: seq<System>, k: nat, id: nat) returns (j: nat)
    requires IsHash(cfg) && IsHistory(cfg, history) && k < |history|
    requires id in history[k].runs && history[k].runs[id].GetRefused? && history[k].runs[id].rejection == MissingBlob
    ensures j < k && id in history[j].runs && history[j].runs[id] == Looking(history[k].runs[id].digest)
    ensures IsDigest(history[k].runs[id].digest)
    ensures forall i | 0 <= i <= j :: Destination(cfg.root, history[k].runs[id].digest) !in history[i].fs.names
  {
    var e;
    j, e := LastCall(cfg, history, k, id);
    var d := history[k].runs[id].digest;
    LookingFindsMissing(cfg, history[j].fs, history[j].runs[id], e, history[k].runs[id]);
    forall i | 0 <= i <= j ensures Destination(cfg.root, d) !in history[i].fs.names {
      BlobsAreImmutable(cfg, history, i, j);
      assert BlobKept(cfg, history[i].fs, history[j].fs, d);
    }
  }

  lemma LookingFindsMissing(cfg: Config, fs: FileSystem, p: Run, e: Effect, p': Run)
    requires IsHash(cfg) && RunStep(cfg, fs, p, e, p') && p'.GetRefused? && p'.rejection == MissingBlob
    ensures p == Looking(p'.digest) && IsDigest(p'.digest) && Destination(cfg.root, p'.digest) !in fs.names
  {
  }

  /** What stands in the store, as it was when the history began, bears the refusal of a get out. */
  ghost predicate GetMayBeRefused(cfg: Config, fs: FileSystem, digest: string, why: BlobRejection)
    requires IsHash(cfg)
  {
    match why
    case InvalidDigest => !IsDigest(digest)
    case MissingBlob => IsDigest(digest) && Destination(cfg.root, digest) !in fs.names
    case UnsafePath => IsDigest(digest)
    case StoreIoFailure => IsDigest(digest)
    case LimitExceeded => OversizedBlob(cfg, fs, digest)
    case CorruptStoredBlob => CorruptBlob(cfg, fs, digest) || NonemptyGoodBlob(cfg, fs, digest)
    case _ => false
  }

  lemma GetRefusalsAreBorneOut(cfg: Config, history: seq<System>, fs: FileSystem, digest: string, why: BlobRejection, id: nat)
    requires IsHash(cfg) && GetEndsIn(cfg, history, fs, digest, why, id)
    requires why == CorruptStoredBlob && IsDigest(digest) ==> Destination(cfg.root, digest) in fs.names
    ensures GetMayBeRefused(cfg, fs, digest, why)
  {
    var k := |history| - 1;
    HistoryKeepsInvariant(cfg, history, k);
    assert RunOk(cfg, history[k].fs, history[k].runs[id]);
    if why == MissingBlob {
      var j := MissingWasAbsent(cfg, history, k, id);
    } else if IsDigest(digest) {
      if Destination(cfg.root, digest) in fs.names {
        assert BlobKept(cfg, fs, history[k].fs, digest);
      } else if Destination(cfg.root, digest) in history[k].fs.names {
        assert GoodBlob(cfg, history[k].fs, digest);
      }
    }
  }

  lemma LookedRefusals(cfg: Config, fs: FileSystem, digest: string, why: BlobRejection) returns (history: seq<System>)
    requires IsHash(cfg) && WellFormed(fs) && GetMayBeRefused(cfg, fs, digest, why)
    requires why in {InvalidDigest, MissingBlob, UnsafePath, StoreIoFailure}
    ensures GetEndsIn(cfg, history, fs, digest, why, 0)
  {
    history := StartGet(cfg, fs, digest);
    history := Call(cfg, history, fs, fs, Looking(digest), Nothing, GetRefused(digest, why, Verifying));
  }

  lemma VerifiedRefusals(cfg: Config, fs: FileSystem, digest: string, why: BlobRejection) returns (history: seq<System>)
    requires IsHash(cfg) && WellFormed(fs)
    requires if why == LimitExceeded then OversizedBlob(cfg, fs, digest) else why == CorruptStoredBlob && CorruptBlob(cfg, fs, digest)
    ensures GetEndsIn(cfg, history, fs, digest, why, 0)
  {
    var handle := fs.names[Destination(cfg.root, digest)].ino;
    var content := fs.data[handle];
    history := StartGet(cfg, fs, digest);
    history := Call(cfg, history, fs, fs, Looking(digest), Nothing, VerifyingBlob(digest, handle, []));
    var seen: Bytes := [];
    if why == CorruptStoredBlob && content != [] {
      assert [] + content[0..|content|] == content;
      history := Call(cfg, history, fs, fs, VerifyingBlob(digest, handle, []), Nothing, VerifyingBlob(digest, handle, content));
      seen := content;
    }
    history := Call(cfg, history, fs, fs, VerifyingBlob(digest, handle, seen), Nothing, GetRefused(digest, why, Verifying));
  }

  lemma GetCanBeRefused(cfg: Config, fs: FileSystem, digest: string, why: BlobRejection)
    requires IsHash(cfg) && WellFormed(fs) && GetMayBeRefused(cfg, fs, digest, why)
    ensures GetCanEndIn(cfg, fs, digest, why)
  {
    if why == CorruptStoredBlob && NonemptyGoodBlob(cfg, fs, digest) {
      GoodBlobCalledCorrupt(cfg, fs, digest, fs.data[fs.names[Destination(cfg.root, digest)].ino]);
    } else if why == CorruptStoredBlob || why == LimitExceeded {
      var history := VerifiedRefusals(cfg, fs, digest, why);
    } else {
      var history := LookedRefusals(cfg, fs, digest, why);
    }
  }

  /**
    For every reason, some get of the digest can end with it, whatever runs beside it, exactly when
    the store bears it out at the start: the digest is malformed, its path is absent, its blob is too
    long. `CorruptStoredBlob` is told apart where the path is taken already; for a path that a run of
    the history takes, the content is that run's.
   */
  lemma GetRefusalsExactly(cfg: Config, fs: FileSystem, digest: string, why: BlobRejection)
    requires IsHash(cfg) && WellFormed(fs)
    requires why == CorruptStoredBlob && IsDigest(digest) ==> Destination(cfg.root, digest) in fs.names
    ensures GetCanEndIn(cfg, fs, digest, why) <==> GetMayBeRefused(cfg, fs, digest, why)
  {
    if GetMayBeRefused(cfg, fs, digest, why) {
      GetCanBeRefused(cfg, fs, digest, why);
    }
    if history: seq<System>, id: nat :| GetEndsIn(cfg, history, fs, digest, why, id) {
      GetRefusalsAreBorneOut(cfg, history, fs, digest, why, id);
    }
  }

  /** A get that ended was refused as malformed exactly when its digest is malformed. */
  lemma InvalidDigestExactly(cfg: Config, history: seq<System>, k: nat, id: nat)
    requires IsHash(cfg) && IsHistory(cfg, history) && k < |history| && id in history[k].runs
    requires history[k].runs[id].Fetched? || history[k].runs[id].GetRefused?
    ensures history[k].runs[id].GetRefused? && history[k].runs[id].rejection == InvalidDigest <==> !IsDigest(history[k].runs[id].digest)
  {
    HistoryKeepsInvariant(cfg, history, k);
    assert RunOk(cfg, history[k].fs, history[k].runs[id]);
  }

  // ---- puts: what is wrong with the staged copy

  /** A put of what it measured stands at giving its staged copy up, for this reason. */
  ghost predicate PutGivesUp(cfg: Config, history: seq<System>, fs: FileSystem, measured: Bytes, why: BlobRejection, id: nat)
    requires IsHash(cfg)
  {
    && IsHistory(cfg, history) && history[0] == System(fs, map[])
    && id in Last(history).runs && Last(history).runs[id].Discarding?
    && Last(history).runs[id].measured == measured && Last(history).runs[id].after == Refuse(why)
  }

  ghost predicate PutCanGiveUp(cfg: Config, fs: FileSystem, measured: Bytes, why: BlobRejection)
    requires IsHash(cfg)
  {
    exists history: seq<System>, id: nat :: PutGivesUp(cfg, history, fs, measured, why, id)
  }

  /** A put refused for failed verification gave up a copy whose bytes were not what pass one measured. */
  lemma FailedVerificationHadOtherBytes(cfg: Config, history: seq<System>, k: nat, id: nat) returns (j: nat)
    requires IsHash(cfg) && IsHistory(cfg, history) && k < |history|
    requires id in history[k].runs && history[k].runs[id].PutRefused? && history[k].runs[id].rejection == StagedVerificationFailed
    ensures j < k && id in history[j].runs && history[j].runs[id].Discarding?
    ensures history[j].runs[id].measured == history[k].runs[id].measured && history[j].runs[id].ino in history[j].fs.data
    ensures !SameIdentity(cfg, history[j].fs.data[history[j].runs[id].ino], history[j].runs[id].measured)
  {
    var e;
    j, e := LastCall(cfg, history, k, id);
    OnlyDiscardingFailsVerification(cfg, history[j].fs, history[j].runs[id], e, history[k].runs[id]);
  }

  lemma OnlyDiscardingFailsVerification(cfg: Config, fs: FileSystem, p: Run, e: Effect, p': Run)
    requires IsHash(cfg) && RunStep(cfg, fs, p, e, p') && p'.PutRefused? && p'.rejection == StagedVerificationFailed
    ensures p.Discarding? && p.measured == p'.measured && p.after == Refuse(StagedVerificationFailed)
  {
  }

  /** The staged copy of a source that had changed, read back and refused. */
  lemma ChangedSourceGivesUp(
    cfg: Config, fs: FileSystem, measured: Bytes, copied: Bytes, process: nat, ordinal: nat, ino: Inode)
    returns (history: seq<System>, name: string)
    requires IsHash(cfg) && WellFormed(fs) && |measured| <= MAXIMUM_BLOB_BYTES && ino !in fs.data
    requires |copied| <= MAXIMUM_BLOB_BYTES && !SameIdentity(cfg, copied, measured)
    requires StagedName(cfg.root, DigestOf(cfg, measured), process, ordinal, 0) !in fs.names
    ensures name == StagedName(cfg.root, DigestOf(cfg, measured), process, ordinal, 0)
    ensures Leads(cfg, history, fs, WithStaged(fs, name, ino, copied),
                  Discarding(measured, name, ino, Refuse(StagedVerificationFailed)))
  {
    history, name := StageCopy(cfg, fs, measured, copied, process, ordinal, ino);
    var staged := WithStaged(fs, name, ino, copied);
    history := ReadStaged(cfg, history, fs, staged, measured, copied, name, ino);
    history := Call(cfg, history, fs, staged, Remeasuring(measured, name, ino, ino, copied), Nothing,
                    Discarding(measured, name, ino, Refuse(StagedVerificationFailed)));
  }

  /**
    From any store, a source that changed between the two passes has a history in which its put is
    refused for failed verification, and every name, so every destination, is as it was.
   */
  lemma ChangedSourceIsRefused(
    cfg: Config, fs: FileSystem, measured: Bytes, copied: Bytes, process: nat, ordinal: nat, ino: Inode)
    returns (history: seq<System>, after: FileSystem)
    requires IsHash(cfg) && WellFormed(fs) && |measured| <= MAXIMUM_BLOB_BYTES && ino !in fs.data
    requires |copied| <= MAXIMUM_BLOB_BYTES && !SameIdentity(cfg, copied, measured)
    requires StagedName(cfg.root, DigestOf(cfg, measured), process, ordinal, 0) !in fs.names
    ensures Leads(cfg, history, fs, after, PutRefused(measured, StagedVerificationFailed))
    ensures after.names == fs.names
  {
    var name;
    history, name := ChangedSourceGivesUp(cfg, fs, measured, copied, process, ordinal, ino);
    var staged := WithStaged(fs, name, ino, copied);
    history := Call(cfg, history, fs, staged, Discarding(measured, name, ino, Refuse(StagedVerificationFailed)), Unlink(name),
                    PutRefused(measured, StagedVerificationFailed));
    after := Perform(staged, Unlink(name));
    assert after.names == fs.names;
  }

  /** The reasons a staged copy can be given up for. */
  ghost predicate PutMayGiveUp(cfg: Config, fs: FileSystem, measured: Bytes, why: BlobRejection)
    requires IsHash(cfg)
  {
    why in {StoreIoFailure, LimitExceeded, StagedVerificationFailed} || (why == UnsafePath && NotAFile(cfg, fs, DigestOf(cfg, measured)))
  }

  lemma OtherBytes(cfg: Config, measured: Bytes) returns (copied: Bytes)
    requires IsHash(cfg)
    ensures |copied| <= 1 && !SameIdentity(cfg, copied, measured)
  {
    copied := if measured == [] then [0] else [];
  }

  lemma LongCopyGivesUp(cfg: Config, fs: FileSystem, measured: Bytes, process: nat, ordinal: nat, ino: Inode)
    returns (history: seq<System>)
    requires IsHash(cfg) && WellFormed(fs) && |measured| <= MAXIMUM_BLOB_BYTES && ino !in fs.data
    requires StagedName(cfg.root, DigestOf(cfg, measured), process, ordinal, 0) !in fs.names
    ensures PutGivesUp(cfg, history, fs, measured, LimitExceeded, 0)
  {
    var copied: Bytes := seq(MAXIMUM_BLOB_BYTES + 1, _ => 0);
    var name;
    history, name := StageCopy(cfg, fs, measured, copied, process, ordinal, ino);
    var staged := WithStaged(fs, name, ino, copied);
    history := Call(cfg, history, fs, staged, OpeningStaged(measured, name, ino), Nothing, Remeasuring(measured, name, ino, ino, []));
    history := Call(cfg, history, fs, staged, Remeasuring(measured, name, ino, ino, []), Nothing,
                    Discarding(measured, name, ino, Refuse(LimitExceeded)));
  }

  lemma UnsafePathGivesUp(cfg: Config, fs: FileSystem, measured: Bytes, process: nat, ordinal: nat, ino: Inode)
    returns (history: seq<System>)
    requires IsHash(cfg) && WellFormed(fs) && |measured| <= MAXIMUM_BLOB_BYTES && ino !in fs.data
    requires StagedName(cfg.root, DigestOf(cfg, measured), process, ordinal, 0) !in fs.names
    requires NotAFile(cfg, fs, DigestOf(cfg, measured))
    ensures PutGivesUp(cfg, history, fs, measured, UnsafePath, 0)
  {
    var name;
    history, name := StageCopy(cfg, fs, measured, measured, process, ordinal, ino);
    StagedNamesAreNeverDestinations(cfg.root, DigestOf(cfg, measured), DigestOf(cfg, measured), process, ordinal, 0);
    var staged := WithStaged(fs, name, ino, measured);
    history := VerifyStaged(cfg, history, fs, staged, measured, name, ino);
    history := Call(cfg, history, fs, staged, Classifying(measured, name, ino), Nothing,
                    Discarding(measured, name, ino, Refuse(UnsafePath)));
  }

  lemma FailureGivesUp(cfg: Config, fs: FileSystem, measured: Bytes, process: nat, ordinal: nat, ino: Inode)
    returns (history: seq<System>)
    requires IsHash(cfg) && WellFormed(fs) && |measured| <= MAXIMUM_BLOB_BYTES && ino !in fs.data
    requires StagedName(cfg.root, DigestOf(cfg, measured), process, ordinal, 0) !in fs.names
    ensures PutGivesUp(cfg, history, fs, measured, StoreIoFailure, 0)
  {
    var name;
    history, name := StageCopy(cfg, fs, measured, measured, process, ordinal, ino);
    var staged := WithStaged(fs, name, ino, measured);
    history := Call(cfg, history, fs, staged, OpeningStaged(measured, name, ino), Nothing,
                    Discarding(measured, name, ino, Refuse(StoreIoFailure)));
  }

  /**
    For every reason, some put of the content can give up its staged copy with it exactly when it is a
    failure of the system, a copy that outgrew the limit or differs from what was measured, or a
    destination that is no ordinary file from the start.
   */
  lemma GivingUpExactly(
    cfg: Config, fs: FileSystem, measured: Bytes, why: BlobRejection, process: nat, ordinal: nat, ino: Inode)
    requires IsHash(cfg) && WellFormed(fs) && |measured| <= MAXIMUM_BLOB_BYTES && ino !in fs.data
    requires StagedName(cfg.root, DigestOf(cfg, measured), process, ordinal, 0) !in fs.names
    ensures PutCanGiveUp(cfg, fs, measured, why) <==> PutMayGiveUp(cfg, fs, measured, why)
  {
    if PutMayGiveUp(cfg, fs, measured, why) {
      match why
      case StoreIoFailure =>
        var history := FailureGivesUp(cfg, fs, measured, process, ordinal, ino);
      case LimitExceeded =>
        var history := LongCopyGivesUp(cfg, fs, measured, process, ordinal, ino);
      case StagedVerificationFailed =>
        var copied := OtherBytes(cfg, measured);
        var history, name := ChangedSourceGivesUp(cfg, fs, measured, copied, process, ordinal, ino);
        assert PutGivesUp(cfg, history, fs, measured, why, 0);
      case UnsafePath =>
        var history := UnsafePathGivesUp(cfg, fs, measured, process, ordinal, ino);
    }
    if history: seq<System>, id: nat :| PutGivesUp(cfg, history, fs, measured, why, id) {
      GivingUpIsBorneOut(cfg, history, fs, measured, why, id);
    }
  }

  lemma GivingUpIsBorneOut(cfg: Config, history: seq<System>, fs: FileSystem, measured: Bytes, why: BlobRejection, id: nat)
    requires IsHash(cfg) && PutGivesUp(cfg, history, fs, measured, why, id)
    ensures PutMayGiveUp(cfg, fs, measured, why)
  {
    var k := |history| - 1;
    var digest := DigestOf(cfg, measured);
    HistoryKeepsInvariant(cfg, history, k);
    assert RunOk(cfg, history[k].fs, history[k].runs[id]);
    if Destination(cfg.root, digest) in fs.names {
      assert BlobKept(cfg, fs, history[k].fs, digest);
    } else if Destination(cfg.root, digest) in history[k].fs.names {
      assert GoodBlob(cfg, history[k].fs, digest);
    }
  }

  // ---- puts: what is wrong with the blob already there

  /** The last call of the history ends a put that was reading the blob already there. */
  ghost predicate ConfirmingEndsIn(cfg: Config, history: seq<System>, fs: FileSystem, measured: Bytes, why: BlobRejection, id: nat)
    requires IsHash(cfg)
  {
    && |history| > 1 && IsHistory(cfg, history) && history[0] == System(fs, map[])
    && id in history[|history| - 2].runs && history[|history| - 2].runs[id].ConfirmingExisting?
    && id in Last(history).runs && Last(history).runs[id] == PutRefused(measured, why)
  }

  ghost predicate ConfirmingCanEndIn(cfg: Config, fs: FileSystem, measured: Bytes, why: BlobRejection)
    requires IsHash(cfg)
  {
    exists history: seq<System>, id: nat :: ConfirmingEndsIn(cfg, history, fs, measured, why, id)
  }

  ghost predicate ConfirmingMayEndIn(cfg: Config, fs: FileSystem, measured: Bytes, why: BlobRejection)
    requires IsHash(cfg)
  {
    match why
    case StoreIoFailure => true
    case LimitExceeded => OversizedBlob(cfg, fs, DigestOf(cfg, measured))
    case CorruptStoredBlob => Disagrees(cfg, fs, measured)
    case _ => false
  }

  lemma ConfirmingIsBorneOut(cfg: Config, history: seq<System>, fs: FileSystem, measured: Bytes, why: BlobRejection, id: nat)
    requires IsHash(cfg) && ConfirmingEndsIn(cfg, history, fs, measured, why, id) && ExistingFile(cfg, fs, measured)
    ensures ConfirmingMayEndIn(cfg, fs, measured, why)
  {
    var k := |history| - 2;
    HistoryKeepsInvariant(cfg, history, k);
    assert Step(cfg, history[k], history[k + 1]);
    OneStepOfARun(cfg, history[k], history[k + 1], id);
    var p := history[k].runs[id];
    var e :| Advances(cfg, history[k], id, e, PutRefused(measured, why), history[k + 1]);
    ConfirmingNow(cfg, history[k].fs, p, e, measured, why);
    assert BlobKept(cfg, fs, history[k].fs, DigestOf(cfg, measured));
  }

  lemma ConfirmingNow(cfg: Config, fs: FileSystem, p: Run, e: Effect, measured: Bytes, why: BlobRejection)
    requires IsHash(cfg) && p.ConfirmingExisting? && RunOk(cfg, fs, p) && RunStep(cfg, fs, p, e, PutRefused(measured, why))
    ensures p.measured == measured && ConfirmingMayEndIn(cfg, fs, measured, why)
  {
    if EndOfFile(fs.data[p.handle], p.seen) {
      ReadToTheEnd(fs.data[p.handle], p.seen);
    }
  }

  lemma ConfirmingCanEnd(
    cfg: Config, fs: FileSystem, measured: Bytes, why: BlobRejection, process: nat, ordinal: nat, ino: Inode)
    returns (history: seq<System>)
    requires IsHash(cfg) && WellFormed(fs) && |measured| <= MAXIMUM_BLOB_BYTES && ino !in fs.data
    requires StagedName(cfg.root, DigestOf(cfg, measured), process, ordinal, 0) !in fs.names
    requires ExistingFile(cfg, fs, measured) && ConfirmingMayEndIn(cfg, fs, measured, why)
    ensures ConfirmingEndsIn(cfg, history, fs, measured, why, 0)
  {
    var name;
    var handle := fs.names[PathOf(cfg, measured)].ino;
    history, name := StageCopy(cfg, fs, measured, measured, process, ordinal, ino);
    StagedNamesAreNeverDestinations(cfg.root, DigestOf(cfg, measured), DigestOf(cfg, measured), process, ordinal, 0);
    var staged := WithStaged(fs, name, ino, measured);
    history := VerifyStaged(cfg, history, fs, staged, measured, name, ino);
    history := OpenInstead(cfg, history, fs, staged, measured, name, ino);
    var after := Perform(staged, Unlink(name));
    assert after.data[handle] == fs.data[handle];
    var seen: Bytes := [];
    if why == CorruptStoredBlob {
      history := ReadExisting(cfg, history, fs, after, measured, handle);
      seen := fs.data[handle];
    }
    history := CallAfter(cfg, history, fs, after, ConfirmingExisting(measured, handle, seen), PutRefused(measured, why));
  }

  lemma CallAfter(cfg: Config, history: seq<System>, from: FileSystem, fs: FileSystem, p: Run, p': Run) returns (longer: seq<System>)
    requires IsHash(cfg) && Leads(cfg, history, from, fs, p) && RunStep(cfg, fs, p, Nothing, p')
    ensures Leads(cfg, longer, from, fs, p') && |longer| > 1 && longer[|longer| - 2] == System(fs, map[0 := p])
  {
    var next := System(fs, map[0 := p']);
    assert Last(history).runs[0 := p'] == next.runs;
    assert Advances(cfg, Last(history), 0, Nothing, p', next);
    longer := history + [next];
    forall k | 0 <= k < |longer| - 1 ensures Step(cfg, longer[k], longer[k + 1]) {
      if k < |history| - 1 {
        assert longer[k] == history[k] && longer[k + 1] == history[k + 1];
      }
    }
  }

  /**
    For every reason, reading the blob already there can end a put with it exactly when it is a failure
    of the system, or that blob was too long or differed from what was measured from the start.
   */
  lemma ConfirmingEndsExactly(
    cfg: Config, fs: FileSystem, measured: Bytes, why: BlobRejection, process: nat, ordinal: nat, ino: Inode)
    requires IsHash(cfg) && WellFormed(fs) && |measured| <= MAXIMUM_BLOB_BYTES && ino !in fs.data
    requires StagedName(cfg.root, DigestOf(cfg, measured), process, ordinal, 0) !in fs.names
    requires ExistingFile(cfg, fs, measured)
    ensures ConfirmingCanEndIn(cfg, fs, measured, why) <==> ConfirmingMayEndIn(cfg, fs, measured, why)
  {
    if ConfirmingMayEndIn(cfg, fs, measured, why) {
      var history := ConfirmingCanEnd(cfg, fs, measured, why, process, ordinal, ino);
    }
    if history: seq<System>, id: nat :| ConfirmingEndsIn(cfg, history, fs, measured, why, id) {
      ConfirmingIsBorneOut(cfg, history, fs, measured, why, id);
    }
  }

  // ---- puts: staging collisions

  ghost predicate TakenName(cfg: Config, fs: FileSystem, measured: Bytes, process: nat, ordinal: nat, attempt: nat)
    requires IsHash(cfg)
  {
    StagedName(cfg.root, DigestOf(cfg, measured), process, ordinal, attempt) in fs.names
  }

  /** At this moment the run is about to create its staged file, and the name it will try is taken. */
  ghost predicate NameIsTaken(cfg: Config, s: System, id: nat, attempt: nat)
    requires IsHash(cfg)
  {
    && id in s.runs && s.runs[id].CreatingStaged? && s.runs[id].attempt == attempt
    && TakenName(cfg, s.fs, s.runs[id].measured, s.runs[id].process, s.runs[id].ordinal, attempt)
  }

  /** At these moments before `k`, one after another, the run found the name of each of its attempts taken. */
  ghost predicate FoundTaken(cfg: Config, history: seq<System>, k: nat, id: nat, moments: seq<nat>)
    requires IsHash(cfg) && k <= |history|
  {
    && (forall a | 0 <= a < |moments| :: moments[a] < k && NameIsTaken(cfg, history[moments[a]], id, a))
    && (forall a, b | 0 <= a < b < |moments| :: moments[a] < moments[b])
  }

  lemma FoundAnother(cfg: Config, history: seq<System>, k: nat, id: nat, moments: seq<nat>, later: nat)
    requires IsHash(cfg) && k < later <= |history| && FoundTaken(cfg, history, k, id, moments)
    requires NameIsTaken(cfg, history[k], id, |moments|)
    ensures FoundTaken(cfg, history, later, id, moments + [k])
  {
  }

  lemma {:induction false} EarlierAttempts(cfg: Config, history: seq<System>, k: nat, id: nat) returns (moments: seq<nat>)
    requires IsHash(cfg) && IsHistory(cfg, history) && k < |history|
    requires id in history[k].runs && history[k].runs[id].CreatingStaged?
    ensures |moments| == history[k].runs[id].attempt
    ensures FoundTaken(cfg, history, k, id, moments)
    decreases k
  {
    assert k > 0;
    var s, s' := history[k - 1], history[k];
    assert Step(cfg, s, s');
    moments := [];
    if id in s.runs && s.runs[id].CreatingStaged? {
      moments := EarlierAttempts(cfg, history, k - 1, id);
    }
    if id !in s.runs || s.runs[id] != s'.runs[id] {
      var e := AttemptAdvances(cfg, s, s', id);
      if s.runs[id].CreatingStaged? {
        FoundAnother(cfg, history, k - 1, id, moments, k);
        moments := moments + [k - 1];
      }
    }
  }

  lemma AttemptAdvances(cfg: Config, s: System, s': System, id: nat) returns (e: Effect)
    requires IsHash(cfg) && Step(cfg, s, s') && id in s'.runs && s'.runs[id].CreatingStaged?
    requires id !in s.runs || s.runs[id] != s'.runs[id]
    ensures Advances(cfg, s, id, e, s'.runs[id], s')
    ensures if s.runs[id].CreatingStaged?
            then s'.runs[id].attempt == s.runs[id].attempt + 1 && NameIsTaken(cfg, s, id, s.runs[id].attempt)
            else s'.runs[id].attempt == 0
  {
    var j: nat, e': Effect, p': Run :| Advances(cfg, s, j, e', p', s');
    e := e';
  }

  lemma OnlyCreatingCollides(cfg: Config, fs: FileSystem, p: Run, e: Effect, p': Run)
    requires IsHash(cfg) && RunStep(cfg, fs, p, e, p') && RunOk(cfg, fs, p) && p'.PutRefused? && p'.rejection == StagingCollision
    ensures p.CreatingStaged? && p.attempt == 4
    ensures TakenName(cfg, fs, p.measured, p.process, p.ordinal, 4)
  {
  }

  /** A put is refused for a staging collision only after it found five staged names taken, one after another. */
  lemma CollisionMeansFiveTakenNames(cfg: Config, history: seq<System>, k: nat, id: nat) returns (moments: seq<nat>)
    requires IsHash(cfg) && IsHistory(cfg, history) && k < |history|
    requires id in history[k].runs && history[k].runs[id].PutRefused? && history[k].runs[id].rejection == StagingCollision
    ensures |moments| == 5 && FoundTaken(cfg, history, k, id, moments)
  {
    var j, e := LastCall(cfg, history, k, id);
    OnlyCreatingCollides(cfg, history[j].fs, history[j].runs[id], e, history[k].runs[id]);
    moments := EarlierAttempts(cfg, history, j, id);
    FoundAnother(cfg, history, j, id, moments, k);
    moments := moments + [j];
  }

  /** And from any store in which five such names are taken, some put of the content is refused for it. */
  lemma FiveTakenNamesCollide(cfg: Config, fs: FileSystem, measured: Bytes, process: nat, ordinal: nat) returns (history: seq<System>)
    requires IsHash(cfg) && WellFormed(fs) && |measured| <= MAXIMUM_BLOB_BYTES
    requires forall a: nat, o: nat | a <= 4 && o == ordinal + a :: TakenName(cfg, fs, measured, process, o, a)
    ensures Leads(cfg, history, fs, fs, PutRefused(measured, StagingCollision))
  {
    history := Measure(cfg, fs, measured, process, ordinal);
    history := RetryOn(cfg, history, fs, measured, process, ordinal, 0);
    history := RetryOn(cfg, history, fs, measured, process, ordinal, 1);
    history := RetryOn(cfg, history, fs, measured, process, ordinal, 2);
    history := RetryOn(cfg, history, fs, measured, process, ordinal, 3);
    assert TakenName(cfg, fs, measured, process, ordinal + 4, 4);
    history := Call(cfg, history, fs, fs, CreatingStaged(measured, process, ordinal + 4, 4), Nothing,
                    PutRefused(measured, StagingCollision));
  }

  lemma RetryOn(cfg: Config, before: seq<System>, fs: FileSystem, measured: Bytes, process: nat, ordinal: nat, a: nat)
    returns (history: seq<System>)
    requires IsHash(cfg) && a < 4 && Leads(cfg, before, fs, fs, CreatingStaged(measured, process, ordinal + a, a))
    requires TakenName(cfg, fs, measured, process, ordinal + a, a)
    ensures Leads(cfg, history, fs, fs, CreatingStaged(measured, process, ordinal + a + 1, a + 1))
  {
    history := Call(cfg, before, fs, fs, CreatingStaged(measured, process, ordinal + a, a), Nothing,
                    CreatingStaged(measured, process, ordinal + a + 1, a + 1));
  }

  // ---- puts: every other reason

  ghost predicate PutEndsIn(cfg: Config, history: seq<System>, fs: FileSystem, measured: Bytes, why: BlobRejection, id: nat)
    requires IsHash(cfg)
  {
    && IsHistory(cfg, history) && history[0] == System(fs, map[])
    && id in Last(history).runs && Last(history).runs[id] == PutRefused(measured, why)
  }

  ghost predicate PutCanEndIn(cfg: Config, fs: FileSystem, measured: Bytes, why: BlobRejection)
    requires IsHash(cfg)
  {
    exists history: seq<System>, id: nat :: PutEndsIn(cfg, history, fs, measured, why, id)
  }

  predicate SourceReason(why: BlobRejection) {
    why in {SourceNotPermitted, LimitExceeded, UnsafePath, StoreIoFailure}
  }

  /** The source itself can be refused at any moment of pass one. */
  lemma SourceCanBeRefused(cfg: Config, fs: FileSystem, measured: Bytes, why: BlobRejection) returns (history: seq<System>)
    requires IsHash(cfg) && WellFormed(fs) && SourceReason(why)
    ensures Leads(cfg, history, fs, fs, PutRefused(measured, why))
  {
    history := StartPut(cfg, fs);
    history := Call(cfg, history, fs, fs, MeasuringSource([]), Nothing, PutRefused(measured, why));
  }

  /**
    A put can end with each reason a source, a failure or a staged copy gives, and with no other; where
    its path is taken by a file it can call the blob there corrupt exactly when that blob disagreed from
    the start.
   */
  lemma PutRefusalsExactly(
    cfg: Config, fs: FileSystem, measured: Bytes, why: BlobRejection, process: nat, ordinal: nat, ino: Inode)
    requires IsHash(cfg) && WellFormed(fs) && |measured| <= MAXIMUM_BLOB_BYTES && ino !in fs.data
    requires StagedName(cfg.root, DigestOf(cfg, measured), process, ordinal, 0) !in fs.names
    requires why != StagingCollision && (why == CorruptStoredBlob ==> ExistingFile(cfg, fs, measured))
    ensures PutCanEndIn(cfg, fs, measured, why) <==>
      SourceReason(why) || why == StagedVerificationFailed || (why == CorruptStoredBlob && Disagrees(cfg, fs, measured))
  {
    if SourceReason(why) {
      var history := SourceCanBeRefused(cfg, fs, measured, why);
      assert PutEndsIn(cfg, history, fs, measured, why, 0);
    } else if why == StagedVerificationFailed {
      var copied := OtherBytes(cfg, measured);
      var history, after := ChangedSourceIsRefused(cfg, fs, measured, copied, process, ordinal, ino);
      assert PutEndsIn(cfg, history, fs, measured, why, 0);
    } else if why == CorruptStoredBlob && Disagrees(cfg, fs, measured) {
      var history := ConfirmingCanEnd(cfg, fs, measured, why, process, ordinal, ino);
      assert PutEndsIn(cfg, history, fs, measured, why, 0);
    }
    if history: seq<System>, id: nat :| PutEndsIn(cfg, history, fs, measured, why, id) {
      PutRefusalIsBorneOut(cfg, history, fs, measured, why, id);
    }
  }

  lemma PutRefusalIsBorneOut(cfg: Config, history: seq<System>, fs: FileSystem, measured: Bytes, why: BlobRejection, id: nat)
    requires IsHash(cfg) && PutEndsIn(cfg, history, fs, measured, why, id)
    requires why == CorruptStoredBlob ==> ExistingFile(cfg, fs, measured)
    ensures why !in {InvalidDigest, MissingBlob}
    ensures why == CorruptStoredBlob ==> Disagrees(cfg, fs, measured)
  {
    var k := |history| - 1;
    HistoryKeepsInvariant(cfg, history, k);
    assert RunOk(cfg, history[k].fs, history[k].runs[id]);
    assert why == CorruptStoredBlob ==> BlobKept(cfg, fs, history[k].fs, DigestOf(cfg, measured));
  }
}
