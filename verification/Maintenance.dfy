/** What expiry and orphan cleanup keep, and the maintenance run that sequences them. */
module Maintenance {
  import opened Wrappers
  import opened Snapshots
  import Compaction

  // ----- Expiry -----------------------------------------------------------------------------------

  lemma {:induction false} KeepExactly(ss: seq<Snapshot>, gone: set<int>, s: Snapshot)
    ensures s in Keep(ss, gone) <==> s in ss && s.id !in gone
  {
    if ss != [] {
      KeepExactly(ss[1..], gone, s);
    }
  }

  lemma {:induction false} ExpiredExactly(ss: seq<Snapshot>, head: Option<int>, olderThan: Option<int>,
                                          commits: int -> bool, n: nat, id: int)
    requires n <= |ss|
    ensures id in ExpiredIds(ss, head, olderThan, commits, n)
       <==> exists i :: 0 <= i < n && ss[i].id == id && Expires(ss[i], head, olderThan) && commits(id)
  {
    if n > 0 {
      ExpiredExactly(ss, head, olderThan, commits, n - 1, id);
    }
  }

  function Survivors(ss: seq<Snapshot>, head: Option<int>, olderThan: Option<int>, retainLast: int,
                     commits: int -> bool): seq<Snapshot>
  {
    Keep(ss, ExpiredIds(ss, head, olderThan, commits, CandidateCount(|ss|, retainLast)))
  }

  /** A snapshot is gone after expiry exactly when it is not among the `retainLast` most recent, is old
      enough, is not the head, and its own commit went through. */
  lemma SurvivesExactly(ss: seq<Snapshot>, head: Option<int>, olderThan: Option<int>, retainLast: int,
                        commits: int -> bool, i: nat)
    requires UniqueIds(ss) && i < |ss|
    ensures ss[i] !in Survivors(ss, head, olderThan, retainLast, commits)
       <==> && (retainLast <= 0 || i < |ss| - retainLast)
            && (olderThan.None? || ss[i].at < olderThan.value)
            && head != Some(ss[i].id) && commits(ss[i].id)
  {
    hide Keep, ExpiredIds, CandidateCount;
    CountInRange(|ss|, retainLast);
    var n := CandidateCount(|ss|, retainLast);
    KeepExactly(ss, ExpiredIds(ss, head, olderThan, commits, n), ss[i]);
    ExpiredExactly(ss, head, olderThan, commits, n, ss[i].id);
  }

  lemma CountInRange(n: nat, retainLast: int)
    ensures CandidateCount(n, retainLast) <= n
    ensures retainLast <= 0 ==> CandidateCount(n, retainLast) == n
    ensures retainLast >= 1 ==> CandidateCount(n, retainLast) == if n > retainLast then n - retainLast else 0
  {
  }

  /** Whichever commits fail, the head and the last `retainLast` snapshots survive, in their order. */
  lemma HeadAndRecentSurvive(ss: seq<Snapshot>, head: Option<int>, olderThan: Option<int>, retainLast: int,
                             commits: int -> bool, i: nat)
    requires UniqueIds(ss) && i < |ss|
    requires head == Some(ss[i].id) || (retainLast >= 1 && i >= |ss| - retainLast)
    ensures ss[i] in Survivors(ss, head, olderThan, retainLast, commits)
  {
    hide Survivors, UniqueIds, CandidateCount;
    CountInRange(|ss|, retainLast);
    SurvivesExactly(ss, head, olderThan, retainLast, commits, i);
  }

  // ----- References -------------------------------------------------------------------------------

  /** Everything the snapshot's files are found through can be read. */
  ghost predicate Readable(s: Snapshot, io: Io)
  {
    io.list(s.id) && forall i :: 0 <= i < |s.manifests| ==> io.entries(s.manifests[i].path)
  }

  lemma ReadableComplete(s: Snapshot, io: Io)
    ensures SnapshotFiles(s, io) <= FilesOf(s)
    ensures Readable(s, io) ==> SnapshotFiles(s, io) == FilesOf(s)
  {
    hide SnapshotFiles;
    forall f
      ensures f in SnapshotFiles(s, io) ==> f in FilesOf(s)
      ensures Readable(s, io) && f in FilesOf(s) ==> f in SnapshotFiles(s, io)
    {
      SnapshotFilesExactly(s, io, f);
      if Readable(s, io) && f in FilesOf(s) && !(f != "" && f == s.manifestList) {
        var i :| 0 <= i < |s.manifests| &&
            (f == s.manifests[i].path || (f in s.manifests[i].entries && f != ""));
        assert Lists(s.manifests[i], io, f);
      }
    }
  }

  /** The referenced set holds nothing but files of the snapshots, and all of them if every read succeeds. */
  lemma ReferencedIsReachable(ss: seq<Snapshot>, io: Io, f: string)
    ensures f in Referenced(ss, io) ==> exists i :: 0 <= i < |ss| && f in FilesOf(ss[i])
    ensures (forall i :: 0 <= i < |ss| ==> Readable(ss[i], io)) && (exists i :: 0 <= i < |ss| && f in FilesOf(ss[i]))
            ==> f in Referenced(ss, io)
  {
    hide SnapshotFiles, FilesOf, Readable, Names;
    ReferencedExactly(ss, io, f);
    forall i | 0 <= i < |ss|
      ensures Names(ss[i], io, f) ==> f in FilesOf(ss[i])
      ensures Readable(ss[i], io) && f in FilesOf(ss[i]) ==> Names(ss[i], io, f)
    {
      SnapshotFilesExactly(ss[i], io, f);
      ReadableComplete(ss[i], io);
    }
  }

  lemma {:induction false} OrphansExactly(bucket: string, refs: set<string>, now: int, buffer: int,
                                          listing: seq<Object>, o: Object)
    ensures o in Orphans(bucket, refs, now, buffer, listing) <==> o in listing && IsOrphan(bucket, refs, now, buffer, o)
    ensures multiset(Orphans(bucket, refs, now, buffer, listing))[o] ==
              if IsOrphan(bucket, refs, now, buffer, o) then multiset(listing)[o] else 0
  {
    hide IsOrphan;
    if listing != [] {
      OrphansExactly(bucket, refs, now, buffer, listing[..|listing| - 1], o);
      assert listing == listing[..|listing| - 1] + [listing[|listing| - 1]];
    }
  }

  /** When every delete request succeeds, the deleted keys are exactly those of the listed orphans. */
  lemma CleanupExactly(bucket: string, refs: set<string>, now: int, buffer: int, listing: seq<Object>,
                       chunkOk: nat -> bool, key: string)
    requires forall i: nat :: chunkOk(i)
    ensures key in DeletedKeys(Keys(Orphans(bucket, refs, now, buffer, listing)), chunkOk)
       <==> && "s3://" + bucket + "/" + key !in refs && key !in refs && !IsMetadata(key)
            && exists o :: o in listing && o.key == key && now - o.modified >= buffer
  {
    hide Orphans, IsMetadata;
    var orphans := Orphans(bucket, refs, now, buffer, listing);
    assert "s3://" + bucket + "/" + key == Uri(bucket, key);
    if o :| o in listing && o.key == key && IsOrphan(bucket, refs, now, buffer, o) {
      OrphansExactly(bucket, refs, now, buffer, listing, o);
      var i :| 0 <= i < |orphans| && orphans[i] == o;
      assert Keys(orphans)[i] == key && chunkOk(i / CHUNK);
    }
    if key in DeletedKeys(Keys(orphans), chunkOk) {
      var i :| 0 <= i < |orphans| && Keys(orphans)[i] == key;
      OrphansExactly(bucket, refs, now, buffer, listing, orphans[i]);
    }
  }

  /** Whatever is referenced or not, listed or not, and however old: no metadata file is ever deleted. */
  lemma MetadataIsSpared(bucket: string, refs: set<string>, now: int, buffer: int, listing: seq<Object>,
                         chunkOk: nat -> bool, key: string)
    requires StandsAt(key, ".metadata.json", |key| - 14) || exists i :: StandsAt(key, "version-hint", i)
    ensures key !in DeletedKeys(Keys(Orphans(bucket, refs, now, buffer, listing)), chunkOk)
  {
    hide Orphans, IsMetadata, Uri, StandsAt;
    var orphans := Orphans(bucket, refs, now, buffer, listing);
    MetadataExactly(key);
    forall i | 0 <= i < |orphans| ensures !IsMetadata(orphans[i].key) {
      OrphansExactly(bucket, refs, now, buffer, listing, orphans[i]);
    }
  }

  /** A cleanup with nobody else at work never deletes a file that one of the table's snapshots needs,
      as long as every manifest could be read. */
  lemma CleanupSparesSnapshots(ss: seq<Snapshot>, io: Io, more: set<string>, bucket: string, now: int, buffer: int,
                               listing: seq<Object>, chunkOk: nat -> bool, i: nat, key: string)
    requires forall j :: 0 <= j < |ss| ==> Readable(ss[j], io)
    requires i < |ss| && (Uri(bucket, key) in FilesOf(ss[i]) || key in FilesOf(ss[i]))
    ensures key !in DeletedKeys(Keys(Orphans(bucket, Referenced(ss, io) + more, now, buffer, listing)), chunkOk)
  {
    hide Referenced, FilesOf, Readable, Orphans, Uri, IsMetadata;
    var refs := Referenced(ss, io) + more;
    ReferencedIsReachable(ss, io, Uri(bucket, key));
    ReferencedIsReachable(ss, io, key);
    var orphans := Orphans(bucket, refs, now, buffer, listing);
    forall j | 0 <= j < |orphans| ensures orphans[j].key != key {
      OrphansExactly(bucket, refs, now, buffer, listing, orphans[j]);
    }
  }

  /** The report names as deleted what really is deleted exactly when every request it takes succeeds. */
  lemma ReportIsTrueExactly(keys: seq<string>, chunkOk: nat -> bool)
    requires forall i, j :: 0 <= i < j < |keys| ==> keys[i] != keys[j]
    ensures (set i | 0 <= i < |keys| :: keys[i]) == DeletedKeys(keys, chunkOk)
       <==> forall i: nat :: i * 1000 < |keys| ==> chunkOk(i)
  {
    var reported := set i | 0 <= i < |keys| :: keys[i];
    if reported == DeletedKeys(keys, chunkOk) {
      forall i: nat | i * CHUNK < |keys| ensures chunkOk(i) {
        assert keys[i * CHUNK] in reported;
        var j :| 0 <= j < |keys| && chunkOk(j / CHUNK) && keys[j] == keys[i * CHUNK];
        assert j == i * CHUNK;
      }
    }
    if forall i: nat :: i * CHUNK < |keys| ==> chunkOk(i) {
      forall i | 0 <= i < |keys| ensures keys[i] in DeletedKeys(keys, chunkOk) {
        assert (i / CHUNK) * CHUNK <= i;
        assert chunkOk(i / CHUNK);
      }
    }
  }

  /** The bytes of the objects whose delete request succeeds. */
  function FreedSize(os: seq<Object>, chunkOk: nat -> bool, n: nat): nat
    requires n <= |os|
  {
    if n == 0 then 0 else FreedSize(os, chunkOk, n - 1) + if chunkOk((n - 1) / CHUNK) then os[n - 1].size else 0
  }

  lemma {:induction false} FreedExactly(os: seq<Object>, chunkOk: nat -> bool, n: nat)
    requires n <= |os|
    ensures FreedSize(os, chunkOk, n) <= TotalSize(os[..n])
    ensures FreedSize(os, chunkOk, n) == TotalSize(os[..n])
       <==> forall i :: 0 <= i < n && os[i].size > 0 ==> chunkOk(i / CHUNK)
  {
    if n > 0 {
      FreedExactly(os, chunkOk, n - 1);
      assert os[..n][..n - 1] == os[..n - 1];
    }
  }

  /** Never fewer bytes are reported as reclaimed than were freed; the two agree exactly when the request of
      every object that is not empty succeeds. */
  lemma BytesAreTrueExactly(os: seq<Object>, chunkOk: nat -> bool)
    ensures FreedSize(os, chunkOk, |os|) <= TotalSize(os)
    ensures FreedSize(os, chunkOk, |os|) == TotalSize(os)
       <==> forall i :: 0 <= i < |os| && os[i].size > 0 ==> chunkOk(i / 1000)
  {
    FreedExactly(os, chunkOk, |os|);
    assert os[..|os|] == os;
  }

  // ----- One maintenance run ----------------------------------------------------------------------

  datatype Status = Success | PartialSuccess | Failed
  datatype Reply = Raises | Fails | Succeeds
  datatype Options = Options(compact: bool, expire: bool, clean: bool, minFileCount: int,
                             retainLast: int, buffer: int, dryRun: bool)

  /** What compaction meets: it raises before its loop, or finds no table, or starts. */
  datatype Start = StartRaises | TableMissing | Starts
  datatype CompactionWorld<T> = CompactionWorld(start: Start, files: nat, rounds: nat -> Compaction.Round<T>)

  /** What the rest of the run meets. Expiry fails on a missing table, and may raise after its commits took
      effect; a missing table is a failed listing for cleanup. */
  datatype World = World(expiry: Reply, tookEffect: bool, commits: int -> bool,
                         cleanupRaises: bool, io: Io, listing: Option<seq<Object>>, now: int, chunkOk: nat -> bool)

  /** Compaction is not told whether the run is a dry one. */
  function LakeAfter<T>(o: Options, w: CompactionWorld<T>, l: Compaction.Lake<T>, retries: int): Compaction.Lake<T>
  {
    if o.compact && w.start.Starts? then Compaction.Call(l, w.files, o.minFileCount, retries, w.rounds).0 else l
  }

  function CompactionReply<T>(o: Options, w: CompactionWorld<T>, l: Compaction.Lake<T>, retries: int): Reply
  {
    match w.start
    case StartRaises => Raises
    case TableMissing => Fails
    case Starts =>
      if Compaction.Call(l, w.files, o.minFileCount, retries, w.rounds).1.success then Succeeds else Fails
  }

  /** Expiry is skipped only when compaction, whose reply is `c`, reported a failure, not when it raised. */
  predicate ExpiryRuns(o: Options, c: Reply) { o.expire && !(o.compact && c == Fails) }

  predicate FailedBeforeCleanup(o: Options, c: Reply, w: World)
  {
    (o.compact && c != Succeeds) || (ExpiryRuns(o, c) && w.expiry != Succeeds)
  }

  predicate Expired(o: Options, c: Reply, w: World)
  {
    ExpiryRuns(o, c) && (w.expiry == Succeeds || (w.expiry == Raises && w.tookEffect))
  }

  predicate CleanupRuns(o: Options, c: Reply, w: World) { o.clean && !FailedBeforeCleanup(o, c, w) }

  function StatusOf(o: Options, c: Reply, w: World): Status
  {
    if FailedBeforeCleanup(o, c, w) || (CleanupRuns(o, c, w) && (w.cleanupRaises || w.listing.None?)) then
      if (o.compact && c == Succeeds) || (ExpiryRuns(o, c) && w.expiry == Succeeds) then PartialSuccess else Failed
    else Success
  }

  function SnapshotsAfter(o: Options, c: Reply, w: World, ss: seq<Snapshot>, head: Option<int>): seq<Snapshot>
  {
    if Expired(o, c, w) then Survivors(ss, head, None, o.retainLast, w.commits) else ss
  }

  function KeysAfter(o: Options, c: Reply, w: World, bucket: string, keys: set<string>, refs: set<string>): set<string>
  {
    if CleanupRuns(o, c, w) && !o.dryRun && !w.cleanupRaises && w.listing.Some? then
      keys - DeletedKeys(Keys(Orphans(bucket, refs, w.now, o.buffer, w.listing.value)), w.chunkOk)
    else keys
  }

  class MaintenanceManager<T(==)> {
    const compactor: Compaction.Compactor<T>
    const retries: int
    const snapshots: SnapshotManager

    constructor (compactor: Compaction.Compactor<T>, retries: int, snapshots: SnapshotManager)
      ensures this.compactor == compactor && this.retries == retries && this.snapshots == snapshots
    {
      this.compactor, this.retries, this.snapshots := compactor, retries, snapshots;
    }

    method RunTableMaintenance(o: Options, cw: CompactionWorld<T>, w: World) returns (status: Status)
      modifies compactor.table, snapshots.table, snapshots.bucket
      ensures compactor.table.Model() == LakeAfter(o, cw, old(compactor.table.Model()), retries)
      ensures snapshots.table.head == old(snapshots.table.head)
      ensures var c := CompactionReply(o, cw, old(compactor.table.Model()), retries);
              && status == StatusOf(o, c, w)
              && snapshots.table.snapshots ==
                 SnapshotsAfter(o, c, w, old(snapshots.table.snapshots), snapshots.table.head)
              && var refs := Referenced(snapshots.table.snapshots, w.io) +
                 MetadataFile(snapshots.table.metadataLocation);
                 snapshots.bucket.keys == KeysAfter(o, c, w, snapshots.bucket.name, old(snapshots.bucket.keys), refs)
    {
      hide Keep, ExpiredIds, Orphans, Referenced, DeletedKeys, CandidateCount, Compaction.Call;
      var hasFailure, compacted, reported, expired := false, false, false, false;
      if o.compact {
        match cw.start
        case StartRaises => hasFailure := true;
        case TableMissing => hasFailure, reported := true, true;
        case Starts =>
          var r := compactor.CompactTable(cw.files, o.minFileCount, retries, cw.rounds);
          compacted, hasFailure, reported := r.success, !r.success, true;
      }
      if o.expire && !(hasFailure && reported && !compacted) {
        if w.expiry == Succeeds || (w.expiry == Raises && w.tookEffect) {
          var r := snapshots.ExpireSnapshots(None, o.retainLast, w.commits);
        }
        expired := w.expiry == Succeeds;
        hasFailure := hasFailure || !expired;
      }
      if o.clean && !hasFailure {
        if w.cleanupRaises {
          hasFailure := true;
        } else {
          var r := snapshots.CleanupOrphanFiles(w.io, w.listing, w.now, o.buffer, o.dryRun, w.chunkOk);
          hasFailure := !r.success;
        }
      }
      return if !hasFailure then Success else if compacted || expired then PartialSuccess else Failed;
    }
  }

  /** Compaction counts as done exactly when it starts and its call succeeds; it reports a failure when there is
      no table or its call fails, and raises only before it starts. */
  lemma CompactionReplyExactly<T>(o: Options, w: CompactionWorld<T>, l: Compaction.Lake<T>, retries: int)
    ensures var (c, called) := (CompactionReply(o, w, l, retries),
              w.start.Starts? && Compaction.Call(l, w.files, o.minFileCount, retries, w.rounds).1.success);
            && (c == Succeeds <==> called)
            && (c == Fails <==> !w.start.StartRaises? && !called)
  {
    hide Compaction.Call;
  }

  /** The status read off the stages: SUCCESS exactly when everything requested was done; otherwise
      PARTIAL_SUCCESS exactly when compaction or expiry was done, and FAILED when neither was. Only a
      compaction that reports a failure keeps expiry from running. */
  lemma StatusExactly(o: Options, c: Reply, w: World)
    ensures var (compacted, expired) := (o.compact && c == Succeeds,
              o.expire && w.expiry == Succeeds && !(o.compact && c == Fails));
            && (StatusOf(o, c, w) == Success <==>
                 && (o.compact ==> c == Succeeds) && (o.expire ==> w.expiry == Succeeds)
                 && (o.clean ==> !w.cleanupRaises && w.listing.Some?))
            && (StatusOf(o, c, w) == PartialSuccess <==> StatusOf(o, c, w) != Success && (compacted || expired))
  {
  }

  /** What the run leaves of snapshots and objects changes only as follows: expiry takes effect when it is
      requested, was not kept from running, and did not fail before its commits; objects go when cleanup is
      requested for real, everything before it succeeded and the listing came back. */
  lemma EffectsExactly(o: Options, c: Reply, w: World, ss: seq<Snapshot>, head: Option<int>, bucket: string,
                       keys: set<string>, refs: set<string>)
    ensures SnapshotsAfter(o, c, w, ss, head) ==
              if o.expire && (o.compact ==> c != Fails) && w.expiry != Fails && (w.expiry == Raises ==> w.tookEffect)
              then Survivors(ss, head, None, o.retainLast, w.commits) else ss
    ensures KeysAfter(o, c, w, bucket, keys, refs) ==
              if o.clean && !o.dryRun && (o.compact ==> c == Succeeds) && (o.expire ==> w.expiry == Succeeds)
                 && !w.cleanupRaises && w.listing.Some?
              then keys - DeletedKeys(Keys(Orphans(bucket, refs, w.now, o.buffer, w.listing.value)), w.chunkOk)
              else keys
  {
    hide Survivors, DeletedKeys, Orphans;
  }

  /** Orphan cleanup runs only after everything requested before it succeeded, and a run that reports
      SUCCESS did everything it was asked to. */
  lemma CleanupComesLast(o: Options, c: Reply, w: World)
    ensures CleanupRuns(o, c, w) ==>
              (o.compact ==> c == Succeeds) && (o.expire ==> ExpiryRuns(o, c) && w.expiry == Succeeds)
    ensures StatusOf(o, c, w) == Success ==>
              && (o.compact ==> c == Succeeds)
              && (o.expire ==> ExpiryRuns(o, c) && w.expiry == Succeeds)
              && (o.clean ==> CleanupRuns(o, c, w) && !w.cleanupRaises && w.listing.Some?)
  {
  }

  lemma {:induction false} NoneExpires(ss: seq<Snapshot>, head: Option<int>, olderThan: Option<int>,
                                       commits: int -> bool, n: nat)
    requires n <= |ss| && forall i :: 0 <= i < n ==> !Expires(ss[i], head, olderThan)
    ensures ExpiredIds(ss, head, olderThan, commits, n) == {}
  {
    if n > 0 {
      NoneExpires(ss, head, olderThan, commits, n - 1);
    }
  }

  /** A dry run spares the objects, but leaves the snapshots alone in every world only if expiry was not
      requested or there is nothing but the head to expire. */
  lemma DryRunStillExpires(o: Options, ss: seq<Snapshot>, head: Option<int>)
    requires o.dryRun && UniqueIds(ss)
    ensures forall c, w, bucket, keys, refs :: KeysAfter(o, c, w, bucket, keys, refs) == keys
    ensures (forall c, w :: SnapshotsAfter(o, c, w, ss, head) == ss)
       <==> !o.expire || forall i :: 0 <= i < |ss| && (o.retainLast <= 0 || i < |ss| - o.retainLast) ==>
                head == Some(ss[i].id)
  {
    hide Keep, ExpiredIds, CandidateCount, UniqueIds;
    CountInRange(|ss|, o.retainLast);
    var n := CandidateCount(|ss|, o.retainLast);
    if o.expire {
      if i :| 0 <= i < n && head != Some(ss[i].id) {
        var w := World(Succeeds, true, _ => true, false, AllReads(), None, 0, _ => true);
        SurvivesExactly(ss, head, None, o.retainLast, w.commits, i);
        assert ss[i] in ss;
        assert SnapshotsAfter(o, Succeeds, w, ss, head) != ss;
      } else {
        forall c, w ensures SnapshotsAfter(o, c, w, ss, head) == ss {
          NoneExpires(ss, head, None, w.commits, n);
          KeepAll(ss);
        }
      }
    }
  }

  /** How many commits writers make during the compaction of a run. */
  function WritersCommits<T>(o: Options, w: CompactionWorld<T>, l: Compaction.Lake<T>, retries: int): nat
  {
    if o.compact && w.start.Starts? && w.files >= o.minFileCount then Compaction.CallArrivals(l, w.rounds, retries, 0)
    else 0
  }

  /** A dry run leaves the table to its writers exactly when compaction is not requested, does not start or
      finds too few files, or no attempt it reaches commits: whatever writers and failures do, it rewrites
      the table exactly when an ordinary run would. */
  lemma DryRunStillCompacts<T>(o: Options, w: CompactionWorld<T>, l: Compaction.Lake<T>, retries: int)
    requires o.dryRun
    ensures LakeAfter(o, w, l, retries) == LakeAfter(o.(dryRun := false), w, l, retries)
    ensures LakeAfter(o, w, l, retries).version == l.version + WritersCommits(o, w, l, retries)
       <==> || !o.compact || !w.start.Starts? || w.files < o.minFileCount
            || forall k: nat, at :: k < retries && Compaction.Reaches(l, w.rounds, 0, k, at) ==>
                 !Compaction.Commits(at, w.rounds(k))
  {
    hide Compaction.Commits, Compaction.Compact, Compaction.CallArrivals, Compaction.Reaches;
    Compaction.OnlyWritersCommittedExactly(l, w.rounds, retries);
  }

  /** A file that a snapshot left by the run's expiry needs is still there after its cleanup, whichever
      commits and requests fail, provided what the survivors name can be read. */
  lemma SurvivorsKeepTheirFiles(o: Options, c: Reply, w: World, ss: seq<Snapshot>, head: Option<int>, bucket: string,
                                keys: set<string>, more: set<string>, i: nat, key: string)
    requires var left := SnapshotsAfter(o, c, w, ss, head);
             && (forall j :: 0 <= j < |left| ==> Readable(left[j], w.io))
             && i < |left| && (Uri(bucket, key) in FilesOf(left[i]) || key in FilesOf(left[i]))
    requires key in keys
    ensures key in KeysAfter(o, c, w, bucket, keys, Referenced(SnapshotsAfter(o, c, w, ss, head), w.io) + more)
  {
    hide Referenced, FilesOf, Readable, Orphans, Uri, DeletedKeys, SnapshotsAfter;
    var left := SnapshotsAfter(o, c, w, ss, head);
    if w.listing.Some? {
      CleanupSparesSnapshots(left, w.io, more, bucket, w.now, o.buffer, w.listing.value, w.chunkOk, i, key);
    }
  }
}
