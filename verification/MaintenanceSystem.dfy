/** Orphan cleaners at work beside writers and snapshot expiry, step by step and by the clock.

    A writer uploads files and later commits a snapshot that names them. A cleaner reads the referenced
    set, then its clock, then the object listing, and then deletes chunk by chunk. */
module MaintenanceSystem {
  import opened Snapshots
  import opened Maintenance

  datatype Cleaner =
    | Scanned(refs: set<string>, at: int)
    | Timed(refs: set<string>, at: int, now: int)
    | Listed(refs: set<string>, at: int, now: int, doomed: set<string>)

  /** `uploaded` remembers when every file was written, `store` is what still exists, `live` the
      snapshots the table still has. */
  datatype State = State(clock: int, uploaded: map<string, int>, store: set<string>, live: set<Snapshot>,
                         cleaners: map<nat, Cleaner>)

  datatype Action =
    | Advance(time: nat)
    | Upload(file: string)
    | Commit(snapshot: Snapshot)
    | Expire(snapshot: Snapshot)
    | Scan(cleaner: nat, io: Io)
    | ReadClock(cleaner: nat)
    | List(cleaner: nat)
    | Delete(cleaner: nat, chunk: set<string>)

  /** Some live snapshot needs the file. */
  ghost predicate Reachable(s: State, f: string) { exists x :: x in s.live && f in FilesOf(x) }

  function RefsOf(live: set<Snapshot>, io: Io): set<string>
  {
    set x, f | x in live && f in SnapshotFiles(x, io) :: f
  }

  function Doomed(s: State, refs: set<string>, now: int, buffer: int): set<string>
  {
    set f | f in s.store && f in s.uploaded && f !in refs && !IsMetadata(f) && now - s.uploaded[f] >= buffer
  }

  /** File names are never reused; an action out of place changes nothing. */
  function Step(buffer: int, s: State, a: Action): State
  {
    match a
    case Advance(time) => s.(clock := s.clock + time)
    case Upload(f) => if f in s.uploaded then s else s.(uploaded := s.uploaded[f := s.clock], store := s.store + {f})
    case Commit(x) => s.(live := s.live + {x})
    case Expire(x) => s.(live := s.live - {x})
    case Scan(c, io) => s.(cleaners := s.cleaners[c := Scanned(RefsOf(s.live, io), s.clock)])
    case ReadClock(c) =>
      if c in s.cleaners && s.cleaners[c].Scanned? then
        s.(cleaners := s.cleaners[c := Timed(s.cleaners[c].refs, s.cleaners[c].at, s.clock)])
      else s
    case List(c) =>
      if c in s.cleaners && s.cleaners[c].Timed? then
        var w := s.cleaners[c];
        s.(cleaners := s.cleaners[c := Listed(w.refs, w.at, w.now, Doomed(s, w.refs, w.now, buffer))])
      else s
    case Delete(c, chunk) =>
      if c in s.cleaners && s.cleaners[c].Listed? then s.(store := s.store - s.cleaners[c].doomed * chunk) else s
  }

  function Run(buffer: int, actions: seq<Action>, n: nat): State
    requires n <= |actions|
  {
    if n == 0 then State(0, map[], {}, {}, map[]) else Step(buffer, Run(buffer, actions, n - 1), actions[n - 1])
  }

  /** The premises. A commit names only reachable files and files uploaded at most `delay` ago; a scan
      reads every live snapshot completely; and `delay` plus the time between a cleaner's scan and its
      clock reading stays below the safety buffer. */
  ghost predicate Timely(delay: int, buffer: int, s: State, a: Action)
  {
    match a
    case Commit(x) =>
      forall f :: f in FilesOf(x) ==> Reachable(s, f) || (f in s.uploaded && s.clock - s.uploaded[f] <= delay)
    case Scan(_, io) => forall x :: x in s.live ==> Readable(x, io)
    case ReadClock(c) => c in s.cleaners && s.cleaners[c].Scanned? ==> s.clock - s.cleaners[c].at + delay < buffer
    case _ => true
  }

  /** The same, with the gap between a scan and its clock reading bounded by itself. */
  ghost predicate Premises(delay: int, gap: int, s: State, a: Action)
  {
    match a
    case ReadClock(c) => c in s.cleaners && s.cleaners[c].Scanned? ==> s.clock - s.cleaners[c].at <= gap
    case _ => Timely(delay, 0, s, a)
  }

  // ----- The invariant ----------------------------------------------------------------------------

  ghost predicate CleanerSound(delay: int, buffer: int, s: State, w: Cleaner)
  {
    && w.at <= s.clock
    && (forall f :: Reachable(s, f) ==> f in w.refs || (f in s.uploaded && s.uploaded[f] >= w.at - delay))
    && (!w.Scanned? ==> w.at <= w.now <= s.clock && w.now - w.at + delay < buffer)
    && (w.Listed? ==> forall f :: f in w.doomed ==> f !in w.refs && f in s.uploaded && w.now - s.uploaded[f] >= buffer)
  }

  ghost predicate FilesSound(delay: int, s: State)
  {
    && (forall f :: Reachable(s, f) ==> f in s.store)
    && (forall f :: f in s.store ==> f in s.uploaded)
    && (forall f :: f in s.uploaded ==> s.uploaded[f] <= s.clock && (s.clock - s.uploaded[f] <= delay ==> f in s.store))
  }

  ghost predicate Sound(delay: int, buffer: int, s: State)
  {
    FilesSound(delay, s) && forall c :: c in s.cleaners ==> CleanerSound(delay, buffer, s, s.cleaners[c])
  }

  lemma AdvanceSound(delay: int, buffer: int, s: State, time: nat)
    requires Sound(delay, buffer, s)
    ensures Sound(delay, buffer, Step(buffer, s, Advance(time)))
  {
    hide FilesOf;
    var t := Step(buffer, s, Advance(time));
    assert forall f :: Reachable(t, f) == Reachable(s, f);
  }

  lemma UploadSound(delay: int, buffer: int, s: State, f: string)
    requires Sound(delay, buffer, s)
    ensures Sound(delay, buffer, Step(buffer, s, Upload(f)))
  {
    hide FilesOf;
    var t := Step(buffer, s, Upload(f));
    assert forall g :: Reachable(t, g) == Reachable(s, g);
    forall c | c in t.cleaners ensures CleanerSound(delay, buffer, t, t.cleaners[c]) {
      assert CleanerSound(delay, buffer, s, s.cleaners[c]);
    }
  }

  lemma CommitSound(delay: int, buffer: int, s: State, x: Snapshot)
    requires Sound(delay, buffer, s) && Timely(delay, buffer, s, Commit(x))
    ensures Sound(delay, buffer, Step(buffer, s, Commit(x)))
  {
    hide FilesOf;
    var t := Step(buffer, s, Commit(x));
    forall f | Reachable(t, f) ensures Reachable(s, f) || (f in s.uploaded && s.clock - s.uploaded[f] <= delay) {
      var y :| y in t.live && f in FilesOf(y);
      assert y in s.live || y == x;
    }
    forall c | c in t.cleaners ensures CleanerSound(delay, buffer, t, t.cleaners[c]) {
      assert CleanerSound(delay, buffer, s, s.cleaners[c]);
    }
  }

  lemma ExpireSound(delay: int, buffer: int, s: State, x: Snapshot)
    requires Sound(delay, buffer, s)
    ensures Sound(delay, buffer, Step(buffer, s, Expire(x)))
  {
    hide FilesOf;
    var t := Step(buffer, s, Expire(x));
    assert forall f :: Reachable(t, f) ==> Reachable(s, f);
    forall c | c in t.cleaners ensures CleanerSound(delay, buffer, t, t.cleaners[c]) {
      assert CleanerSound(delay, buffer, s, s.cleaners[c]);
    }
  }

  lemma RefsComplete(s: State, io: Io, f: string)
    requires (forall x :: x in s.live ==> Readable(x, io)) && Reachable(s, f)
    ensures f in RefsOf(s.live, io)
  {
    hide SnapshotFiles, Readable, FilesOf;
    var x :| x in s.live && f in FilesOf(x);
    ReadableComplete(x, io);
    assert f in SnapshotFiles(x, io);
  }

  lemma ScanSound(delay: int, buffer: int, s: State, c: nat, io: Io)
    requires Sound(delay, buffer, s) && Timely(delay, buffer, s, Scan(c, io))
    ensures Sound(delay, buffer, Step(buffer, s, Scan(c, io)))
  {
    hide FilesOf, RefsOf, Readable;
    var t := Step(buffer, s, Scan(c, io));
    forall f | Reachable(t, f) ensures Reachable(s, f) && f in RefsOf(s.live, io) {
      assert Reachable(s, f);
      RefsComplete(s, io, f);
    }
    forall d | d in t.cleaners ensures CleanerSound(delay, buffer, t, t.cleaners[d]) {
      assert d != c ==> CleanerSound(delay, buffer, s, s.cleaners[d]);
    }
  }

  lemma CleanerMoves(delay: int, buffer: int, s: State, c: nat, a: Action)
    requires a == ReadClock(c) || a == List(c)
    requires Sound(delay, buffer, s) && Timely(delay, buffer, s, a)
    ensures Sound(delay, buffer, Step(buffer, s, a))
  {
    hide FilesOf, IsMetadata;
    var t := Step(buffer, s, a);
    assert forall f :: Reachable(t, f) == Reachable(s, f);
    forall d | d in t.cleaners ensures CleanerSound(delay, buffer, t, t.cleaners[d]) {
      assert CleanerSound(delay, buffer, s, s.cleaners[d]);
    }
  }

  /** A listed cleaner's chunk holds no file a live snapshot needs, nor one uploaded at most `delay` ago. */
  lemma DoomedIsGarbage(delay: int, buffer: int, s: State, w: Cleaner, f: string)
    requires delay >= 0 && w.Listed? && CleanerSound(delay, buffer, s, w) && f in w.doomed
    ensures !Reachable(s, f) && f in s.uploaded && s.clock - s.uploaded[f] > delay
  {
  }

  lemma DeleteSound(delay: int, buffer: int, s: State, c: nat, chunk: set<string>)
    requires delay >= 0 && Sound(delay, buffer, s)
    ensures Sound(delay, buffer, Step(buffer, s, Delete(c, chunk)))
  {
    hide FilesOf;
    if c in s.cleaners && s.cleaners[c].Listed? {
      var t := Step(buffer, s, Delete(c, chunk));
      assert forall f :: Reachable(t, f) == Reachable(s, f);
      forall f | f in s.cleaners[c].doomed
        ensures !Reachable(s, f) && f in s.uploaded && s.clock - s.uploaded[f] > delay
      {
        DoomedIsGarbage(delay, buffer, s, s.cleaners[c], f);
      }
      forall d | d in t.cleaners ensures CleanerSound(delay, buffer, t, t.cleaners[d]) {
        assert CleanerSound(delay, buffer, s, s.cleaners[d]);
      }
    }
  }

  lemma StepSound(delay: int, buffer: int, s: State, a: Action)
    requires delay >= 0 && Sound(delay, buffer, s) && Timely(delay, buffer, s, a)
    ensures Sound(delay, buffer, Step(buffer, s, a))
  {
    hide Sound, Timely, Step;
    match a
    case Advance(time) => AdvanceSound(delay, buffer, s, time);
    case Upload(f) => UploadSound(delay, buffer, s, f);
    case Commit(x) => CommitSound(delay, buffer, s, x);
    case Expire(x) => ExpireSound(delay, buffer, s, x);
    case Scan(c, io) => ScanSound(delay, buffer, s, c, io);
    case ReadClock(c) => CleanerMoves(delay, buffer, s, c, a);
    case List(c) => CleanerMoves(delay, buffer, s, c, a);
    case Delete(c, chunk) => DeleteSound(delay, buffer, s, c, chunk);
  }

  lemma {:induction false} RunSound(delay: int, buffer: int, actions: seq<Action>, n: nat)
    requires delay >= 0 && n <= |actions|
    requires forall i :: 0 <= i < n ==> Timely(delay, buffer, Run(buffer, actions, i), actions[i])
    ensures Sound(delay, buffer, Run(buffer, actions, n))
  {
    hide Step, Timely;
    if n > 0 {
      hide Sound;
      RunSound(delay, buffer, actions, n - 1);
      StepSound(delay, buffer, Run(buffer, actions, n - 1), actions[n - 1]);
    }
  }

  /** In every interleaving of any number of writers, expiries and cleaners that meets the premises,
      every file of every live snapshot exists, and so does every file an in-flight writer uploaded at
      most `delay` ago. */
  lemma NeverBreaksALiveSnapshot(delay: int, buffer: int, actions: seq<Action>, n: nat, f: string)
    requires delay >= 0 && n <= |actions|
    requires forall i :: 0 <= i < n ==> Timely(delay, buffer, Run(buffer, actions, i), actions[i])
    ensures var s := Run(buffer, actions, n);
            && (Reachable(s, f) ==> f in s.store)
            && (f in s.uploaded && s.clock - s.uploaded[f] <= delay ==> f in s.store)
  {
    hide Run, Timely, CleanerSound;
    RunSound(delay, buffer, actions, n);
  }

  // ----- The cleanup call as a step -----------------------------------------------------------------

  lemma {:induction false} EndsWithSame(s: string, suffix: string, prefix: string)
    requires '/' !in suffix && suffix != "" && prefix != "" && prefix[|prefix| - 1] == '/'
    ensures EndsWith(prefix + s, suffix) <==> EndsWith(s, suffix)
  {
    var whole := prefix + s;
    if |suffix| <= |s| {
      assert whole[|whole| - |suffix|..] == s[|s| - |suffix|..];
    } else if |suffix| <= |whole| {
      assert whole[|prefix| - 1] == '/';
      assert whole[|whole| - |suffix|..][|suffix| - |s| - 1] == '/';
    }
  }

  lemma SlashReached(a: string, b: string, part: string)
    requires part <= a + "/" + b && |part| > |a|
    ensures '/' in part
  {
    assert part[|a|] == (a + "/" + b)[|a|];
  }

  /** A word without a slash is found in a path exactly when it is found in one of its parts. */
  lemma {:induction false} ContainsParts(a: string, b: string, part: string)
    requires '/' !in part && part != ""
    ensures Contains(a + "/" + b, part) <==> Contains(a, part) || Contains(b, part)
  {
    var whole := a + "/" + b;
    if a == "" {
      assert whole == "/" + b && whole[1..] == b;
      assert whole[0] == '/';
    } else {
      assert whole[1..] == a[1..] + "/" + b;
      ContainsParts(a[1..], b, part);
      if part <= whole && |part| > |a| {
        SlashReached(a, b, part);
      }
      assert part <= whole <==> part <= a by {
        if |part| <= |a| {
          assert whole[..|part|] == a[..|part|];
        }
      }
    }
  }

  /** Whether a file is protected as metadata can be read off its key or its URI, unless the bucket's own
      name says otherwise. */
  lemma MetadataByUri(bucket: string, key: string)
    requires !Contains(bucket, "version-hint")
    ensures IsMetadata(Uri(bucket, key)) <==> IsMetadata(key)
  {
    hide Contains, EndsWith;
    var prefix := "s3://" + bucket + "/";
    assert Uri(bucket, key) == prefix + key;
    EndsWithSame(key, ".metadata.json", prefix);
    assert Uri(bucket, key) == "s3:" + "/" + ("" + "/" + (bucket + "/" + key));
    ContainsParts("s3:", "" + "/" + (bucket + "/" + key), "version-hint");
    ContainsParts("", bucket + "/" + key, "version-hint");
    ContainsParts(bucket, key, "version-hint");
    NoHint();
  }

  lemma NoHint()
    ensures !Contains("s3:", "version-hint") && !Contains("", "version-hint")
  {
    assert "s3:"[1..] == "3:" && "3:"[1..] == ":" && ":"[1..] == "";
  }

  lemma UriDiffers(bucket: string, a: string, b: string)
    requires Uri(bucket, a) == Uri(bucket, b)
    ensures a == b
  {
    var prefix := "s3://" + bucket + "/";
    assert Uri(bucket, a) == prefix + a && Uri(bucket, b) == prefix + b;
    assert (prefix + a)[|prefix|..] == a && (prefix + b)[|prefix|..] == b;
  }

  /** The listing shows the store: files are named by URI, objects by key. */
  ghost predicate Shows(s: State, bucket: string, listing: seq<Object>)
  {
    && (forall o :: o in listing ==> var f := Uri(bucket, o.key);
          f in s.store && f in s.uploaded && o.modified == s.uploaded[f])
    && (forall f :: f in s.store ==> exists o :: o in listing && Uri(bucket, o.key) == f)
  }

  /** A cleanup pass whose listing shows the store finds exactly the doomed files, provided references are
      URIs and not bare keys. */
  lemma ListingFindsTheDoomed(s: State, bucket: string, refs: set<string>, now: int, buffer: int, listing: seq<Object>,
                              key: string)
    requires Shows(s, bucket, listing) && !Contains(bucket, "version-hint")
    requires forall o :: o in listing ==> o.key !in refs
    ensures Uri(bucket, key) in Doomed(s, refs, now, buffer) <==>
              key in Keys(Orphans(bucket, refs, now, buffer, listing))
  {
    hide Orphans, IsMetadata, Uri, Contains;
    var orphans := Orphans(bucket, refs, now, buffer, listing);
    MetadataByUri(bucket, key);
    if Uri(bucket, key) in Doomed(s, refs, now, buffer) {
      var o :| o in listing && Uri(bucket, o.key) == Uri(bucket, key);
      UriDiffers(bucket, o.key, key);
      OrphansExactly(bucket, refs, now, buffer, listing, o);
      var i :| 0 <= i < |orphans| && orphans[i] == o;
      assert Keys(orphans)[i] == key;
    }
    if key in Keys(orphans) {
      var i :| 0 <= i < |orphans| && Keys(orphans)[i] == key;
      OrphansExactly(bucket, refs, now, buffer, listing, orphans[i]);
    }
  }

  // ----- The premises are needed ------------------------------------------------------------------

  lemma First(buffer: int, actions: seq<Action>)
    ensures Run(buffer, actions, 0) == State(0, map[], {}, {}, map[])
  {
  }

  lemma Next(buffer: int, actions: seq<Action>, n: nat, before: State, after: State)
    requires n < |actions| && Run(buffer, actions, n) == before && Step(buffer, before, actions[n]) == after
    ensures Run(buffer, actions, n + 1) == after
  {
  }

  /** A snapshot of one data file, known by its manifest list alone. */
  function Small(): Snapshot { Snapshot(1, 0, "l", []) }

  lemma SmallFiles(io: Io)
    ensures SnapshotFiles(Small(), io) == FilesOf(Small()) == {"l"}
    ensures !IsMetadata("l")
  {
    assert forall i :: 0 <= i <= 1 ==> !("version-hint" <= "l"[i..]);
    assert "l"[1..] == "";
  }

  /** The shortest buffer that is too short, and every shorter one: a writer commits `delay` after its
      upload, in the instant of the scan that misses it; when the cleaner reads its clock `gap` later, the
      file is as old as the buffer, and it goes. */
  lemma BufferMustExceedDelayPlusGap(delay: nat, gap: nat, buffer: int, io: Io)
    requires buffer <= delay + gap
    ensures var actions := UnluckyRun(delay, gap, io);
            && (forall i :: 0 <= i < 8 ==> Premises(delay, gap, Run(buffer, actions, i), actions[i]))
            && Reachable(Run(buffer, actions, 8), "l") && "l" !in Run(buffer, actions, 8).store
  {
    hide Run, IsMetadata, FilesOf, SnapshotFiles, Readable;
    var actions := UnluckyRun(delay, gap, io);
    SmallFiles(io);
    var (u, x) := (map["l" := 0], Small());
    var s1 := State(0, u, {"l"}, {}, map[]);
    var s2 := s1.(clock := delay);
    var s3 := State(delay, u, {"l"}, {}, map[1 := Scanned({}, delay)]);
    var s4 := s3.(live := {x});
    var s5 := s4.(clock := delay + gap);
    var s6 := s5.(cleaners := map[1 := Timed({}, delay, delay + gap)]);
    var s7 := s5.(cleaners := map[1 := Listed({}, delay, delay + gap, {"l"})]);
    First(buffer, actions);
    Next(buffer, actions, 0, State(0, map[], {}, {}, map[]), s1);
    Next(buffer, actions, 1, s1, s2);
    assert RefsOf({}, io) == {};
    Next(buffer, actions, 2, s2, s3);
    Next(buffer, actions, 3, s3, s4);
    Next(buffer, actions, 4, s4, s5);
    Next(buffer, actions, 5, s5, s6);
    assert Doomed(s6, {}, delay + gap, buffer) == {"l"};
    Next(buffer, actions, 6, s6, s7);
    Next(buffer, actions, 7, s7, s7.(store := {}));
    assert x in s7.live && "l" in FilesOf(x);
  }

  function UnluckyRun(delay: nat, gap: nat, io: Io): seq<Action>
  {
    [Upload("l"), Advance(delay), Scan(1, io), Commit(Small()), Advance(gap), ReadClock(1), List(1), Delete(1, {"l"})]
  }

  /** The first `n` actions meet the premises. */
  ghost predicate Keeps(delay: int, gap: int, buffer: int, actions: seq<Action>, n: nat)
  {
    n <= |actions| && forall i :: 0 <= i < n ==> Premises(delay, gap, Run(buffer, actions, i), actions[i])
  }

  /** No run in which commits, scans and clock readings keep to `delay` and `gap` deletes a file that a live
      snapshot needs. */
  ghost predicate Safe(delay: int, gap: int, buffer: int)
  {
    forall actions: seq<Action>, n: nat, f ::
      Keeps(delay, gap, buffer, actions, n) && Reachable(Run(buffer, actions, n), f) ==>
          f in Run(buffer, actions, n).store
  }

  /** The safety buffer protects every run exactly when it exceeds writer delay plus scan-to-clock gap. */
  lemma BufferExactly(delay: nat, gap: nat, buffer: int)
    ensures Safe(delay, gap, buffer) <==> delay + gap < buffer
  {
    hide Run, Premises, Reachable, Timely, UnluckyRun;
    if delay + gap < buffer {
      forall actions: seq<Action>, n: nat, f | Keeps(delay, gap, buffer, actions, n) &&
          Reachable(Run(buffer, actions, n), f)
        ensures f in Run(buffer, actions, n).store
      {
        forall i | 0 <= i < n ensures Timely(delay, buffer, Run(buffer, actions, i), actions[i]) {
          PremisesAreTimely(delay, gap, buffer, Run(buffer, actions, i), actions[i]);
        }
        NeverBreaksALiveSnapshot(delay, buffer, actions, n, f);
      }
    } else {
      var actions := UnluckyRun(delay, gap, AllReads());
      BufferMustExceedDelayPlusGap(delay, gap, buffer, AllReads());
      UnluckyLength(delay, gap, AllReads());
      assert Keeps(delay, gap, buffer, actions, 8);
      assert "l" !in Run(buffer, actions, 8).store && Reachable(Run(buffer, actions, 8), "l");
    }
  }

  lemma UnluckyLength(delay: nat, gap: nat, io: Io)
    ensures |UnluckyRun(delay, gap, io)| == 8
  {
  }

  lemma PremisesAreTimely(delay: int, gap: int, buffer: int, s: State, a: Action)
    requires Premises(delay, gap, s, a) && delay + gap < buffer
    ensures Timely(delay, buffer, s, a)
  {
  }

  // ----- Reads must succeed -----------------------------------------------------------------------

  ghost predicate ReadsAll(io: Io) { (forall id :: io.list(id)) && (forall p :: io.entries(p)) }

  /** The premises but for the completeness of scans, which all read through `io`. */
  ghost predicate PremisesBut(delay: int, gap: int, io: Io, s: State, a: Action)
  {
    match a
    case Scan(_, through) => through == io
    case _ => Premises(delay, gap, s, a)
  }

  ghost predicate KeepsBut(delay: int, gap: int, buffer: int, io: Io, actions: seq<Action>, n: nat)
  {
    n <= |actions| && forall i :: 0 <= i < n ==> PremisesBut(delay, gap, io, Run(buffer, actions, i), actions[i])
  }

  /** `Safe`, for runs that read through `io`. */
  ghost predicate SafeThrough(delay: int, gap: int, buffer: int, io: Io)
  {
    forall actions: seq<Action>, n: nat, f ::
      KeepsBut(delay, gap, buffer, io, actions, n) && Reachable(Run(buffer, actions, n), f) ==>
          f in Run(buffer, actions, n).store
  }

  /** A snapshot of one manifest with one data file. */
  function OneFile(id: int, p: string, f: string): Snapshot { Snapshot(id, 0, "", [Manifest(p, [f])]) }

  function OldFileRun(id: int, p: string, f: string, buffer: nat, io: Io): seq<Action>
  {
    [Upload(p), Upload(f), Commit(OneFile(id, p, f)), Advance(buffer), Scan(1, io), ReadClock(1), List(1),
     Delete(1, {f})]
  }

  lemma OneFileFiles(id: int, p: string, f: string, io: Io)
    requires f != "" && f != p
    ensures FilesOf(OneFile(id, p, f)) == {p, f}
    ensures f in SnapshotFiles(OneFile(id, p, f), io) <==> io.list(id) && io.entries(p)
  {
    var x := OneFile(id, p, f);
    var m := Manifest(p, [f]);
    SnapshotFilesExactly(x, io, f);
    assert x.manifests[0] == m && f in m.entries;
    forall g ensures g in FilesOf(x) <==> g == p || g == f {
      if g == p {
        assert g == x.manifests[0].path;
      }
    }
    if io.list(id) && io.entries(p) {
      assert Lists(x.manifests[0], io, f);
    }
  }

  /** Whichever snapshot or manifest it is that cannot be read, the data file behind it is deleted when it is
      as old as the buffer, however long the buffer. */
  lemma ReadsMustSucceed(delay: nat, gap: nat, buffer: nat, id: int, p: string, f: string, io: Io)
    requires f != "" && f != p && !IsMetadata(f) && !(io.list(id) && io.entries(p))
    ensures var actions := OldFileRun(id, p, f, buffer, io);
            && KeepsBut(delay, gap, buffer, io, actions, 8)
            && Reachable(Run(buffer, actions, 8), f) && f !in Run(buffer, actions, 8).store
  {
    hide Run, IsMetadata, FilesOf, SnapshotFiles;
    var actions := OldFileRun(id, p, f, buffer, io);
    var (u, x) := (map[p := 0, f := 0], OneFile(id, p, f));
    OneFileFiles(id, p, f, io);
    var refs := RefsOf({x}, io);
    var s0 := State(0, map[], {}, {}, map[]);
    var s1 := State(0, map[p := 0], {p}, {}, map[]);
    var s2 := State(0, u, {p, f}, {}, map[]);
    var s3 := s2.(live := {x});
    var s4 := s3.(clock := buffer);
    var s5 := s4.(cleaners := map[1 := Scanned(refs, buffer)]);
    var s6 := s4.(cleaners := map[1 := Timed(refs, buffer, buffer)]);
    var s7 := s4.(cleaners := map[1 := Listed(refs, buffer, buffer, Doomed(s6, refs, buffer, buffer))]);
    First(buffer, actions);
    Next(buffer, actions, 0, s0, s1);
    Next(buffer, actions, 1, s1, s2);
    Next(buffer, actions, 2, s2, s3);
    Next(buffer, actions, 3, s3, s4);
    Next(buffer, actions, 4, s4, s5);
    Next(buffer, actions, 5, s5, s6);
    Next(buffer, actions, 6, s6, s7);
    assert f in Doomed(s6, refs, buffer, buffer);
    Next(buffer, actions, 7, s7, Step(buffer, s7, Delete(1, {f})));
    assert x in s7.live && f in FilesOf(x);
  }

  lemma ReadableThrough(io: Io, x: Snapshot)
    requires ReadsAll(io)
    ensures Readable(x, io)
  {
  }

  /** Some file name that is neither empty, nor metadata, nor this path. */
  lemma OtherName(p: string) returns (f: string)
    ensures f != "" && f != p && !IsMetadata(f)
  {
    assert "m"[1..] == "" && "n"[1..] == "";
    assert !IsMetadata("m") && !IsMetadata("n");
    f := if p == "m" then "n" else "m";
  }

  /** With a buffer longer than delay plus gap, every run that meets the other premises is safe exactly when no
      read fails, neither of a snapshot's list of manifests nor of a manifest's entries. */
  lemma ReadsExactly(delay: nat, gap: nat, buffer: nat, io: Io)
    requires delay + gap < buffer
    ensures SafeThrough(delay, gap, buffer, io) <==> ReadsAll(io)
  {
    hide Run, Premises, Reachable, Timely, OldFileRun, IsMetadata, Readable;
    if ReadsAll(io) {
      BufferExactly(delay, gap, buffer);
      forall actions: seq<Action>, n: nat | KeepsBut(delay, gap, buffer, io, actions, n)
        ensures Keeps(delay, gap, buffer, actions, n)
      {
        forall i | 0 <= i < n ensures Premises(delay, gap, Run(buffer, actions, i), actions[i]) {
          ScansAreComplete(delay, gap, io, Run(buffer, actions, i), actions[i]);
        }
      }
    } else {
      var id, p :| !(io.list(id) && io.entries(p));
      var f := OtherName(p);
      ReadsMustSucceed(delay, gap, buffer, id, p, f, io);
    }
  }

  lemma ScansAreComplete(delay: int, gap: int, io: Io, s: State, a: Action)
    requires ReadsAll(io) && PremisesBut(delay, gap, io, s, a)
    ensures Premises(delay, gap, s, a)
  {
    hide Readable;
    forall x | x in s.live ensures Readable(x, io) {
      ReadableThrough(io, x);
    }
  }
}
