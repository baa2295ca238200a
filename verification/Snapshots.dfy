/** Table snapshots: expiring old ones, collecting the files the rest refer to, deleting orphans. */
module Snapshots {
  import opened Wrappers

  datatype Manifest = Manifest(path: string, entries: seq<string>)

  /** An empty manifest list or data path stands for a missing one. */
  datatype Snapshot = Snapshot(id: int, at: int, manifestList: string, manifests: seq<Manifest>)

  datatype Object = Object(key: string, modified: int, size: nat)

  datatype Expiration = Expiration(before: nat, expired: nat, remaining: nat, ids: seq<int>)
  datatype Cleanup = Cleanup(success: bool, found: nat, deleted: nat, bytes: nat, keys: seq<string>)

  ghost predicate UniqueIds(ss: seq<Snapshot>) { forall i, j :: 0 <= i < j < |ss| ==> ss[i].id != ss[j].id }

  // ----- Expiry -----------------------------------------------------------------------------------

  /** The snapshots whose id is not in `gone`, in order. */
  function Keep(ss: seq<Snapshot>, gone: set<int>): seq<Snapshot>
  {
    if ss == [] then []
    else (if ss[0].id in gone then [] else [ss[0]]) + Keep(ss[1..], gone)
  }

  /** How many of `n` snapshots, oldest first, are not protected as the most recent. */
  function CandidateCount(n: nat, retainLast: int): nat
  {
    if n <= retainLast then 0 else if retainLast > 0 then n - retainLast else n
  }

  predicate Expires(s: Snapshot, head: Option<int>, olderThan: Option<int>)
  {
    (olderThan.Some? ==> s.at < olderThan.value) && head != Some(s.id)
  }

  /** The ids expired among the first `n` snapshots, given which single-id commits go through. */
  function ExpiredIds(ss: seq<Snapshot>, head: Option<int>, olderThan: Option<int>, commits: int -> bool,
                      n: nat): set<int>
    requires n <= |ss|
  {
    if n == 0 then {}
    else
      ExpiredIds(ss, head, olderThan, commits, n - 1) +
      if Expires(ss[n - 1], head, olderThan) && commits(ss[n - 1].id) then {ss[n - 1].id} else {}
  }

  // ----- References -------------------------------------------------------------------------------

  /** Which reads succeed: a snapshot's list of manifests, and a manifest's entries. */
  datatype Io = Io(list: int -> bool, entries: string -> bool)

  function NonEmpty(paths: seq<string>): set<string> { set i | 0 <= i < |paths| && paths[i] != "" :: paths[i] }

  function ManifestFiles(m: Manifest, io: Io): set<string>
  {
    {m.path} + if io.entries(m.path) then NonEmpty(m.entries) else {}
  }

  function ManifestsFiles(ms: seq<Manifest>, io: Io): set<string>
  {
    if ms == [] then {}
    else ManifestsFiles(ms[..|ms| - 1], io) + ManifestFiles(ms[|ms| - 1], io)
  }

  function SnapshotFiles(s: Snapshot, io: Io): set<string>
  {
    (if s.manifestList != "" then {s.manifestList} else {}) +
    (if io.list(s.id) then ManifestsFiles(s.manifests, io) else {})
  }

  function Referenced(ss: seq<Snapshot>, io: Io): set<string>
  {
    if ss == [] then {} else Referenced(ss[..|ss| - 1], io) + SnapshotFiles(ss[|ss| - 1], io)
  }

  function MetadataFile(location: string): set<string> { if location != "" then {location} else {} }

  /** Every read succeeds. */
  function AllReads(): Io { Io(_ => true, _ => true) }

  /** A reading of the snapshot turns up the file: it is the manifest list, a manifest, or an entry of a manifest,
      as far as the snapshot's list and the manifest's entries can be read. */
  ghost predicate Names(s: Snapshot, io: Io, f: string)
  {
    || (f != "" && f == s.manifestList)
    || (io.list(s.id) && exists i :: 0 <= i < |s.manifests| && Lists(s.manifests[i], io, f))
  }

  ghost predicate Lists(m: Manifest, io: Io, f: string)
  {
    f == m.path || (f != "" && io.entries(m.path) && f in m.entries)
  }

  /** The manifest list, manifests and data files a reader of the snapshot needs. */
  function FilesOf(s: Snapshot): set<string>
  {
    (if s.manifestList != "" then {s.manifestList} else {}) +
    (set i | 0 <= i < |s.manifests| :: s.manifests[i].path) +
    (set i, f | 0 <= i < |s.manifests| && f in s.manifests[i].entries && f != "" :: f)
  }

  lemma {:induction false} ManifestsFilesExactly(ms: seq<Manifest>, io: Io, f: string)
    ensures f in ManifestsFiles(ms, io) <==> exists i :: 0 <= i < |ms| && Lists(ms[i], io, f)
  {
    if ms != [] {
      var front, last := ms[..|ms| - 1], ms[|ms| - 1];
      ManifestsFilesExactly(front, io, f);
      assert forall i :: 0 <= i < |front| ==> front[i] == ms[i];
      if Lists(last, io, f) {
        assert Lists(ms[|ms| - 1], io, f);
      }
    }
  }

  /** Of every manifest, the first to the last, the path and every entry is collected, and nothing else. */
  lemma SnapshotFilesExactly(s: Snapshot, io: Io, f: string)
    ensures f in SnapshotFiles(s, io) <==> Names(s, io, f)
  {
    ManifestsFilesExactly(s.manifests, io, f);
  }

  lemma {:induction false} ReferencedExactly(ss: seq<Snapshot>, io: Io, f: string)
    ensures f in Referenced(ss, io) <==> exists i :: 0 <= i < |ss| && Names(ss[i], io, f)
  {
    hide Names, SnapshotFiles;
    if ss != [] {
      ReferencedExactly(ss[..|ss| - 1], io, f);
      SnapshotFilesExactly(ss[|ss| - 1], io, f);
      assert forall i :: 0 <= i < |ss| - 1 ==> ss[..|ss| - 1][i] == ss[i];
    }
  }

  // ----- Orphans ----------------------------------------------------------------------------------

  predicate EndsWith(s: string, suffix: string) { |suffix| <= |s| && s[|s| - |suffix|..] == suffix }

  predicate Contains(s: string, part: string) { part <= s || (s != "" && Contains(s[1..], part)) }

  predicate IsMetadata(key: string) { EndsWith(key, ".metadata.json") || Contains(key, "version-hint") }

  /** The word stands in the string at position `i`. */
  predicate StandsAt(s: string, part: string, i: int) { 0 <= i <= |s| - |part| && s[i..i + |part|] == part }

  /** A metadata file is one whose name ends in .metadata.json or has "version-hint" somewhere in it. */
  lemma MetadataExactly(key: string)
    ensures IsMetadata(key)
       <==> || StandsAt(key, ".metadata.json", |key| - 14)
            || exists i :: StandsAt(key, "version-hint", i)
  {
    hide Contains;
    ContainsExactly(key, "version-hint");
    assert |".metadata.json"| == 14;
    if |key| >= 14 {
      assert key[|key| - 14..] == key[|key| - 14..|key| - 14 + 14];
    }
  }

  lemma {:induction false} ContainsExactly(s: string, part: string)
    ensures Contains(s, part) <==> exists i :: StandsAt(s, part, i)
  {
    if part <= s {
      assert StandsAt(s, part, 0);
    } else {
      assert !StandsAt(s, part, 0);
      if s != "" {
        ContainsExactly(s[1..], part);
        if i :| StandsAt(s[1..], part, i) {
          ShiftedWord(s, part, i);
        }
        if i :| StandsAt(s, part, i) {
          ShiftedWord(s, part, i - 1);
          assert StandsAt(s[1..], part, i - 1);
        }
      }
    }
  }

  lemma ShiftedWord(s: string, part: string, i: int)
    requires s != ""
    ensures i >= 0 ==> (StandsAt(s[1..], part, i) <==> StandsAt(s, part, i + 1))
  {
    if 0 <= i && i + 1 + |part| <= |s| {
      assert s[1..][i..i + |part|] == s[i + 1..i + 1 + |part|];
    }
  }

  function Uri(bucket: string, key: string): string { "s3://" + bucket + "/" + key }

  /** Unreferenced, not table metadata, and not modified within the safety buffer. */
  predicate IsOrphan(bucket: string, refs: set<string>, now: int, buffer: int, o: Object)
  {
    Uri(bucket, o.key) !in refs && o.key !in refs && !IsMetadata(o.key) && now - o.modified >= buffer
  }

  function Orphans(bucket: string, refs: set<string>, now: int, buffer: int, listing: seq<Object>): seq<Object>
  {
    if listing == [] then []
    else
      var front := Orphans(bucket, refs, now, buffer, listing[..|listing| - 1]);
      if IsOrphan(bucket, refs, now, buffer, listing[|listing| - 1]) then front + [listing[|listing| - 1]] else front
  }

  function Keys(os: seq<Object>): seq<string> { seq(|os|, i requires 0 <= i < |os| => os[i].key) }

  function TotalSize(os: seq<Object>): nat
  {
    if os == [] then 0 else TotalSize(os[..|os| - 1]) + os[|os| - 1].size
  }

  /** The keys in the chunks whose delete request succeeds. */
  function DeletedKeys(keys: seq<string>, chunkOk: nat -> bool): set<string>
  {
    set i | 0 <= i < |keys| && chunkOk(i / CHUNK) :: keys[i]
  }

  const CHUNK := 1000

  class Table {
    var snapshots: seq<Snapshot>
    var head: Option<int>
    var metadataLocation: string

    constructor (snapshots: seq<Snapshot>, head: Option<int>, metadataLocation: string)
      ensures this.snapshots == snapshots && this.head == head && this.metadataLocation == metadataLocation
    {
      this.snapshots, this.head, this.metadataLocation := snapshots, head, metadataLocation;
    }
  }

  class Bucket {
    const name: string
    var keys: set<string>

    constructor (name: string, keys: set<string>)
      ensures this.name == name && this.keys == keys
    {
      this.name, this.keys := name, keys;
    }
  }

  class SnapshotManager {
    const table: Table
    const bucket: Bucket

    constructor (table: Table, bucket: Bucket)
      ensures this.table == table && this.bucket == bucket
    {
      this.table, this.bucket := table, bucket;
    }

    /** One commit per snapshot; a commit that fails leaves its snapshot in place. */
    method ExpireSnapshots(olderThan: Option<int>, retainLast: int, commits: int -> bool) returns (r: Expiration)
      modifies table`snapshots
      ensures var ss := old(table.snapshots);
              var gone := ExpiredIds(ss, table.head, olderThan, commits, CandidateCount(|ss|, retainLast));
              && table.snapshots == Keep(ss, gone)
              && r.before == |ss| && r.remaining == |table.snapshots| && r.expired == |r.ids|
              && (forall id :: id in r.ids <==> id in gone)
    {
      hide Keep, Expires;
      var snapshots := table.snapshots;
      KeepAll(snapshots);
      if |snapshots| <= retainLast {
        return Expiration(|snapshots|, 0, |snapshots|, []);
      }
      var candidates := if retainLast > 0 then snapshots[..|snapshots| - retainLast] else snapshots;
      var expired: seq<int> := [];
      for i := 0 to |candidates|
        invariant table.snapshots == Keep(snapshots, ExpiredIds(snapshots, table.head, olderThan, commits, i))
        invariant forall id :: id in expired <==> id in ExpiredIds(snapshots, table.head, olderThan, commits, i)
      {
        ghost var gone := ExpiredIds(snapshots, table.head, olderThan, commits, i);
        assert gone + {} == gone;
        var s := candidates[i];
        if Expires(s, table.head, olderThan) && commits(s.id) {
          KeepTwice(snapshots, gone, {s.id});
          var kept := RemoveId(table.snapshots, s.id);
          table.snapshots := kept;
          expired := expired + [s.id];
        }
      }
      return Expiration(|snapshots|, |expired|, |table.snapshots|, expired);
    }

    /** Every file the snapshots refer to, as far as their manifests can be read. */
    method GetReferencedFiles(io: Io) returns (refs: set<string>)
      ensures refs == Referenced(table.snapshots, io) + MetadataFile(table.metadataLocation)
      ensures forall f :: f in refs <==>
                (f != "" && f == table.metadataLocation) ||
                exists i :: 0 <= i < |table.snapshots| && Names(table.snapshots[i], io, f)
    {
      hide ManifestFiles, Names;
      refs := {};
      var ss := table.snapshots;
      for i := 0 to |ss|
        invariant refs == Referenced(ss[..i], io)
      {
        assert ss[..i + 1][..i] == ss[..i];
        ghost var before := refs;
        if ss[i].manifestList != "" {
          refs := refs + {ss[i].manifestList};
        }
        if io.list(ss[i].id) {
          ghost var listed := refs;
          var ms := ss[i].manifests;
          for j := 0 to |ms|
            invariant refs == listed + ManifestsFiles(ms[..j], io)
          {
            assert ms[..j + 1][..j] == ms[..j];
            var files := FilesIn(ms[j], io);
            refs := refs + files;
          }
          assert ms[..|ms|] == ms;
        }
        assert refs == before + SnapshotFiles(ss[i], io);
      }
      assert ss[..|ss|] == ss;
      if table.metadataLocation != "" {
        refs := refs + {table.metadataLocation};
      }
      forall f ensures f in Referenced(ss, io) <==> exists i :: 0 <= i < |ss| && Names(ss[i], io, f) {
        ReferencedExactly(ss, io, f);
      }
    }

    method FilesIn(m: Manifest, io: Io) returns (files: set<string>)
      ensures files == ManifestFiles(m, io)
    {
      files := {m.path};
      if io.entries(m.path) {
        for i := 0 to |m.entries|
          invariant files == {m.path} + NonEmpty(m.entries[..i])
        {
          if m.entries[i] != "" {
            files := files + {m.entries[i]};
          }
        }
        assert m.entries[..|m.entries|] == m.entries;
      }
    }

    /** Deletes the orphans in chunks. A listing that fails deletes nothing; a chunk that fails is
        skipped, yet every orphan is reported as deleted and its size as reclaimed, in a dry run too. */
    method CleanupOrphanFiles(io: Io, listing: Option<seq<Object>>, now: int, buffer: int, dryRun: bool,
                              chunkOk: nat -> bool)
        returns (r: Cleanup)
      modifies bucket
      ensures listing.None? ==> r == Cleanup(false, 0, 0, 0, []) && bucket.keys == old(bucket.keys)
      ensures listing.Some? ==>
                var refs := Referenced(table.snapshots, io) + MetadataFile(table.metadataLocation);
                var orphans := Orphans(bucket.name, refs, now, buffer, listing.value);
                var keys := Keys(orphans);
                && r == Cleanup(true, |keys|, if dryRun then 0 else |keys|, TotalSize(orphans), keys)
                && bucket.keys == (if dryRun then old(bucket.keys) else old(bucket.keys) - DeletedKeys(keys, chunkOk))
    {
      hide IsOrphan, Referenced;
      var refs := GetReferencedFiles(io);
      if listing.None? {
        return Cleanup(false, 0, 0, 0, []);
      }
      var objects := listing.value;
      var orphans: seq<Object> := [];
      for i := 0 to |objects|
        invariant orphans == Orphans(bucket.name, refs, now, buffer, objects[..i])
      {
        assert objects[..i + 1][..i] == objects[..i];
        if IsOrphan(bucket.name, refs, now, buffer, objects[i]) {
          orphans := orphans + [objects[i]];
        }
      }
      assert objects[..|objects|] == objects;
      var keys := Keys(orphans);
      if !dryRun {
        DeleteInChunks(keys, chunkOk);
      }
      var bytes := SumSizes(orphans);
      return Cleanup(true, |keys|, if dryRun then 0 else |keys|, bytes, keys);
    }

    method SumSizes(os: seq<Object>) returns (total: nat)
      ensures total == TotalSize(os)
    {
      total := 0;
      for i := 0 to |os|
        invariant total == TotalSize(os[..i])
      {
        assert os[..i + 1][..i] == os[..i];
        total := total + os[i].size;
      }
      assert os[..|os|] == os;
    }

    method DeleteInChunks(keys: seq<string>, chunkOk: nat -> bool)
      modifies bucket
      ensures bucket.keys == old(bucket.keys) - DeletedKeys(keys, chunkOk)
    {
      var i := 0;
      while i * CHUNK < |keys|
        invariant 0 <= i
        invariant bucket.keys == old(bucket.keys) -
                    set j | 0 <= j < |keys| && j < i * CHUNK && chunkOk(j / CHUNK) :: keys[j]
        decreases |keys| - i * CHUNK
      {
        var end := if (i + 1) * CHUNK <= |keys| then (i + 1) * CHUNK else |keys|;
        var chunk := keys[i * CHUNK..end];
        if chunkOk(i) {
          bucket.keys := bucket.keys - set k | k in chunk;
        }
        ChunkDeleted(keys, chunkOk, i, end);
        i := i + 1;
      }
    }
  }

  /** Deleting one more chunk extends the set of deleted keys by the keys of that chunk, if it succeeds. */
  lemma ChunkDeleted(keys: seq<string>, chunkOk: nat -> bool, i: nat, end: nat)
    requires i * CHUNK < end <= |keys| && end == (if (i + 1) * CHUNK <= |keys| then (i + 1) * CHUNK else |keys|)
    ensures (set j | 0 <= j < |keys| && j < (i + 1) * CHUNK && chunkOk(j / CHUNK) :: keys[j])
         == (set j | 0 <= j < |keys| && j < i * CHUNK && chunkOk(j / CHUNK) :: keys[j])
            + (if chunkOk(i) then set k | k in keys[i * CHUNK..end] else {})
  {
    var chunk := keys[i * CHUNK..end];
    forall k | k in chunk ensures exists j :: i * CHUNK <= j < end && keys[j] == k && j / CHUNK == i {
      var x :| 0 <= x < |chunk| && chunk[x] == k;
      assert keys[i * CHUNK + x] == k;
    }
    forall j | i * CHUNK <= j < end ensures keys[j] in chunk && j / CHUNK == i {
      assert chunk[j - i * CHUNK] == keys[j];
    }
  }

  method RemoveId(ss: seq<Snapshot>, id: int) returns (kept: seq<Snapshot>)
    ensures kept == Keep(ss, {id})
  {
    kept := [];
    var i := |ss|;
    while i > 0
      invariant 0 <= i <= |ss| && kept == Keep(ss[i..], {id})
    {
      i := i - 1;
      if ss[i].id != id {
        kept := [ss[i]] + kept;
      }
    }
  }

  lemma {:induction false} KeepAll(ss: seq<Snapshot>)
    ensures Keep(ss, {}) == ss
  {
    if ss != [] {
      KeepAll(ss[1..]);
    }
  }

  lemma {:induction false} KeepTwice(ss: seq<Snapshot>, a: set<int>, b: set<int>)
    ensures Keep(Keep(ss, a), b) == Keep(ss, a + b)
  {
    if ss != [] {
      KeepTwice(ss[1..], a, b);
      if ss[0].id in a {
        assert Keep(ss, a) == Keep(ss[1..], a);
      } else {
        assert Keep(ss, a)[1..] == Keep(ss[1..], a);
      }
    }
  }
}
