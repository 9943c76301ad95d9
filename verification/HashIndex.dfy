/** The persistent hash index: a scan that reuses stored hashes, and when its answer
    is the answer of hashing everything. */
module HashIndex {
  import opened Prelude
  import opened Ordering
  import opened SyncPaths
  import opened Digests
  import opened SyncPlan

  /** A file on disk; the modification time is in whole seconds, if the filesystem says. */
  datatype FileRec = FileRec(content: Content, mtime: Option<int>)

  datatype IndexEntry = IndexEntry(size: nat, mtime: int, sha256: string)

  type Index = map<string, IndexEntry>

  type Disk = map<string, FileRec>

  function Contents(disk: Disk): map<string, Content> {
    map p | p in disk :: disk[p].content
  }

  /** The stored entry's size and time are the file's. */
  predicate Matches(index: Index, p: string, f: FileRec) {
    p in index && f.mtime == Some(index[p].mtime) && |f.content| == index[p].size
  }

  /** The hash a scan reports for a file. */
  function HashOf(sha: Content -> string, index: Index, p: string, f: FileRec): string {
    if Matches(index, p, f) then index[p].sha256 else sha(f.content)
  }

  function FileOf(sha: Content -> string, index: Index, p: string, f: FileRec): LocalFile {
    LocalFile(p, HashOf(sha, index, p, f), |f.content|)
  }

  /** What a scan stores: every visible file whose time is known, and nothing else. */
  function Rebuilt(sha: Content -> string, index: Index, disk: Disk): Index {
    map p | p in disk && Visible(p) && disk[p].mtime.Some? ::
      IndexEntry(|disk[p].content|, disk[p].mtime.value, HashOf(sha, index, p, disk[p]))
  }

  // ---- Coherence ----

  ghost predicate CoherentAt(sha: Content -> string, index: Index, disk: Disk, p: string) {
    p in disk && Matches(index, p, disk[p]) ==> index[p].sha256 == sha(disk[p].content)
  }

  ghost predicate Coherent(sha: Content -> string, index: Index, disk: Disk) {
    forall p :: p in disk ==> CoherentAt(sha, index, disk, p)
  }

  /** The entries a scan must list: visible files with the hash it reports. */
  ghost predicate ListsWith(sha: Content -> string, index: Index, disk: Disk, local: seq<LocalFile>) {
    && Ascending(FileKey, local)
    && forall f :: f in local <==> f.path in disk && Visible(f.path) && f == FileOf(sha, index, f.path, disk[f.path])
  }

  /** With an index, a scan says what hashing every file would say, if and only if every
      stored entry that matches a visible file carries that file's hash. */
  lemma ScanRefinesFullHash(sha: Content -> string, index: Index, disk: Disk, local: seq<LocalFile>)
    requires ListsWith(sha, index, disk, local)
    ensures IsListing(sha, Contents(disk), local) <==>
              forall p :: p in disk && Visible(p) ==> CoherentAt(sha, index, disk, p)
  {
    if forall p :: p in disk && Visible(p) ==> CoherentAt(sha, index, disk, p) {
      forall f ensures f in local <==>
        && f.path in Contents(disk) && Visible(f.path)
        && f == LocalFile(f.path, sha(Contents(disk)[f.path]), |Contents(disk)[f.path]|)
      {
        if f.path in disk && Visible(f.path) { assert CoherentAt(sha, index, disk, f.path); }
      }
    } else {
      var p :| p in disk && Visible(p) && !CoherentAt(sha, index, disk, p);
      assert FileOf(sha, index, p, disk[p]) in local;
    }
  }

  /** A scan over a coherent index leaves a coherent one. */
  lemma RebuiltCoherent(sha: Content -> string, index: Index, disk: Disk)
    requires Coherent(sha, index, disk)
    ensures Coherent(sha, Rebuilt(sha, index, disk), disk)
  {
    forall p | p in disk ensures CoherentAt(sha, Rebuilt(sha, index, disk), disk, p) {
      assert CoherentAt(sha, index, disk, p);
    }
  }

  /** Writing a file keeps the index coherent, if and only if the new size and time are
      not those stored for another content. */
  lemma WriteKeepsExactly(sha: Content -> string, index: Index, disk: Disk, p: string, f: FileRec)
    requires Coherent(sha, index, disk)
    ensures Coherent(sha, index, disk[p := f]) <==> !(Matches(index, p, f) && index[p].sha256 != sha(f.content))
  {
    var disk' := disk[p := f];
    forall q | q in disk' && q != p ensures CoherentAt(sha, index, disk', q) {
      assert CoherentAt(sha, index, disk, q);
    }
    assert p in disk';
    assert CoherentAt(sha, index, disk', p) <==> !(Matches(index, p, f) && index[p].sha256 != sha(f.content));
  }

  /** Straight after a scan, any one write that alters the file's size or time is safe, and so is a new file. */
  lemma WriteAfterScan(sha: Content -> string, index: Index, disk: Disk, p: string, f: FileRec)
    requires Coherent(sha, index, disk)
    requires p in disk && Visible(p) ==> |f.content| != |disk[p].content| || f.mtime != disk[p].mtime
    ensures Coherent(sha, Rebuilt(sha, index, disk), disk[p := f])
  {
    RebuiltCoherent(sha, index, disk);
    WriteKeepsExactly(sha, Rebuilt(sha, index, disk), disk, p, f);
  }

  /** Two such writes in a row are not: the second can restore the stored size and time
      over other content, and the index then vouches for a hash the file does not have. */
  lemma TwoWritesAlias(sha: Content -> string)
    requires IsDigest(sha)
    ensures var first, second, third := FileRec([1, 2], Some(5)), FileRec([1], Some(5)), FileRec([3, 4], Some(5));
            var index := Rebuilt(sha, map[], map["f" := first]);
            && Coherent(sha, index, map["f" := first]) && Coherent(sha, index, map["f" := second])
            && !Coherent(sha, index, map["f" := third])
  {
    var first, second, third := FileRec([1, 2], Some(5)), FileRec([1], Some(5)), FileRec([3, 4], Some(5));
    var disk: Disk := map["f" := first];
    var index := Rebuilt(sha, map[], disk);
    assert Visible("f");
    assert index["f"] == IndexEntry(2, 5, sha([1, 2]));
    RebuiltCoherent(sha, map[], disk);
    assert !CoherentAt(sha, index, map["f" := third], "f");
    assert disk["f" := second] == map["f" := second];
    WriteKeepsExactly(sha, index, disk, "f", second);
  }

  /** Any number of writes whose size and time are never the stored ones is safe. */
  lemma {:induction false} FreshWritesKeep(sha: Content -> string, index: Index, disk: Disk,
                                           writes: seq<(string, FileRec)>)
    requires Coherent(sha, index, disk)
    requires forall w :: w in writes ==> !Matches(index, w.0, w.1)
    ensures Coherent(sha, index, AfterWrites(disk, writes))
    decreases writes
  {
    if writes != [] {
      assert writes[0] in writes;
      WriteKeepsExactly(sha, index, disk, writes[0].0, writes[0].1);
      FreshWritesKeep(sha, index, disk[writes[0].0 := writes[0].1], writes[1..]);
    }
  }

  function AfterWrites(disk: Disk, writes: seq<(string, FileRec)>): Disk
    decreases writes
  {
    if writes == [] then disk else AfterWrites(disk[writes[0].0 := writes[0].1], writes[1..])
  }

  // ---- The index object ----

  class HashIndex {
    var entries: Index

    constructor ()
      ensures entries == map[]
    {
      entries := map[];
    }

    method Lookup(rel: string, size: nat, mtime: Option<int>) returns (hash: Option<string>)
      ensures hash == if rel in entries && mtime == Some(entries[rel].mtime) && size == entries[rel].size
                      then Some(entries[rel].sha256) else None
    {
      if mtime.None? || rel !in entries { return None; }
      var e := entries[rel];
      hash := if e.size == size && e.mtime == mtime.value then Some(e.sha256) else None;
    }

    /** A file of unknown time is not stored. */
    method Insert(rel: string, size: nat, mtime: Option<int>, sha256: string)
      modifies this`entries
      ensures entries == if mtime.None? then old(entries)
                         else old(entries)[rel := IndexEntry(size, mtime.value, sha256)]
    {
      if mtime.None? { return; }
      entries := entries[rel := IndexEntry(size, mtime.value, sha256)];
    }

    /** Lists the directory, hashing only what the index does not vouch for, and rebuilds the
        index from what it saw. An entry that cannot be listed, or a file that has to be
        hashed and cannot be read, ends the scan and leaves the index as it was. */
    method ScanLocalDir(sha: Content -> string, disk: Disk, walks: bool, opens: string -> bool)
      returns (local: Option<seq<LocalFile>>)
      modifies this`entries
      ensures local.None? <==> !walks || Unreadable(old(entries), disk, opens)
      ensures if local.None? then entries == old(entries)
              else ListsWith(sha, old(entries), disk, local.value) && entries == Rebuilt(sha, old(entries), disk)
    {
      if !walks { return None; }
      var rebuilt: Index := map[];
      var out: seq<LocalFile> := [];
      var todo := disk.Keys;
      ghost var stored := entries;
      while todo != {}
        invariant todo <= disk.Keys && entries == stored
        invariant Scanned(sha, stored, disk, todo, out, rebuilt)
        invariant forall p :: p in disk && p !in todo ==> !Blocks(stored, disk, opens, p)
        decreases todo
      {
        var path :| path in todo;
        ScanOne(sha, stored, disk, todo, out, rebuilt, path);
        if Visible(path) {
          var f := disk[path];
          var hit := Lookup(path, |f.content|, f.mtime);
          if hit.None? && !opens(path) {
            assert Blocks(stored, disk, opens, path);
            return None;
          }
          var hash := if hit.Some? then hit.value else sha(f.content);
          out := out + [LocalFile(path, hash, |f.content|)];
          if f.mtime.Some? { rebuilt := rebuilt[path := IndexEntry(|f.content|, f.mtime.value, hash)]; }
        }
        todo := todo - {path};
      }
      ScannedAll(sha, stored, disk, out, rebuilt);
      local := Some(SortBy(FileKey, out));
      entries := rebuilt;
    }

    /** Folds an apply report into the index: each fetched file with a named hash is
        recorded with its size and time as they are now, each deleted path leaves. */
    method ApplyReport(fetch: seq<Entry>, fetched: seq<string>, deleted: seq<string>, disk: Disk)
      modifies this`entries
      ensures entries == WithoutPaths(WithFetched(old(entries), fetch, fetched, disk), deleted)
      ensures forall p :: p in deleted ==> p !in entries
      ensures forall p :: p !in deleted && p !in fetched ==>
                (p in entries <==> p in old(entries)) && (p in entries ==> entries[p] == old(entries)[p])
    {
      for i := 0 to |fetched|
        invariant entries == WithFetched(old(entries), fetch, fetched[..i], disk)
      {
        assert fetched[..i + 1][..i] == fetched[..i];
        var e := EntryFor(fetch, fetched[i]);
        if e.Some? && e.value.sha256 != "" {
          var dest := Destination(fetched[i]);
          if dest.Some? && dest.value in disk {
            var f := disk[dest.value];
            Insert(fetched[i], |f.content|, f.mtime, LowerCase(e.value.sha256));
          }
        }
      }
      assert fetched[..|fetched|] == fetched;
      ghost var folded := entries;
      for i := 0 to |deleted|
        invariant entries == WithoutPaths(folded, deleted[..i])
      {
        assert deleted[..i + 1] == deleted[..i] + [deleted[i]];
        entries := entries - {deleted[i]};
      }
      assert deleted[..|deleted|] == deleted;
      forall p | p !in deleted && p !in fetched
        ensures (p in entries <==> p in old(entries)) && (p in entries ==> entries[p] == old(entries)[p])
      {
        ReportedExactly(old(entries), fetch, fetched, deleted, disk, p);
      }
    }
  }

  /** The file has to be hashed and cannot be read. */
  predicate Blocks(index: Index, disk: Disk, opens: string -> bool, p: string) {
    p in disk && Visible(p) && !Matches(index, p, disk[p]) && !opens(p)
  }

  predicate Unreadable(index: Index, disk: Disk, opens: string -> bool) {
    exists p :: p in disk && Blocks(index, disk, opens, p)
  }

  function Outside(index: Index, todo: set<string>): Index {
    map p | p in index && p !in todo :: index[p]
  }

  lemma OutsideOne(index: Index, todo: set<string>, path: string)
    requires path in todo
    ensures Outside(index, todo - {path}) ==
            if path in index then Outside(index, todo)[path := index[path]] else Outside(index, todo)
  {
  }

  /** The visible files outside `todo`, each once. */
  ghost predicate Listed(sha: Content -> string, index: Index, disk: Disk, todo: set<string>, out: seq<LocalFile>) {
    && NoRepeats(out)
    && forall f :: f in out <==>
         f.path in disk && f.path !in todo && Visible(f.path) && f == FileOf(sha, index, f.path, disk[f.path])
  }

  lemma ListOne(sha: Content -> string, index: Index, disk: Disk, todo: set<string>, out: seq<LocalFile>, path: string)
    requires todo <= disk.Keys && Listed(sha, index, disk, todo, out) && path in todo && Visible(path)
    ensures Listed(sha, index, disk, todo - {path}, out + [FileOf(sha, index, path, disk[path])])
  {
    var f := FileOf(sha, index, path, disk[path]);
    assert f !in out;
    forall x ensures x in out + [f] <==>
      x.path in disk && x.path !in todo - {path} && Visible(x.path) && x == FileOf(sha, index, x.path, disk[x.path])
    {
      assert x in out + [f] <==> x in out || x == f;
    }
  }

  /** The state of a scan that has still to visit `todo`. */
  ghost predicate Scanned(sha: Content -> string, index: Index, disk: Disk, todo: set<string>, out: seq<LocalFile>,
                          rebuilt: Index) {
    Listed(sha, index, disk, todo, out) && rebuilt == Outside(Rebuilt(sha, index, disk), todo)
  }

  lemma ScanOne(sha: Content -> string, index: Index, disk: Disk, todo: set<string>, out: seq<LocalFile>,
                rebuilt: Index, path: string)
    requires todo <= disk.Keys && path in todo && Scanned(sha, index, disk, todo, out, rebuilt)
    ensures var f := disk[path];
            Scanned(sha, index, disk, todo - {path},
                    if Visible(path) then out + [FileOf(sha, index, path, f)] else out,
                    if Visible(path) && f.mtime.Some?
                    then rebuilt[path := IndexEntry(|f.content|, f.mtime.value, HashOf(sha, index, path, f))]
                    else rebuilt)
  {
    OutsideOne(Rebuilt(sha, index, disk), todo, path);
    if Visible(path) { ListOne(sha, index, disk, todo, out, path); }
  }

  lemma ScannedAll(sha: Content -> string, index: Index, disk: Disk, out: seq<LocalFile>, rebuilt: Index)
    requires Scanned(sha, index, disk, {}, out, rebuilt)
    ensures ListsWith(sha, index, disk, SortBy(FileKey, out))
    ensures rebuilt == Rebuilt(sha, index, disk)
  {
    SortAscends(FileKey, out);
  }

  // ---- Folding in an apply report ----

  /** The planned entry of a path; with distinct paths there is at most one. */
  function EntryFor(fetch: seq<Entry>, p: string): Option<Entry> {
    if fetch == [] then None
    else if fetch[|fetch| - 1].path == p then Some(fetch[|fetch| - 1])
    else EntryFor(fetch[..|fetch| - 1], p)
  }

  function Recorded(index: Index, e: Option<Entry>, p: string, disk: Disk): Index {
    if e.None? || e.value.sha256 == "" then index
    else
      var dest := Destination(p);
      if dest.None? || dest.value !in disk || disk[dest.value].mtime.None? then index
      else
        var f := disk[dest.value];
        index[p := IndexEntry(|f.content|, f.mtime.value, LowerCase(e.value.sha256))]
  }

  function WithFetched(index: Index, fetch: seq<Entry>, fetched: seq<string>, disk: Disk): Index {
    if fetched == [] then index
    else
      var n := |fetched| - 1;
      Recorded(WithFetched(index, fetch, fetched[..n], disk), EntryFor(fetch, fetched[n]), fetched[n], disk)
  }

  function WithoutPaths(index: Index, paths: seq<string>): Index {
    index - (set p | p in paths)
  }

  /** What folding a report in records for a path, if anything: size and time of the file as
      it is now, under the hash that its planned entry names. */
  predicate Records(fetch: seq<Entry>, fetched: seq<string>, disk: Disk, p: string, entry: IndexEntry) {
    && p in fetched && EntryFor(fetch, p).Some? && EntryFor(fetch, p).value.sha256 != ""
    && var dest := Destination(p);
       && dest.Some? && dest.value in disk
       && Some(entry.mtime) == disk[dest.value].mtime && entry.size == |disk[dest.value].content|
       && entry.sha256 == LowerCase(EntryFor(fetch, p).value.sha256)
  }

  lemma RecordOne(index: Index, fetch: seq<Entry>, disk: Disk, q: string, p: string)
    ensures var r := Recorded(index, EntryFor(fetch, q), q, disk);
            if p == q && exists entry :: Records(fetch, [q], disk, q, entry)
            then p in r && Records(fetch, [q], disk, p, r[p])
            else (p in r <==> p in index) && (p in r ==> r[p] == index[p])
  {
    var e, dest := EntryFor(fetch, q), Destination(q);
    if e.Some? && e.value.sha256 != "" && dest.Some? && dest.value in disk && disk[dest.value].mtime.Some? {
      var f := disk[dest.value];
      assert Records(fetch, [q], disk, q, IndexEntry(|f.content|, f.mtime.value, LowerCase(e.value.sha256)));
    }
  }

  /** Path by path, what the index holds once a report is folded in: nothing at a deleted
      path, the record of a fetched one, and elsewhere what it held. */
  lemma {:induction false} FoldedExactly(index: Index, fetch: seq<Entry>, fetched: seq<string>, disk: Disk, p: string)
    ensures var r := WithFetched(index, fetch, fetched, disk);
            if exists entry :: Records(fetch, fetched, disk, p, entry)
            then p in r && Records(fetch, fetched, disk, p, r[p])
            else (p in r <==> p in index) && (p in r ==> r[p] == index[p])
  {
    if fetched != [] {
      var n := |fetched| - 1;
      var before, last := fetched[..n], fetched[n];
      assert fetched == before + [last];
      FoldedExactly(index, fetch, before, disk, p);
      RecordOne(WithFetched(index, fetch, before, disk), fetch, disk, last, p);
      forall entry ensures Records(fetch, fetched, disk, p, entry) <==>
        Records(fetch, before, disk, p, entry) || (p == last && Records(fetch, [last], disk, p, entry)) {}
    }
  }

  /** The same for the whole report. */
  lemma ReportedExactly(index: Index, fetch: seq<Entry>, fetched: seq<string>, deleted: seq<string>, disk: Disk,
                        p: string)
    ensures var r := WithoutPaths(WithFetched(index, fetch, fetched, disk), deleted);
            if p in deleted then p !in r
            else if exists entry :: Records(fetch, fetched, disk, p, entry)
            then p in r && Records(fetch, fetched, disk, p, r[p])
            else (p in r <==> p in index) && (p in r ==> r[p] == index[p])
  {
    FoldedExactly(index, fetch, fetched, disk, p);
  }

  /** A file just fetched under a named hash is vouched for: the next scan does not read it. */
  lemma FetchedIsKnown(index: Index, fetch: seq<Entry>, fetched: seq<string>, deleted: seq<string>, disk: Disk,
                       p: string)
    requires Hashed(fetch, fetched, p) && Canonical(p) && p !in deleted && p in disk && disk[p].mtime.Some?
    ensures var r := WithoutPaths(WithFetched(index, fetch, fetched, disk), deleted);
            Matches(r, p, disk[p]) && r[p].sha256 == LowerCase(EntryFor(fetch, p).value.sha256)
  {
    var e := EntryFor(fetch, p).value;
    assert Records(fetch, fetched, disk, p, IndexEntry(|disk[p].content|, disk[p].mtime.value, LowerCase(e.sha256)));
    ReportedExactly(index, fetch, fetched, deleted, disk, p);
  }

  /** After a scan the index vouches for exactly the visible files whose time is known. */
  lemma RebuiltVouches(sha: Content -> string, index: Index, disk: Disk, p: string)
    ensures p in Rebuilt(sha, index, disk) <==> p in disk && Visible(p) && disk[p].mtime.Some?
    ensures p in Rebuilt(sha, index, disk) ==> Matches(Rebuilt(sha, index, disk), p, disk[p])
  {
  }

  /** So a scan straight after a scan reads no file but those of unknown time: it fails if
      and only if it cannot open one of these. */
  lemma WarmScan(sha: Content -> string, index: Index, disk: Disk, opens: string -> bool)
    ensures Unreadable(Rebuilt(sha, index, disk), disk, opens) <==>
            exists p :: p in disk && Visible(p) && disk[p].mtime.None? && !opens(p)
  {
    var warm := Rebuilt(sha, index, disk);
    forall p | p in disk
      ensures Blocks(warm, disk, opens, p) <==> Visible(p) && disk[p].mtime.None? && !opens(p)
    {
      RebuiltVouches(sha, index, disk, p);
    }
    if p :| p in disk && Visible(p) && disk[p].mtime.None? && !opens(p) { assert Blocks(warm, disk, opens, p); }
  }

  /** The file at a fetched path holds content verified for its entry. */
  ghost predicate FetchesVerified(sha: Content -> string, fetch: seq<Entry>, fetched: seq<string>, disk: Disk) {
    forall p :: p in fetched && EntryFor(fetch, p).Some? && Destination(p).Some? && Destination(p).value in disk ==>
      Verified(sha, EntryFor(fetch, p).value, disk[Destination(p).value].content)
  }

  /** The path was fetched under an entry that names a hash. */
  predicate Hashed(fetch: seq<Entry>, fetched: seq<string>, p: string) {
    p in fetched && EntryFor(fetch, p).Some? && EntryFor(fetch, p).value.sha256 != ""
  }

  lemma RecordedAt(sha: Content -> string, index: Index, e: Option<Entry>, q: string, disk: Disk, p: string)
    requires Canonical(q)
    requires e.Some? && q in disk ==> Verified(sha, e.value, disk[q].content)
    requires IsDigest(sha) && p in disk
    ensures CoherentAt(sha, Recorded(index, e, q, disk), disk, p) <==>
            (p == q && e.Some? && e.value.sha256 != "") || CoherentAt(sha, index, disk, p)
  {
  }

  /** After folding, the index is right at a path exactly if the path was fetched with a
      named hash or the index was right there before. */
  lemma {:induction false} FoldedAt(sha: Content -> string, index: Index, fetch: seq<Entry>, fetched: seq<string>,
                                    disk: Disk, p: string)
    requires IsDigest(sha) && FetchesVerified(sha, fetch, fetched, disk)
    requires p in disk && forall q :: q in fetched ==> Canonical(q)
    ensures CoherentAt(sha, WithFetched(index, fetch, fetched, disk), disk, p) <==>
            Hashed(fetch, fetched, p) || CoherentAt(sha, index, disk, p)
  {
    if fetched != [] {
      var n := |fetched| - 1;
      var before, last := fetched[..n], fetched[n];
      assert fetched == before + [last];
      FoldedAt(sha, index, fetch, before, disk, p);
      assert last in fetched;
      RecordedAt(sha, WithFetched(index, fetch, before, disk), EntryFor(fetch, last), last, disk, p);
    }
  }

  /** An apply that changed only what it reports, followed by folding its report in, keeps
      the index coherent, if and only if no unhashed fetch landed on the size and time
      stored for other content. */
  lemma ReportKeepsExactly(sha: Content -> string, index: Index, fetch: seq<Entry>, fetched: seq<string>,
                           deleted: seq<string>, before: Disk, after: Disk)
    requires IsDigest(sha) && Coherent(sha, index, before)
    requires FetchesVerified(sha, fetch, fetched, after)
    requires (forall p :: p in fetched ==> Canonical(p)) && (forall p :: p in after ==> p !in deleted)
    requires forall p :: p in after && p !in fetched ==> p in before && after[p] == before[p]
    ensures Coherent(sha, WithoutPaths(WithFetched(index, fetch, fetched, after), deleted), after) <==>
            forall p :: p in fetched && p in after && !Hashed(fetch, fetched, p) ==> CoherentAt(sha, index, after, p)
  {
    var folded := WithFetched(index, fetch, fetched, after);
    forall p | p in after
      ensures CoherentAt(sha, WithoutPaths(folded, deleted), after, p) <==>
              p !in fetched || Hashed(fetch, fetched, p) || CoherentAt(sha, index, after, p)
    {
      FoldedAt(sha, index, fetch, fetched, after, p);
      assert p in before ==> CoherentAt(sha, index, before, p);
    }
  }

  /** Such a fetch: the manifest has no hash yet and announces another size, so the file is
      fetched, and what arrives has the size and time stored for the old content. */
  lemma UnhashedFetchAliases(sha: Content -> string)
    requires IsDigest(sha)
    ensures var before, after: Disk := map["f" := FileRec([1], Some(5))], map["f" := FileRec([2], Some(5))];
            var index, e := map["f" := IndexEntry(1, 5, sha([1]))], Entry("f", 2, "");
            && Unmet(sha, Contents(before), e)
            && Coherent(sha, index, before) && FetchesVerified(sha, [e], ["f"], after)
            && !Coherent(sha, WithoutPaths(WithFetched(index, [e], ["f"], after), []), after)
  {
    var before, after: Disk := map["f" := FileRec([1], Some(5))], map["f" := FileRec([2], Some(5))];
    var index, e := map["f" := IndexEntry(1, 5, sha([1]))], Entry("f", 2, "");
    FileIsCanonical();
    assert CoherentAt(sha, index, before, "f");
    assert EntryFor([e], "f") == Some(e);
    assert sha([1]) != sha([2]);
    assert !Hashed([e], ["f"], "f") && !CoherentAt(sha, index, after, "f");
    assert "f" in ["f"] && "f" in after;
    ReportKeepsExactly(sha, index, [e], ["f"], [], before, after);
  }

  lemma FileIsCanonical()
    ensures Canonical("f")
  {
    SplitWhole("f", '/');
    KeptAll(["f"]);
    assert SafeDest("f") == Some(["f"]);
  }

  // ---- Whole runs ----

  datatype State = State(index: Index, disk: Disk)

  /** What can happen to a share directory and its index. */
  datatype Event =
    | Scan
    | Write(path: string, file: FileRec)
    | Remove(path: string)
    | Apply(fetch: seq<Entry>, fetched: seq<string>, deleted: seq<string>, after: Disk)

  /** A write, or a fetch of unhashed content, does not land on the size and time stored
      for its path; an apply changes what it reports and publishes verified content. */
  ghost predicate Honest(sha: Content -> string, s: State, ev: Event) {
    match ev
    case Scan => true
    case Write(p, f) => !Matches(s.index, p, f)
    case Remove(p) => true
    case Apply(fetch, fetched, deleted, after) =>
      Reported(sha, s.disk, fetch, fetched, deleted, after) && OffStoredKeys(s.index, fetch, fetched, after)
  }

  /** An apply changes what it reports and publishes verified content. */
  ghost predicate Reported(sha: Content -> string, before: Disk, fetch: seq<Entry>, fetched: seq<string>,
                           deleted: seq<string>, after: Disk) {
    && FetchesVerified(sha, fetch, fetched, after)
    && (forall p :: p in fetched ==> Canonical(p)) && (forall p :: p in after ==> p !in deleted)
    && (forall p :: p in after && p !in fetched ==> p in before && after[p] == before[p])
  }

  /** No unhashed fetch landed on the size and time stored for its path. */
  ghost predicate OffStoredKeys(index: Index, fetch: seq<Entry>, fetched: seq<string>, after: Disk) {
    forall p :: p in fetched && p in after && !Hashed(fetch, fetched, p) ==> !Matches(index, p, after[p])
  }

  function Next(sha: Content -> string, s: State, ev: Event): State {
    match ev
    case Scan => s.(index := Rebuilt(sha, s.index, s.disk))
    case Write(p, f) => s.(disk := s.disk[p := f])
    case Remove(p) => s.(disk := s.disk - {p})
    case Apply(fetch, fetched, deleted, after) =>
      State(WithoutPaths(WithFetched(s.index, fetch, fetched, after), deleted), after)
  }

  /** States reached from an empty index over any directory. */
  ghost predicate Run(sha: Content -> string, states: seq<State>, events: seq<Event>) {
    && |states| == |events| + 1
    && states[0].index == map[]
    && forall i :: 0 <= i < |events| ==>
         Honest(sha, states[i], events[i]) && states[i + 1] == Next(sha, states[i], events[i])
  }

  lemma StepKeepsCoherence(sha: Content -> string, s: State, ev: Event)
    requires IsDigest(sha) && Coherent(sha, s.index, s.disk) && Honest(sha, s, ev)
    ensures var s' := Next(sha, s, ev); Coherent(sha, s'.index, s'.disk)
  {
    match ev
    case Scan => RebuiltCoherent(sha, s.index, s.disk);
    case Write(p, f) => WriteKeepsExactly(sha, s.index, s.disk, p, f);
    case Remove(p) =>
      forall q | q in s.disk - {p} ensures CoherentAt(sha, s.index, s.disk - {p}, q) {
        assert CoherentAt(sha, s.index, s.disk, q);
      }
    case Apply(fetch, fetched, deleted, after) =>
      ReportKeepsExactly(sha, s.index, fetch, fetched, deleted, s.disk, after);
  }

  /** In every run, at every moment, a scan answers what hashing every file would. */
  lemma {:induction false} RunScansTruly(sha: Content -> string, states: seq<State>, events: seq<Event>, i: nat,
                                         local: seq<LocalFile>)
    requires IsDigest(sha) && Run(sha, states, events) && i <= |events|
    requires ListsWith(sha, states[i].index, states[i].disk, local)
    ensures IsListing(sha, Contents(states[i].disk), local)
  {
    RunCoherent(sha, states, events, i);
    ScanRefinesFullHash(sha, states[i].index, states[i].disk, local);
  }

  lemma {:induction false} RunCoherent(sha: Content -> string, states: seq<State>, events: seq<Event>, i: nat)
    requires IsDigest(sha) && Run(sha, states, events) && i <= |events|
    ensures Coherent(sha, states[i].index, states[i].disk)
  {
    if i > 0 {
      RunCoherent(sha, states, events, i - 1);
      StepKeepsCoherence(sha, states[i - 1], events[i - 1]);
    }
  }

  // ---- The plan's application as an event ----

  /** `after` is the disk when `plan` has been applied to `before`, stopped after `n`
      fetches: the contents are those of the apply, and a file it did not fetch is untouched. */
  ghost predicate AppliedTo(plan: Plan, got: seq<Option<Content>>, n: nat, ok: seq<bool>, before: Disk, after: Disk)
    requires n <= |plan.fetch| == |got| && |ok| == |plan.delete|
  {
    var base := Contents(before) + Published(plan.fetch, got, n);
    && Contents(after) == base - Removed(base, plan.delete, ok, |plan.delete|)
    && forall p :: p in after && p !in FetchedPaths(plan.fetch, got, n) ==> p in before && after[p] == before[p]
  }

  lemma {:induction false} FetchedArePublished(fetch: seq<Entry>, got: seq<Option<Content>>, n: nat, p: string)
    requires n <= |fetch| == |got| && forall e :: e in fetch ==> Canonical(e.path)
    requires p in FetchedPaths(fetch, got, n)
    ensures p in Published(fetch, got, n) && Canonical(p)
  {
    assert fetch[n - 1] in fetch;
    if p in FetchedPaths(fetch, got, n - 1) { FetchedArePublished(fetch, got, n - 1, p); }
  }

  lemma {:induction false} DeletedAreRemoved(files: map<string, Content>, delete: seq<string>, ok: seq<bool>, n: nat,
                                             p: string)
    requires n <= |delete| == |ok| && (forall q :: q in delete ==> Destination(q) == None || Canonical(q))
    requires p in DeletedPaths(files, delete, ok, n)
    ensures p in Removed(files, delete, ok, n)
  {
    assert delete[n - 1] in delete;
    if p in DeletedPaths(files, delete, ok, n - 1) { DeletedAreRemoved(files, delete, ok, n - 1, p); }
  }

  lemma {:induction false} EntryForUnique(fetch: seq<Entry>, e: Entry)
    requires DistinctPaths(fetch) && e in fetch
    ensures EntryFor(fetch, e.path) == Some(e)
  {
    var n := |fetch| - 1;
    assert fetch == fetch[..n] + [fetch[n]];
    if fetch[n].path == e.path {
      assert EntryKey(fetch[n]) == EntryKey(e);
    } else {
      EntryForUnique(fetch[..n], e);
    }
  }

  /** The paths of a plan are their own destinations, or are refused. */
  ghost predicate ProperPlan(plan: Plan) {
    && DistinctPaths(plan.fetch) && (forall e :: e in plan.fetch ==> Canonical(e.path))
    && forall p :: p in plan.delete ==> Destination(p) == None || Canonical(p)
  }

  /** The diff of a canonical manifest against a scanned directory is such a plan. */
  lemma PlanIsProper(sha: Content -> string, manifest: seq<Entry>, files: map<string, Content>, local: seq<LocalFile>,
                     selection: Option<set<string>>)
    requires DistinctPaths(manifest) && (forall e :: e in manifest ==> Canonical(e.path))
    requires IsListing(sha, files, local) && ProperPaths(files)
    ensures ProperPlan(PlanFor(manifest, local, selection))
  {
    FetchMembers(sha, manifest, files, local, selection);
    DeleteMembers(sha, manifest, files, local, selection);
    AscendingDistinct(EntryKey, PlanFor(manifest, local, selection).fetch);
  }

  lemma FetchedAreVerified(sha: Content -> string, plan: Plan, got: seq<Option<Content>>, n: nat, after: Disk)
    requires n <= |plan.fetch| == |got| && ProperPlan(plan)
    requires forall i :: 0 <= i < |got| && got[i].Some? ==> Verified(sha, plan.fetch[i], got[i].value)
    requires var contents := Published(plan.fetch, got, n);
             forall p :: p in after && p in contents ==> after[p].content == contents[p]
    ensures FetchesVerified(sha, plan.fetch, FetchedPaths(plan.fetch, got, n), after)
  {
    var fetched, contents := FetchedPaths(plan.fetch, got, n), Published(plan.fetch, got, n);
    PublishedMembers(sha, plan.fetch, got, n);
    forall p | p in fetched && EntryFor(plan.fetch, p).Some? && Destination(p).Some? && Destination(p).value in after
      ensures Verified(sha, EntryFor(plan.fetch, p).value, after[Destination(p).value].content)
    {
      FetchedArePublished(plan.fetch, got, n, p);
      var e :| e in plan.fetch && e.path == p;
      EntryForUnique(plan.fetch, e);
    }
  }

  lemma AppliedContents(plan: Plan, got: seq<Option<Content>>, n: nat, ok: seq<bool>, before: Disk, after: Disk)
    requires n <= |plan.fetch| == |got| && |ok| == |plan.delete| && AppliedTo(plan, got, n, ok, before, after)
    ensures var contents := Published(plan.fetch, got, n);
            && (forall p :: p in after && p in contents ==> after[p].content == contents[p])
            && (forall p :: p in after ==> p !in Removed(Contents(before) + contents, plan.delete, ok, |plan.delete|))
  {
    forall p | p in after ensures p in Contents(after) && Contents(after)[p] == after[p].content {}
  }

  /** Applying a plan of canonical paths is an event of such a run, and an honest one if
      and only if no unhashed fetch lands on the size and time stored for its path. */
  lemma ApplyIsHonest(sha: Content -> string, s: State, plan: Plan, got: seq<Option<Content>>, n: nat, ok: seq<bool>,
                      after: Disk)
    requires n <= |plan.fetch| == |got| && |ok| == |plan.delete| && ProperPlan(plan)
    requires forall i :: 0 <= i < |got| && got[i].Some? ==> Verified(sha, plan.fetch[i], got[i].value)
    requires AppliedTo(plan, got, n, ok, s.disk, after)
    ensures var base := Contents(s.disk) + Published(plan.fetch, got, n);
            var fetched := FetchedPaths(plan.fetch, got, n);
            var deleted := DeletedPaths(base, plan.delete, ok, |plan.delete|);
            Honest(sha, s, Apply(plan.fetch, fetched, deleted, after)) <==>
              OffStoredKeys(s.index, plan.fetch, fetched, after)
  {
    var base := Contents(s.disk) + Published(plan.fetch, got, n);
    var fetched, deleted := FetchedPaths(plan.fetch, got, n), DeletedPaths(base, plan.delete, ok, |plan.delete|);
    assert Reported(sha, s.disk, plan.fetch, fetched, deleted, after) by {
      AppliedContents(plan, got, n, ok, s.disk, after);
      FetchedAreVerified(sha, plan, got, n, after);
      forall p | p in fetched ensures Canonical(p) {
        FetchedArePublished(plan.fetch, got, n, p);
      }
      DeletedAreGone(base, plan.delete, ok, after);
    }
  }

  lemma DeletedAreGone(base: map<string, Content>, delete: seq<string>, ok: seq<bool>, after: Disk)
    requires |delete| == |ok| && (forall q :: q in delete ==> Destination(q) == None || Canonical(q))
    requires forall p :: p in after ==> p !in Removed(base, delete, ok, |delete|)
    ensures forall p :: p in after ==> p !in DeletedPaths(base, delete, ok, |delete|)
  {
    forall p | p in after ensures p !in DeletedPaths(base, delete, ok, |delete|) {
      if p in DeletedPaths(base, delete, ok, |delete|) { DeletedAreRemoved(base, delete, ok, |delete|, p); }
    }
  }
}
