/** The mirror's diff and its application: what to fetch and delete, and what a
    second diff says after an apply that may have failed in any part. */
module SyncPlan {
  import opened Prelude
  import opened Selection
  import opened Ordering
  import opened SyncPaths
  import opened Digests

  datatype LocalFile = LocalFile(path: string, sha256: string, size: nat)

  datatype Plan = Plan(fetch: seq<Entry>, delete: seq<string>)

  function EntryKey(e: Entry): string { e.path }

  function FileKey(f: LocalFile): string { f.path }

  function PathKey(p: string): string { p }

  // ---- The diff ----

  /** Local files by path; a later duplicate wins. */
  function ByPath(local: seq<LocalFile>): map<string, LocalFile> {
    if local == [] then map[] else ByPath(local[..|local| - 1])[local[|local| - 1].path := local[|local| - 1]]
  }

  /** The local copy is missing or differs: by hash if the manifest names one, else by size. */
  predicate NeedsFetch(e: Entry, byPath: map<string, LocalFile>) {
    if e.path !in byPath then true
    else if e.sha256 != "" then !SameHex(byPath[e.path].sha256, e.sha256)
    else byPath[e.path].size != e.size
  }

  function Desired(manifest: seq<Entry>, selection: Option<set<string>>): seq<Entry> {
    Filter(SelectedBy(selection), manifest)
  }

  function SelectedBy(selection: Option<set<string>>): Entry -> bool {
    (e: Entry) => PathSelected(e.path, selection)
  }

  function Needing(byPath: map<string, LocalFile>): Entry -> bool {
    (e: Entry) => NeedsFetch(e, byPath)
  }

  function NotIn(paths: set<string>): string -> bool {
    (p: string) => p !in paths
  }

  function PathsOf(manifest: seq<Entry>): set<string> {
    set e | e in manifest :: e.path
  }

  function LocalPaths(local: seq<LocalFile>): seq<string> {
    seq(|local|, i requires 0 <= i < |local| => local[i].path)
  }

  function PlanFor(manifest: seq<Entry>, local: seq<LocalFile>, selection: Option<set<string>>): Plan {
    var byPath := ByPath(local);
    var desired := Desired(manifest, selection);
    var wanted := PathsOf(desired);
    Plan(SortBy(EntryKey, Filter(Needing(byPath), desired)),
         SortBy(PathKey, Filter(NotIn(wanted), LocalPaths(local))))
  }

  // ---- What the scan lists ----

  /** `local` lists the visible files, by path, with their true hashes and sizes. */
  ghost predicate IsListing(sha: Content -> string, files: map<string, Content>, local: seq<LocalFile>) {
    && Ascending(FileKey, local)
    && forall f :: f in local <==>
         f.path in files && Visible(f.path) && f == LocalFile(f.path, sha(files[f.path]), |files[f.path]|)
  }

  ghost predicate Held(files: map<string, Content>, p: string) {
    p in files && Visible(p)
  }

  lemma {:induction false} ByPathMembers(local: seq<LocalFile>)
    requires DistinctKeys(FileKey, local)
    ensures forall p :: p in ByPath(local) ==> ByPath(local)[p] in local && ByPath(local)[p].path == p
    ensures forall f :: f in local ==> f.path in ByPath(local) && ByPath(local)[f.path] == f
  {
    if local != [] {
      var n := |local| - 1;
      assert local == local[..n] + [local[n]];
      ByPathMembers(local[..n]);
    }
  }

  lemma AscendingDistinct<T(!new)>(key: T -> string, s: seq<T>)
    requires Ascending(key, s)
    ensures DistinctKeys(key, s) && NoRepeats(s)
  {
    forall x, y | x in s && y in s && key(x) == key(y) ensures x == y {
      var i :| 0 <= i < |s| && s[i] == x;
      var j :| 0 <= j < |s| && s[j] == y;
      if i < j { LessStrict(key(x), key(y)); } else if j < i { LessStrict(key(y), key(x)); }
    }
    forall i, j | 0 <= i < j < |s| ensures s[i] != s[j] { LessStrict(key(s[i]), key(s[j])); }
  }

  /** The lookup table of a listing is the visible part of the disk. */
  lemma ListingTable(sha: Content -> string, files: map<string, Content>, local: seq<LocalFile>)
    requires IsListing(sha, files, local)
    ensures forall p :: p in ByPath(local) <==> Held(files, p)
    ensures forall p :: Held(files, p) ==> ByPath(local)[p] == LocalFile(p, sha(files[p]), |files[p]|)
  {
    AscendingDistinct(FileKey, local);
    ByPathMembers(local);
    forall p | Held(files, p)
      ensures p in ByPath(local) && ByPath(local)[p] == LocalFile(p, sha(files[p]), |files[p]|)
    {
      assert LocalFile(p, sha(files[p]), |files[p]|) in local;
    }
  }

  lemma ListingPaths(sha: Content -> string, files: map<string, Content>, local: seq<LocalFile>)
    requires IsListing(sha, files, local)
    ensures Ascending(PathKey, LocalPaths(local))
    ensures forall p :: p in LocalPaths(local) <==> Held(files, p)
  {
    var paths := LocalPaths(local);
    forall i, j | 0 <= i < j < |paths| ensures Less(PathKey(paths[i]), PathKey(paths[j])) {
      assert Less(FileKey(local[i]), FileKey(local[j]));
    }
    forall p | p in paths ensures Held(files, p) {
      var i :| 0 <= i < |paths| && paths[i] == p;
      assert local[i] in local;
    }
    forall p | Held(files, p) ensures p in paths {
      var f := LocalFile(p, sha(files[p]), |files[p]|);
      assert f in local;
      var i :| 0 <= i < |local| && local[i] == f;
      assert paths[i] == p;
    }
  }

  // ---- What a plan contains ----

  /** The disk does not match a wanted entry. */
  predicate Unmet(sha: Content -> string, files: map<string, Content>, e: Entry) {
    if !(e.path in files && Visible(e.path)) then true
    else if e.sha256 != "" then !SameHex(sha(files[e.path]), e.sha256)
    else |files[e.path]| != e.size
  }

  ghost predicate Wanted(manifest: seq<Entry>, selection: Option<set<string>>, e: Entry) {
    e in manifest && PathSelected(e.path, selection)
  }

  ghost predicate WantedPath(manifest: seq<Entry>, selection: Option<set<string>>, p: string) {
    exists e :: Wanted(manifest, selection, e) && e.path == p
  }

  lemma DesiredMembers(manifest: seq<Entry>, selection: Option<set<string>>)
    ensures forall e :: e in Desired(manifest, selection) <==> Wanted(manifest, selection, e)
    ensures forall p :: p in PathsOf(Desired(manifest, selection)) <==> WantedPath(manifest, selection, p)
  {
    FilterMembers(SelectedBy(selection), manifest);
    var desired := Desired(manifest, selection);
    forall p ensures p in PathsOf(desired) <==> WantedPath(manifest, selection, p) {
      if WantedPath(manifest, selection, p) {
        var e :| Wanted(manifest, selection, e) && e.path == p;
        assert e in desired;
      }
    }
  }

  ghost predicate DistinctPaths(manifest: seq<Entry>) {
    NoRepeats(manifest) && DistinctKeys(EntryKey, manifest)
  }

  /** The fetch list: the unmet wanted entries, in path order. */
  lemma FetchMembers(sha: Content -> string, manifest: seq<Entry>, files: map<string, Content>, local: seq<LocalFile>,
                     selection: Option<set<string>>)
    requires IsListing(sha, files, local) && DistinctPaths(manifest)
    ensures var fetch := PlanFor(manifest, local, selection).fetch;
            && Ascending(EntryKey, fetch)
            && forall e :: e in fetch <==> Wanted(manifest, selection, e) && Unmet(sha, files, e)
  {
    var selected := SelectedBy(selection);
    var byPath := ByPath(local);
    var needs := Needing(byPath);
    var desired := Desired(manifest, selection);
    ListingTable(sha, files, local);
    DesiredMembers(manifest, selection);
    FilterNoRepeats(selected, manifest);
    FilterMembers(selected, manifest);
    FilterNoRepeats(needs, desired);
    FilterMembers(needs, desired);
    SortAscends(EntryKey, Filter(needs, desired));
    forall e: Entry ensures NeedsFetch(e, byPath) <==> Unmet(sha, files, e) {
      assert e.path in byPath <==> Held(files, e.path);
    }
  }

  /** A wanted entry whose hash is that of `c` is fetched unless a visible file at its path
      holds `c`; one without a hash, unless such a file has the announced size. */
  lemma FetchedExactly(sha: Content -> string, manifest: seq<Entry>, files: map<string, Content>,
                       local: seq<LocalFile>, selection: Option<set<string>>, e: Entry, c: Content)
    requires IsDigest(sha) && IsListing(sha, files, local) && DistinctPaths(manifest) && Wanted(manifest, selection, e)
    ensures var fetch := PlanFor(manifest, local, selection).fetch;
            var there := e.path in files && Visible(e.path);
            && (e.sha256 == "" ==> (e in fetch <==> !(there && |files[e.path]| == e.size)))
            && (e.sha256 != "" && SameHex(e.sha256, sha(c)) ==> (e in fetch <==> !(there && files[e.path] == c)))
  {
    FetchMembers(sha, manifest, files, local, selection);
    if e.path in files && e.sha256 != "" && SameHex(e.sha256, sha(c)) {
      assert SameHex(sha(files[e.path]), e.sha256) <==> sha(files[e.path]) == sha(c);
    }
  }

  /** The delete list: the visible files nobody wants, in path order. */
  lemma DeleteMembers(sha: Content -> string, manifest: seq<Entry>, files: map<string, Content>,
                      local: seq<LocalFile>, selection: Option<set<string>>)
    requires IsListing(sha, files, local)
    ensures var delete := PlanFor(manifest, local, selection).delete;
            && Ascending(PathKey, delete)
            && forall p :: p in delete <==> Held(files, p) && !WantedPath(manifest, selection, p)
  {
    var wanted := PathsOf(Desired(manifest, selection));
    var unwanted := NotIn(wanted);
    ListingPaths(sha, files, local);
    DesiredMembers(manifest, selection);
    AscendingDistinct(PathKey, LocalPaths(local));
    FilterNoRepeats(unwanted, LocalPaths(local));
    FilterMembers(unwanted, LocalPaths(local));
    SortAscends(PathKey, Filter(unwanted, LocalPaths(local)));
  }

  /** The plan is empty exactly when the disk is the mirror: every wanted entry is
      met, and every visible file is wanted. */
  lemma EmptyPlanIsMirror(sha: Content -> string, manifest: seq<Entry>, files: map<string, Content>,
                          local: seq<LocalFile>, selection: Option<set<string>>)
    requires IsListing(sha, files, local) && DistinctPaths(manifest)
    ensures PlanFor(manifest, local, selection) == Plan([], []) <==>
            && (forall e :: Wanted(manifest, selection, e) ==> !Unmet(sha, files, e))
            && (forall p :: Held(files, p) ==> WantedPath(manifest, selection, p))
  {
    var plan := PlanFor(manifest, local, selection);
    FetchMembers(sha, manifest, files, local, selection);
    DeleteMembers(sha, manifest, files, local, selection);
    assert plan.fetch != [] ==> plan.fetch[0] in plan.fetch;
    assert plan.delete != [] ==> plan.delete[0] in plan.delete;
  }

  // ---- Replanning after an apply ----

  /** A fetch that needs no repeating: it succeeded, the scan sees it, and it left the hash or size the manifest asks
      for. */
  predicate Settled(contents: map<string, Content>, e: Entry) {
    e.path in contents && Visible(e.path) && (e.sha256 != "" || |contents[e.path]| == e.size)
  }

  function Open(contents: map<string, Content>): Entry -> bool {
    (e: Entry) => !Settled(contents, e)
  }

  /** `contents` were published for some fetches, and the paths `gone` were deleted. */
  ghost predicate PartlyApplied(sha: Content -> string, plan: Plan, contents: map<string, Content>, gone: set<string>) {
    && (forall p :: p in contents ==> exists e :: e in plan.fetch && e.path == p)
    && (forall e :: e in plan.fetch && e.path in contents ==> Verified(sha, e, contents[e.path]))
    && (forall p :: p in gone ==> p in plan.delete)
  }

  lemma ContentsWanted(sha: Content -> string, manifest: seq<Entry>, selection: Option<set<string>>,
                       files: map<string, Content>, local: seq<LocalFile>, contents: map<string, Content>,
                       gone: set<string>)
    requires DistinctPaths(manifest) && IsListing(sha, files, local)
    requires PartlyApplied(sha, PlanFor(manifest, local, selection), contents, gone)
    ensures forall p :: p in contents ==> WantedPath(manifest, selection, p)
    ensures forall p :: p in gone ==> !WantedPath(manifest, selection, p)
    ensures forall e :: Wanted(manifest, selection, e) && e.path in contents ==>
              Unmet(sha, files, e) && Verified(sha, e, contents[e.path])
  {
    var plan := PlanFor(manifest, local, selection);
    FetchMembers(sha, manifest, files, local, selection);
    DeleteMembers(sha, manifest, files, local, selection);
    forall p | p in contents ensures WantedPath(manifest, selection, p) {
      var x :| x in plan.fetch && x.path == p;
      assert Wanted(manifest, selection, x);
    }
    forall e | Wanted(manifest, selection, e) && e.path in contents
      ensures Unmet(sha, files, e) && Verified(sha, e, contents[e.path])
    {
      var x :| x in plan.fetch && x.path == e.path;
      assert EntryKey(x) == EntryKey(e);
      assert x == e;
    }
  }

  lemma ResidualMembers(sha: Content -> string, manifest: seq<Entry>, selection: Option<set<string>>,
                        files: map<string, Content>, local: seq<LocalFile>, contents: map<string, Content>,
                        gone: set<string>)
    requires DistinctPaths(manifest) && IsListing(sha, files, local)
    requires PartlyApplied(sha, PlanFor(manifest, local, selection), contents, gone)
    ensures var files' := (files + contents) - gone;
            && (forall e :: Wanted(manifest, selection, e) ==>
                  (Unmet(sha, files', e) <==> Unmet(sha, files, e) && !Settled(contents, e)))
            && (forall p :: Held(files', p) && !WantedPath(manifest, selection, p) <==>
                  Held(files, p) && !WantedPath(manifest, selection, p) && p !in gone)
  {
    var files' := (files + contents) - gone;
    ContentsWanted(sha, manifest, selection, files, local, contents, gone);
    forall e | Wanted(manifest, selection, e)
      ensures Unmet(sha, files', e) <==> Unmet(sha, files, e) && !Settled(contents, e)
    {
      assert WantedPath(manifest, selection, e.path);
      UnmetAfter(sha, files, contents, gone, e);
    }
  }

  lemma UnmetAfter(sha: Content -> string, files: map<string, Content>, contents: map<string, Content>,
                   gone: set<string>, e: Entry)
    requires e.path !in gone
    requires e.path in contents ==> Unmet(sha, files, e) && Verified(sha, e, contents[e.path])
    ensures Unmet(sha, (files + contents) - gone, e) <==> Unmet(sha, files, e) && !Settled(contents, e)
  {
  }

  /** Diffing again after any partly failed apply gives exactly the old plan without
      the fetches that settled and the deletes that happened. */
  lemma ReplanIsResidual(sha: Content -> string, manifest: seq<Entry>, selection: Option<set<string>>,
                         files: map<string, Content>, local: seq<LocalFile>, contents: map<string, Content>,
                         gone: set<string>,
                         local': seq<LocalFile>)
    requires DistinctPaths(manifest) && IsListing(sha, files, local)
    requires PartlyApplied(sha, PlanFor(manifest, local, selection), contents, gone)
    requires IsListing(sha, (files + contents) - gone, local')
    ensures var plan := PlanFor(manifest, local, selection);
            PlanFor(manifest, local', selection) ==
            Plan(Filter(Open(contents), plan.fetch), Filter(NotIn(gone), plan.delete))
  {
    var files' := (files + contents) - gone;
    var plan, plan' := PlanFor(manifest, local, selection), PlanFor(manifest, local', selection);
    var open, left := Open(contents), NotIn(gone);
    ResidualMembers(sha, manifest, selection, files, local, contents, gone);
    FetchMembers(sha, manifest, files, local, selection);
    FetchMembers(sha, manifest, files', local', selection);
    FilterMembers(open, plan.fetch);
    FilterAscending(EntryKey, open, plan.fetch);
    AscendingUnique(EntryKey, plan'.fetch, Filter(open, plan.fetch));
    DeleteMembers(sha, manifest, files, local, selection);
    DeleteMembers(sha, manifest, files', local', selection);
    FilterMembers(left, plan.delete);
    FilterAscending(PathKey, left, plan.delete);
    AscendingUnique(PathKey, plan'.delete, Filter(left, plan.delete));
  }

  /** When every fetch settled and every delete happened, nothing is left to do. */
  lemma FullApplyConverges(sha: Content -> string, manifest: seq<Entry>, selection: Option<set<string>>,
                           files: map<string, Content>, local: seq<LocalFile>, contents: map<string, Content>,
                           gone: set<string>,
                           local': seq<LocalFile>)
    requires DistinctPaths(manifest) && IsListing(sha, files, local)
    requires PartlyApplied(sha, PlanFor(manifest, local, selection), contents, gone)
    requires IsListing(sha, (files + contents) - gone, local')
    ensures PlanFor(manifest, local', selection) == Plan([], []) <==>
            var plan := PlanFor(manifest, local, selection);
            (forall e :: e in plan.fetch ==> Settled(contents, e)) && (forall p :: p in plan.delete ==> p in gone)
  {
    ReplanIsResidual(sha, manifest, selection, files, local, contents, gone, local');
    var plan := PlanFor(manifest, local, selection);
    var open, left := Open(contents), NotIn(gone);
    FilterMembers(open, plan.fetch);
    FilterMembers(left, plan.delete);
    assert Filter(open, plan.fetch) != [] ==> Filter(open, plan.fetch)[0] in Filter(open, plan.fetch);
    assert Filter(left, plan.delete) != [] ==> Filter(left, plan.delete)[0] in Filter(left, plan.delete);
  }

  // ---- Applying a plan ----

  datatype Report = Report(fetched: seq<string>, deleted: seq<string>, failed: seq<string>)

  /** Contents on disk for the first `n` fetches; `got[i]` is what download `i` published, if it succeeded. */
  function Published(fetch: seq<Entry>, got: seq<Option<Content>>, n: nat): map<string, Content>
    requires n <= |fetch| == |got|
  {
    if n == 0 then map[]
    else
      var before, dest := Published(fetch, got, n - 1), Destination(fetch[n - 1].path);
      if dest.Some? && got[n - 1].Some? then before[dest.value := got[n - 1].value] else before
  }

  function FetchedPaths(fetch: seq<Entry>, got: seq<Option<Content>>, n: nat): seq<string>
    requires n <= |fetch| == |got|
  {
    if n == 0 then []
    else
      FetchedPaths(fetch, got, n - 1) +
      if Destination(fetch[n - 1].path).Some? && got[n - 1].Some? then [fetch[n - 1].path] else []
  }

  /** The paths of the first `n` fetches that did not succeed. */
  function UnfetchedPaths(fetch: seq<Entry>, got: seq<Option<Content>>, n: nat): seq<string>
    requires n <= |fetch| == |got|
  {
    if n == 0 then []
    else
      UnfetchedPaths(fetch, got, n - 1) +
      if Destination(fetch[n - 1].path).Some? && got[n - 1].Some? then [] else [fetch[n - 1].path]
  }

  /** Paths absent after the first `n` deletes; `ok[i]` says whether removing an existing file works. */
  function Removed(files: map<string, Content>, delete: seq<string>, ok: seq<bool>, n: nat): set<string>
    requires n <= |delete| == |ok|
  {
    if n == 0 then {}
    else
      var before, dest := Removed(files, delete, ok, n - 1), Destination(delete[n - 1]);
      if dest.Some? && (dest.value !in files || dest.value in before || ok[n - 1]) then before + {dest.value}
      else before
  }

  function DeletedPaths(files: map<string, Content>, delete: seq<string>, ok: seq<bool>, n: nat): seq<string>
    requires n <= |delete| == |ok|
  {
    if n == 0 then []
    else
      var before, dest := Removed(files, delete, ok, n - 1), Destination(delete[n - 1]);
      DeletedPaths(files, delete, ok, n - 1) +
      if dest.Some? && (dest.value !in files || dest.value in before || ok[n - 1]) then [delete[n - 1]] else []
  }

  /** The paths of the first `n` deletes that did not happen. */
  function UndeletedPaths(files: map<string, Content>, delete: seq<string>, ok: seq<bool>, n: nat): seq<string>
    requires n <= |delete| == |ok|
  {
    if n == 0 then []
    else
      var before, dest := Removed(files, delete, ok, n - 1), Destination(delete[n - 1]);
      UndeletedPaths(files, delete, ok, n - 1) +
      if dest.Some? && (dest.value !in files || dest.value in before || ok[n - 1]) then [] else [delete[n - 1]]
  }

  function FirstPaths(fetch: seq<Entry>, n: nat): seq<string>
    requires n <= |fetch|
  {
    if n == 0 then [] else FirstPaths(fetch, n - 1) + [fetch[n - 1].path]
  }

  /** Two reports share out the items of a list. */
  ghost predicate SharesOut(yes: seq<string>, no: seq<string>, all: seq<string>) {
    multiset(yes) + multiset(no) == multiset(all)
  }

  lemma OneMore(yes: seq<string>, no: seq<string>, all: seq<string>, x: string, yes': seq<string>, no': seq<string>,
                all': seq<string>)
    requires SharesOut(yes, no, all) && all' == all + [x]
    requires (yes' == yes + [x] && no' == no + []) || (yes' == yes + [] && no' == no + [x])
    ensures SharesOut(yes', no', all')
  {
    assert yes + [] == yes && no + [] == no;
  }

  lemma NothingShared()
    ensures SharesOut([], [], [])
  {
  }

  /** Download `i` published something: its path may be written and content came. */
  predicate Succeeds(fetch: seq<Entry>, got: seq<Option<Content>>, i: nat)
    requires i < |fetch| == |got|
  {
    Destination(fetch[i].path).Some? && got[i].Some?
  }

  /** The listed items of a list that is made item by item are those listed. */
  lemma {:induction false} ListedExactly(items: seq<string>, listed: seq<bool>, lists: seq<seq<string>>, n: nat,
                                         p: string)
    requires n <= |items| == |listed| && n < |lists| && lists[0] == []
    requires forall i {:trigger listed[i]} :: 0 <= i < n ==>
               lists[i + 1] == lists[i] + if listed[i] then [items[i]] else []
    ensures p in lists[n] <==> exists i :: 0 <= i < n && items[i] == p && listed[i]
  {
    if n > 0 {
      assert lists[n] == lists[n - 1] + if listed[n - 1] then [items[n - 1]] else [];
      ListedExactly(items, listed, lists, n - 1, p);
    }
  }

  lemma FetchStep(fetch: seq<Entry>, got: seq<Option<Content>>, n: nat)
    requires n < |fetch| == |got|
    ensures FetchedPaths(fetch, got, n + 1) ==
              FetchedPaths(fetch, got, n) + if Succeeds(fetch, got, n) then [fetch[n].path] else []
    ensures UnfetchedPaths(fetch, got, n + 1) ==
              UnfetchedPaths(fetch, got, n) + if Succeeds(fetch, got, n) then [] else [fetch[n].path]
  {
  }

  /** Download `i` is one of the path, and succeeded or did not. */
  predicate Tried(fetch: seq<Entry>, got: seq<Option<Content>>, i: nat, p: string, success: bool)
    requires i < |fetch| == |got|
  {
    fetch[i].path == p && Succeeds(fetch, got, i) == success
  }

  /** A path is reported as fetched if and only if a download of it succeeded, and as failed
      if and only if one did not. */
  lemma FetchesReportedTruly(fetch: seq<Entry>, got: seq<Option<Content>>, n: nat, p: string)
    requires n <= |fetch| == |got|
    ensures p in FetchedPaths(fetch, got, n) <==> exists i :: 0 <= i < n && Tried(fetch, got, i, p, true)
    ensures p in UnfetchedPaths(fetch, got, n) <==> exists i :: 0 <= i < n && Tried(fetch, got, i, p, false)
  {
    FetchesListed(fetch, got, n, p, true);
    FetchesListed(fetch, got, n, p, false);
  }

  function FetchList(fetch: seq<Entry>, got: seq<Option<Content>>, n: nat, success: bool): seq<string>
    requires n <= |fetch| == |got|
  {
    if success then FetchedPaths(fetch, got, n) else UnfetchedPaths(fetch, got, n)
  }

  lemma FetchesListed(fetch: seq<Entry>, got: seq<Option<Content>>, n: nat, p: string, success: bool)
    requires n <= |fetch| == |got|
    ensures p in FetchList(fetch, got, n, success) <==> exists i :: 0 <= i < n && Tried(fetch, got, i, p, success)
  {
    var items := seq(n, i requires 0 <= i < n => fetch[i].path);
    var listed := seq(n, i requires 0 <= i < n => Succeeds(fetch, got, i) == success);
    var lists := seq(n + 1, i requires 0 <= i <= n => FetchList(fetch, got, i, success));
    forall i | 0 <= i < n ensures lists[i + 1] == lists[i] + if listed[i] then [items[i]] else [] {
      FetchStep(fetch, got, i);
    }
    ListedExactly(items, listed, lists, n, p);
    forall i | 0 <= i < n ensures items[i] == p && listed[i] <==> Tried(fetch, got, i, p, success) {}
  }

  /** Exactly the destinations on which a download landed have something published. */
  lemma PublishedExactly(fetch: seq<Entry>, got: seq<Option<Content>>, n: nat, d: string)
    requires n <= |fetch| == |got|
    ensures d in Published(fetch, got, n) <==> exists i :: 0 <= i < n && Lands(fetch, got, i, d)
  {
    if d in Published(fetch, got, n) { var i := PublishedBy(fetch, got, n, d); }
    if i :| 0 <= i < n && Lands(fetch, got, i, d) { PublishedStays(fetch, got, n, d, i); }
  }

  lemma {:induction false} PublishedBy(fetch: seq<Entry>, got: seq<Option<Content>>, n: nat, d: string) returns (i: nat)
    requires n <= |fetch| == |got| && d in Published(fetch, got, n)
    ensures i < n && Lands(fetch, got, i, d)
  {
    LandStep(fetch, got, n - 1, d);
    if Lands(fetch, got, n - 1, d) { i := n - 1; } else { i := PublishedBy(fetch, got, n - 1, d); }
  }

  lemma {:induction false} PublishedStays(fetch: seq<Entry>, got: seq<Option<Content>>, n: nat, d: string, i: nat)
    requires i < n <= |fetch| == |got| && Lands(fetch, got, i, d)
    ensures d in Published(fetch, got, n)
  {
    LandStep(fetch, got, n - 1, d);
    if i < n - 1 { PublishedStays(fetch, got, n - 1, d, i); }
  }

  /** It is what the last of them brought. */
  lemma {:induction false} PublishedLast(fetch: seq<Entry>, got: seq<Option<Content>>, n: nat, d: string, i: nat)
    requires i < n <= |fetch| == |got| && Lands(fetch, got, i, d)
    requires forall j :: i < j < n ==> !Lands(fetch, got, j, d)
    ensures d in Published(fetch, got, n) && Published(fetch, got, n)[d] == got[i].value
  {
    LandStep(fetch, got, n - 1, d);
    if i < n - 1 { PublishedLast(fetch, got, n - 1, d, i); }
  }

  lemma LandStep(fetch: seq<Entry>, got: seq<Option<Content>>, n: nat, d: string)
    requires n < |fetch| == |got|
    ensures var before, after := Published(fetch, got, n), Published(fetch, got, n + 1);
            if Lands(fetch, got, n, d) then d in after && after[d] == got[n].value
            else (d in after <==> d in before) && (d in before ==> after[d] == before[d])
  {
  }

  predicate Lands(fetch: seq<Entry>, got: seq<Option<Content>>, i: nat, d: string)
    requires i < |fetch| == |got|
  {
    Destination(fetch[i].path) == Some(d) && got[i].Some?
  }

  /** A removal clears `d`: the path may be written, and the file was not there or could be removed. */
  predicate Clears(files: map<string, Content>, delete: seq<string>, ok: seq<bool>, i: nat, d: string)
    requires i < |delete| == |ok|
  {
    Destination(delete[i]) == Some(d) && (d !in files || ok[i])
  }

  /** Exactly the destinations that some removal cleared are gone. */
  lemma {:induction false} RemovedExactly(files: map<string, Content>, delete: seq<string>, ok: seq<bool>, n: nat,
                                          d: string)
    requires n <= |delete| == |ok|
    ensures d in Removed(files, delete, ok, n) <==> exists i :: 0 <= i < n && Clears(files, delete, ok, i, d)
  {
    if n > 0 {
      RemovedExactly(files, delete, ok, n - 1, d);
      var last := Clears(files, delete, ok, n - 1, d);
    }
  }

  /** Removal `i` leaves nothing at its path: it clears it, or an earlier one did. */
  ghost predicate Gone(files: map<string, Content>, delete: seq<string>, ok: seq<bool>, i: nat)
    requires i < |delete| == |ok|
  {
    Destination(delete[i]).Some? &&
    exists j :: 0 <= j <= i && Clears(files, delete, ok, j, Destination(delete[i]).value)
  }

  lemma DeleteStep(files: map<string, Content>, delete: seq<string>, ok: seq<bool>, n: nat)
    requires n < |delete| == |ok|
    ensures DeletedPaths(files, delete, ok, n + 1) ==
              DeletedPaths(files, delete, ok, n) + if Gone(files, delete, ok, n) then [delete[n]] else []
    ensures UndeletedPaths(files, delete, ok, n + 1) ==
              UndeletedPaths(files, delete, ok, n) + if Gone(files, delete, ok, n) then [] else [delete[n]]
  {
    var dest := Destination(delete[n]);
    if dest.Some? {
      RemovedExactly(files, delete, ok, n, dest.value);
      var now := Clears(files, delete, ok, n, dest.value);
    }
  }

  /** Removal `i` is one of the path, and left nothing there or did not. */
  ghost predicate TriedDelete(files: map<string, Content>, delete: seq<string>, ok: seq<bool>, i: nat, p: string,
                              success: bool)
    requires i < |delete| == |ok|
  {
    delete[i] == p && Gone(files, delete, ok, i) == success
  }

  /** A path is reported as deleted if and only if a removal of it left nothing there, and as
      failed if and only if one did not. */
  lemma DeletesReportedTruly(files: map<string, Content>, delete: seq<string>, ok: seq<bool>, n: nat, p: string)
    requires n <= |delete| == |ok|
    ensures p in DeletedPaths(files, delete, ok, n) <==>
            exists i :: 0 <= i < n && TriedDelete(files, delete, ok, i, p, true)
    ensures p in UndeletedPaths(files, delete, ok, n) <==>
            exists i :: 0 <= i < n && TriedDelete(files, delete, ok, i, p, false)
  {
    DeletesListed(files, delete, ok, n, p, true);
    DeletesListed(files, delete, ok, n, p, false);
  }

  function DeleteList(files: map<string, Content>, delete: seq<string>, ok: seq<bool>, n: nat,
                      success: bool): seq<string>
    requires n <= |delete| == |ok|
  {
    if success then DeletedPaths(files, delete, ok, n) else UndeletedPaths(files, delete, ok, n)
  }

  lemma DeletesListed(files: map<string, Content>, delete: seq<string>, ok: seq<bool>, n: nat, p: string, success: bool)
    requires n <= |delete| == |ok|
    ensures p in DeleteList(files, delete, ok, n, success) <==>
            exists i :: 0 <= i < n && TriedDelete(files, delete, ok, i, p, success)
  {
    var items := delete[..n];
    var listed := seq(n, i requires 0 <= i < n => Gone(files, delete, ok, i) == success);
    var lists := seq(n + 1, i requires 0 <= i <= n => DeleteList(files, delete, ok, i, success));
    forall i | 0 <= i < n ensures lists[i + 1] == lists[i] + if listed[i] then [items[i]] else [] {
      DeleteStep(files, delete, ok, i);
    }
    ListedExactly(items, listed, lists, n, p);
    forall i | 0 <= i < n ensures items[i] == p && listed[i] <==> TriedDelete(files, delete, ok, i, p, success) {}
  }

  /** Every fetch tried is reported once, as done or as failed. */
  lemma {:induction false} FetchesReportedOnce(fetch: seq<Entry>, got: seq<Option<Content>>, n: nat)
    requires n <= |fetch| == |got|
    ensures SharesOut(FetchedPaths(fetch, got, n), UnfetchedPaths(fetch, got, n), FirstPaths(fetch, n))
  {
    if n == 0 {
      NothingShared();
    } else {
      var k := n - 1;
      FetchesReportedOnce(fetch, got, k);
      OneMore(FetchedPaths(fetch, got, k), UnfetchedPaths(fetch, got, k), FirstPaths(fetch, k), fetch[k].path,
              FetchedPaths(fetch, got, n), UnfetchedPaths(fetch, got, n), FirstPaths(fetch, n));
    }
  }

  /** Every delete is reported once, as done or as failed. */
  lemma {:induction false} DeletesReportedOnce(files: map<string, Content>, delete: seq<string>, ok: seq<bool>, n: nat)
    requires n <= |delete| == |ok|
    ensures SharesOut(DeletedPaths(files, delete, ok, n), UndeletedPaths(files, delete, ok, n), delete[..n])
  {
    if n == 0 {
      NothingShared();
    } else {
      var k := n - 1;
      DeletesReportedOnce(files, delete, ok, k);
      OneMore(DeletedPaths(files, delete, ok, k), UndeletedPaths(files, delete, ok, k), delete[..k], delete[k],
              DeletedPaths(files, delete, ok, n), UndeletedPaths(files, delete, ok, n), delete[..n]);
    }
  }

  lemma PublishedStep(files: map<string, Content>, fetch: seq<Entry>, got: seq<Option<Content>>, i: nat)
    requires i < |fetch| == |got|
    ensures var dest, before := Destination(fetch[i].path), files + Published(fetch, got, i);
            files + Published(fetch, got, i + 1) ==
            if dest.Some? && got[i].Some? then before[dest.value := got[i].value] else before
  {
  }

  /** The downloads, until cancelled. */
  method FetchAll(fetch: seq<Entry>, files: map<string, Content>, got: seq<Option<Content>>, cancelAt: nat)
    returns (files': map<string, Content>, fetched: seq<string>, failed: seq<string>)
    requires |got| == |fetch|
    ensures var n := if cancelAt < |fetch| then cancelAt else |fetch|;
            && files' == files + Published(fetch, got, n) && fetched == FetchedPaths(fetch, got, n)
            && failed == UnfetchedPaths(fetch, got, n) + (if cancelAt < |fetch| then [fetch[n].path] else [])
  {
    files', fetched, failed := files, [], [];
    for i := 0 to |fetch|
      invariant i <= cancelAt
      invariant files' == files + Published(fetch, got, i)
      invariant fetched == FetchedPaths(fetch, got, i) && failed == UnfetchedPaths(fetch, got, i)
    {
      PublishedStep(files, fetch, got, i);
      var path := fetch[i].path;
      if i == cancelAt {
        failed := failed + [path];
        return;
      }
      var dest := Destination(path);
      if dest.Some? && got[i].Some? {
        files' := files'[dest.value := got[i].value];
        fetched := fetched + [path];
      } else {
        failed := failed + [path];
      }
    }
  }

  /** The deletes: a file that is already gone counts as deleted. */
  method DeleteAll(delete: seq<string>, files: map<string, Content>, ok: seq<bool>)
    returns (files': map<string, Content>, deleted: seq<string>, failed: seq<string>)
    requires |ok| == |delete|
    ensures files' == files - Removed(files, delete, ok, |delete|)
    ensures deleted == DeletedPaths(files, delete, ok, |delete|)
    ensures failed == UndeletedPaths(files, delete, ok, |delete|)
  {
    files', deleted, failed := files, [], [];
    for k := 0 to |delete|
      invariant files' == files - Removed(files, delete, ok, k)
      invariant deleted == DeletedPaths(files, delete, ok, k) && failed == UndeletedPaths(files, delete, ok, k)
    {
      var path := delete[k];
      var dest := Destination(path);
      if dest.Some? && (dest.value !in files' || ok[k]) {
        files' := files' - {dest.value};
        deleted := deleted + [path];
      } else {
        failed := failed + [path];
      }
    }
  }

  /** Downloads until cancelled, then deletes; one failure never stops the rest, and
      every path tried is reported once. */
  method ApplyPlan(plan: Plan, files: map<string, Content>, got: seq<Option<Content>>, cancelAt: nat, ok: seq<bool>)
    returns (files': map<string, Content>, report: Report)
    requires |got| == |plan.fetch| && |ok| == |plan.delete|
    ensures var n := if cancelAt < |plan.fetch| then cancelAt else |plan.fetch|;
            var base := files + Published(plan.fetch, got, n);
            && files' == base - Removed(base, plan.delete, ok, |plan.delete|)
            && report.fetched == FetchedPaths(plan.fetch, got, n)
            && report.deleted == DeletedPaths(base, plan.delete, ok, |plan.delete|)
            && report.failed ==
               UnfetchedPaths(plan.fetch, got, n) + (if cancelAt < |plan.fetch| then [plan.fetch[n].path] else []) +
               UndeletedPaths(base, plan.delete, ok, |plan.delete|)
  {
    var base, fetched, failed := FetchAll(plan.fetch, files, got, cancelAt);
    var deleted, undeleted;
    files', deleted, undeleted := DeleteAll(plan.delete, base, ok);
    report := Report(fetched, deleted, failed + undeleted);
  }

  /** Files on disk are found where their path says, or are refused as a destination. */
  predicate ProperPaths(files: map<string, Content>) {
    forall p :: p in files ==> Destination(p) == None || Canonical(p)
  }

  /** One more download. */
  lemma PublishStep(fetch: seq<Entry>, got: seq<Option<Content>>, n: nat)
    requires n < |fetch| == |got|
    ensures var before, dest := Published(fetch, got, n), Destination(fetch[n].path);
            Published(fetch, got, n + 1) ==
            if dest.Some? && got[n].Some? then before[dest.value := got[n].value] else before
  {
  }

  lemma PublishedMembers(sha: Content -> string, fetch: seq<Entry>, got: seq<Option<Content>>, n: nat)
    requires n <= |fetch| == |got| && DistinctPaths(fetch)
    requires forall e :: e in fetch ==> Canonical(e.path)
    requires forall i :: 0 <= i < |got| && got[i].Some? ==> Verified(sha, fetch[i], got[i].value)
    ensures forall p :: p in Published(fetch, got, n) ==> exists e :: e in fetch && e.path == p
    ensures forall e :: e in fetch && e.path in Published(fetch, got, n) ==>
              Verified(sha, e, Published(fetch, got, n)[e.path])
  {
    var contents := Published(fetch, got, n);
    PublishedFrom(sha, fetch, got, n);
    forall p | p in contents
      ensures exists e :: e in fetch && e.path == p
      ensures forall e :: e in fetch && e.path == p ==> Verified(sha, e, contents[p])
    {
      LandedAtPath(sha, fetch, contents, p);
    }
  }

  lemma LandedAtPath(sha: Content -> string, fetch: seq<Entry>, contents: map<string, Content>, p: string)
    requires DistinctPaths(fetch) && (forall e :: e in fetch ==> Canonical(e.path))
             && LandedFrom(sha, fetch, contents, p)
    ensures exists e :: e in fetch && e.path == p
    ensures forall e :: e in fetch && e.path == p ==> Verified(sha, e, contents[p])
  {
    var x :| x in fetch && Destination(x.path) == Some(p) && Verified(sha, x, contents[p]);
    assert x.path == p;
    forall e | e in fetch && e.path == p ensures e == x { assert EntryKey(e) == EntryKey(x); }
  }

  lemma {:induction false} RemovedMembers(files: map<string, Content>, delete: seq<string>, ok: seq<bool>, n: nat)
    requires n <= |delete| == |ok|
    requires forall p :: p in delete ==> Destination(p) == None || Canonical(p)
    ensures forall p :: p in Removed(files, delete, ok, n) ==> p in delete
  {
    if n > 0 {
      RemovedMembers(files, delete, ok, n - 1);
      assert delete[n - 1] in delete;
    }
  }

  /** No fetch lands on the path of another wanted entry. */
  ghost predicate NoCollision(fetch: seq<Entry>, manifest: seq<Entry>, selection: Option<set<string>>) {
    forall x, e :: x in fetch && Wanted(manifest, selection, e) && Destination(x.path) == Some(e.path) ==> x == e
  }

  /** Content that landed where no wanted entry looks for it: its entry spells the path otherwise. */
  ghost predicate Stray(manifest: seq<Entry>, selection: Option<set<string>>, contents: map<string, Content>,
                        p: string) {
    p in contents && Visible(p) && !WantedPath(manifest, selection, p)
  }

  /** Whatever is published lies at the canonical destination of a fetch that it was verified for. */
  lemma {:induction false} PublishedFrom(sha: Content -> string, fetch: seq<Entry>, got: seq<Option<Content>>, n: nat)
    requires n <= |fetch| == |got|
    requires forall i :: 0 <= i < |got| && got[i].Some? ==> Verified(sha, fetch[i], got[i].value)
    ensures forall p :: p in Published(fetch, got, n) ==> LandedFrom(sha, fetch, Published(fetch, got, n), p)
  {
    if n > 0 {
      PublishedFrom(sha, fetch, got, n - 1);
      PublishStep(fetch, got, n - 1);
      var dest, before := Destination(fetch[n - 1].path), Published(fetch, got, n - 1);
      if dest.Some? && got[n - 1].Some? {
        assert fetch[n - 1] in fetch;
        LandsAt(sha, fetch, before, Published(fetch, got, n), fetch[n - 1], dest.value, got[n - 1].value);
      }
    }
  }

  lemma LandsAt(sha: Content -> string, fetch: seq<Entry>, before: map<string, Content>, after: map<string, Content>,
                e: Entry, d: string, c: Content)
    requires forall p :: p in before ==> LandedFrom(sha, fetch, before, p)
    requires e in fetch && Destination(e.path) == Some(d) && Verified(sha, e, c) && after == before[d := c]
    ensures forall p :: p in after ==> LandedFrom(sha, fetch, after, p)
  {
    forall p | p in after && p != d ensures LandedFrom(sha, fetch, after, p) {
      assert LandedFrom(sha, fetch, before, p);
    }
  }

  ghost predicate LandedFrom(sha: Content -> string, fetch: seq<Entry>, contents: map<string, Content>, p: string) {
    p in contents && exists e :: e in fetch && Destination(e.path) == Some(p) && Verified(sha, e, contents[p])
  }

  /** The second plan after any apply of a plan without collisions, whatever the spelling of
      its paths: the open fetches, and the deletes that did not happen with the strays. */
  lemma SecondPlan(sha: Content -> string, manifest: seq<Entry>, selection: Option<set<string>>,
                   files: map<string, Content>, local: seq<LocalFile>, contents: map<string, Content>,
                   gone: set<string>,
                   local': seq<LocalFile>)
    requires DistinctPaths(manifest) && IsListing(sha, files, local)
    requires var plan := PlanFor(manifest, local, selection);
             && NoCollision(plan.fetch, manifest, selection)
             && (forall p :: p in contents ==> LandedFrom(sha, plan.fetch, contents, p))
             && (forall p :: p in gone ==> p in plan.delete)
    requires IsListing(sha, (files + contents) - gone, local')
    ensures var plan, plan' := PlanFor(manifest, local, selection), PlanFor(manifest, local', selection);
            && plan'.fetch == Filter(Open(contents), plan.fetch)
            && (forall p :: p in plan'.delete <==>
                  p !in gone && (p in plan.delete || Stray(manifest, selection, contents, p)))
            && Ascending(PathKey, plan'.delete)
  {
    var files' := (files + contents) - gone;
    var plan, plan' := PlanFor(manifest, local, selection), PlanFor(manifest, local', selection);
    FetchMembers(sha, manifest, files, local, selection);
    FetchMembers(sha, manifest, files', local', selection);
    DeleteMembers(sha, manifest, files, local, selection);
    DeleteMembers(sha, manifest, files', local', selection);
    forall e | Wanted(manifest, selection, e)
      ensures Unmet(sha, files', e) <==> Unmet(sha, files, e) && !Settled(contents, e)
    {
      WantedKept(sha, manifest, selection, files, plan, contents, gone, e);
    }
    FilterMembers(Open(contents), plan.fetch);
    FilterAscending(EntryKey, Open(contents), plan.fetch);
    AscendingUnique(EntryKey, plan'.fetch, Filter(Open(contents), plan.fetch));
  }

  lemma WantedKept(sha: Content -> string, manifest: seq<Entry>, selection: Option<set<string>>,
                   files: map<string, Content>, plan: Plan, contents: map<string, Content>, gone: set<string>, e: Entry)
    requires Wanted(manifest, selection, e) && NoCollision(plan.fetch, manifest, selection)
    requires forall x :: x in plan.fetch ==> Unmet(sha, files, x)
    requires forall p :: p in contents ==> LandedFrom(sha, plan.fetch, contents, p)
    requires forall p :: p in gone ==> p in plan.delete && !WantedPath(manifest, selection, p)
    ensures Unmet(sha, (files + contents) - gone, e) <==> Unmet(sha, files, e) && !Settled(contents, e)
  {
    assert WantedPath(manifest, selection, e.path);
    if e.path in contents {
      assert LandedFrom(sha, plan.fetch, contents, e.path);
      var x :| x in plan.fetch && Destination(x.path) == Some(e.path) && Verified(sha, x, contents[e.path]);
      assert x == e;
    }
    UnmetAfter(sha, files, contents, gone, e);
  }

  /** Scan, plan, apply with any failures and cancelled anywhere, scan and plan again: the
      second plan is the first without what settled and what was removed, if and only if no
      content went astray that was not to be deleted anyway. */
  lemma ApplyThenReplan(sha: Content -> string, manifest: seq<Entry>, selection: Option<set<string>>,
                        files: map<string, Content>, local: seq<LocalFile>, got: seq<Option<Content>>, n: nat,
                        ok: seq<bool>, local': seq<LocalFile>)
    requires DistinctPaths(manifest) && IsListing(sha, files, local) && ProperPaths(files)
    requires var plan := PlanFor(manifest, local, selection);
             && n <= |plan.fetch| == |got| && |ok| == |plan.delete| && NoCollision(plan.fetch, manifest, selection)
             && (forall i :: 0 <= i < |got| && got[i].Some? ==> Verified(sha, plan.fetch[i], got[i].value))
             && (var base := files + Published(plan.fetch, got, n);
                 IsListing(sha, base - Removed(base, plan.delete, ok, |plan.delete|), local'))
    ensures var plan, plan' := PlanFor(manifest, local, selection), PlanFor(manifest, local', selection);
            var contents := Published(plan.fetch, got, n);
            var gone := Removed(files + contents, plan.delete, ok, |plan.delete|);
            && plan'.fetch == Filter(Open(contents), plan.fetch)
            && (forall p :: p in plan'.delete <==>
                  p !in gone && (p in plan.delete || Stray(manifest, selection, contents, p)))
            && (plan' == Plan(Filter(Open(contents), plan.fetch), Filter(NotIn(gone), plan.delete)) <==>
                forall p :: Stray(manifest, selection, contents, p) ==> p in gone || p in plan.delete)
  {
    var plan, plan' := PlanFor(manifest, local, selection), PlanFor(manifest, local', selection);
    var contents := Published(plan.fetch, got, n);
    var gone := Removed(files + contents, plan.delete, ok, |plan.delete|);
    DeleteMembers(sha, manifest, files, local, selection);
    PublishedFrom(sha, plan.fetch, got, n);
    RemovedMembers(files + contents, plan.delete, ok, |plan.delete|);
    SecondPlan(sha, manifest, selection, files, local, contents, gone, local');
    SameDeletes(plan'.delete, plan.delete, gone);
  }

  lemma SameDeletes(second: seq<string>, first: seq<string>, gone: set<string>)
    requires Ascending(PathKey, second) && Ascending(PathKey, first)
    ensures second == Filter(NotIn(gone), first) <==> forall p :: p in second <==> p in first && p !in gone
  {
    var left := Filter(NotIn(gone), first);
    FilterMembers(NotIn(gone), first);
    FilterAscending(PathKey, NotIn(gone), first);
    if forall p :: p in second <==> p in first && p !in gone { AscendingUnique(PathKey, second, left); }
  }

  /** Canonical paths do not collide and send nothing astray. */
  lemma CanonicalPlan(manifest: seq<Entry>, selection: Option<set<string>>, fetch: seq<Entry>)
    requires DistinctPaths(manifest) && (forall e :: e in fetch ==> Wanted(manifest, selection, e) && Canonical(e.path))
    ensures NoCollision(fetch, manifest, selection)
  {
    forall x, e | x in fetch && Wanted(manifest, selection, e) && Destination(x.path) == Some(e.path) ensures x == e {
      assert EntryKey(x) == EntryKey(e);
    }
  }

  lemma CanonicalNotStray(sha: Content -> string, manifest: seq<Entry>, selection: Option<set<string>>,
                          fetch: seq<Entry>,
                          got: seq<Option<Content>>, n: nat)
    requires n <= |fetch| == |got| && (forall e :: e in fetch ==> Wanted(manifest, selection, e) && Canonical(e.path))
    requires forall i :: 0 <= i < |got| && got[i].Some? ==> Verified(sha, fetch[i], got[i].value)
    ensures forall p :: !Stray(manifest, selection, Published(fetch, got, n), p)
  {
    var contents := Published(fetch, got, n);
    PublishedFrom(sha, fetch, got, n);
    forall p | p in contents ensures WantedPath(manifest, selection, p) {
      assert LandedFrom(sha, fetch, contents, p);
      var e :| e in fetch && Destination(e.path) == Some(p) && Verified(sha, e, contents[p]);
      assert Wanted(manifest, selection, e) && e.path == p;
    }
  }

  lemma {:induction false} PublishedAt(fetch: seq<Entry>, got: seq<Option<Content>>, n: nat, i: nat)
    requires i < n <= |fetch| == |got| && DistinctPaths(fetch)
    requires (forall e :: e in fetch ==> Canonical(e.path)) && got[i].Some?
    ensures var p := fetch[i].path; p in Published(fetch, got, n) && Published(fetch, got, n)[p] == got[i].value
  {
    assert fetch[i] in fetch && fetch[n - 1] in fetch;
    if i < n - 1 {
      PublishedAt(fetch, got, n - 1, i);
      assert fetch[i] != fetch[n - 1];
      assert EntryKey(fetch[i]) != EntryKey(fetch[n - 1]);
    }
  }

  lemma {:induction false} AllRemoved(files: map<string, Content>, delete: seq<string>, ok: seq<bool>, n: nat)
    requires n <= |delete| == |ok| && (forall i :: 0 <= i < |ok| ==> ok[i])
    requires forall p :: p in delete ==> Destination(p) == None || Canonical(p)
    ensures forall p :: p in Removed(files, delete, ok, n) <==> p in delete[..n] && Destination(p).Some?
  {
    if n > 0 {
      AllRemoved(files, delete, ok, n - 1);
      assert delete[n - 1] in delete && delete[..n] == delete[..n - 1] + [delete[n - 1]];
    }
  }

  /** An entry under another spelling of its path stays unmet through every apply. */
  lemma SpellingStaysUnmet(sha: Content -> string, files: map<string, Content>, fetch: seq<Entry>,
                           got: seq<Option<Content>>, n: nat, delete: seq<string>, ok: seq<bool>, e: Entry)
    requires n <= |fetch| == |got| && |ok| == |delete| && !Canonical(e.path) && Unmet(sha, files, e)
    ensures var base := files + Published(fetch, got, n); Unmet(sha, base - Removed(base, delete, ok, |ok|), e)
  {
    PublishedKeys(fetch, got, n);
    RemovedKeys(files + Published(fetch, got, n), delete, ok, |ok|);
  }

  lemma {:induction false} PublishedKeys(fetch: seq<Entry>, got: seq<Option<Content>>, n: nat)
    requires n <= |fetch| == |got|
    ensures forall p :: p in Published(fetch, got, n) ==> Canonical(p)
  {
    if n > 0 {
      PublishedKeys(fetch, got, n - 1);
      PublishStep(fetch, got, n - 1);
      CanonicalDestination(fetch[n - 1].path);
    }
  }

  lemma RemovedStep(files: map<string, Content>, delete: seq<string>, ok: seq<bool>, n: nat)
    requires n < |delete| == |ok|
    ensures var before, dest := Removed(files, delete, ok, n), Destination(delete[n]);
            || Removed(files, delete, ok, n + 1) == before
            || (dest.Some? && Removed(files, delete, ok, n + 1) == before + {dest.value})
  {
  }

  lemma {:induction false} RemovedKeys(files: map<string, Content>, delete: seq<string>, ok: seq<bool>, n: nat)
    requires n <= |delete| == |ok|
    ensures forall p :: p in Removed(files, delete, ok, n) ==> Canonical(p)
  {
    if n > 0 {
      RemovedKeys(files, delete, ok, n - 1);
      RemovedStep(files, delete, ok, n - 1);
      CanonicalDestination(delete[n - 1]);
    }
  }

  lemma CanonicalDestination(p: string)
    ensures Destination(p).Some? ==> Canonical(Destination(p).value)
  {
    if Destination(p).Some? { DestinationIsCanonical(p); }
  }

  /** The entry needs no further fetch once `c` has been published for it. */
  predicate Settles(e: Entry, c: Content) {
    Canonical(e.path) && Visible(e.path) && (e.sha256 != "" || |c| == e.size)
  }

  /** An apply in which every download and every removal works leaves nothing to do, if and
      only if every fetched name is canonical and visible, every unhashed content has the
      announced size, and no name to delete is refused as a destination. */
  lemma WholeApplyConverges(sha: Content -> string, manifest: seq<Entry>, selection: Option<set<string>>,
                            files: map<string, Content>, local: seq<LocalFile>, got: seq<Option<Content>>,
                            ok: seq<bool>, local': seq<LocalFile>)
    requires DistinctPaths(manifest) && IsListing(sha, files, local) && ProperPaths(files)
    requires var plan := PlanFor(manifest, local, selection);
             && |plan.fetch| == |got| && |ok| == |plan.delete| && (forall i :: 0 <= i < |ok| ==> ok[i])
             && (forall i :: 0 <= i < |got| ==> got[i].Some? && Verified(sha, plan.fetch[i], got[i].value))
             && (var base := files + Published(plan.fetch, got, |got|);
                 IsListing(sha, base - Removed(base, plan.delete, ok, |ok|), local'))
    ensures var plan := PlanFor(manifest, local, selection);
            PlanFor(manifest, local', selection) == Plan([], []) <==>
            && (forall i :: 0 <= i < |got| ==> Settles(plan.fetch[i], got[i].value))
            && (forall p :: p in plan.delete ==> Destination(p).Some?)
  {
    var plan := PlanFor(manifest, local, selection);
    FetchMembers(sha, manifest, files, local, selection);
    if i :| 0 <= i < |got| && !Canonical(plan.fetch[i].path) {
      var e, base := plan.fetch[i], files + Published(plan.fetch, got, |got|);
      assert e in plan.fetch;
      SpellingStaysUnmet(sha, files, plan.fetch, got, |got|, plan.delete, ok, e);
      FetchMembers(sha, manifest, base - Removed(base, plan.delete, ok, |ok|), local', selection);
    } else {
      CanonicalApplyConverges(sha, manifest, selection, files, local, got, ok, local');
    }
  }

  lemma CanonicalApplyConverges(sha: Content -> string, manifest: seq<Entry>, selection: Option<set<string>>,
                                files: map<string, Content>, local: seq<LocalFile>, got: seq<Option<Content>>,
                                ok: seq<bool>, local': seq<LocalFile>)
    requires DistinctPaths(manifest) && IsListing(sha, files, local) && ProperPaths(files)
    requires var plan := PlanFor(manifest, local, selection);
             && |plan.fetch| == |got| && |ok| == |plan.delete| && (forall i :: 0 <= i < |ok| ==> ok[i])
             && (forall i :: 0 <= i < |got| ==> got[i].Some? && Verified(sha, plan.fetch[i], got[i].value))
             && (forall i :: 0 <= i < |got| ==> Canonical(plan.fetch[i].path))
             && (var base := files + Published(plan.fetch, got, |got|);
                 IsListing(sha, base - Removed(base, plan.delete, ok, |ok|), local'))
    ensures var plan := PlanFor(manifest, local, selection);
            PlanFor(manifest, local', selection) == Plan([], []) <==>
            && (forall i :: 0 <= i < |got| ==> Settles(plan.fetch[i], got[i].value))
            && (forall p :: p in plan.delete ==> Destination(p).Some?)
  {
    var plan := PlanFor(manifest, local, selection);
    FetchMembers(sha, manifest, files, local, selection);
    DeleteMembers(sha, manifest, files, local, selection);
    AscendingDistinct(EntryKey, plan.fetch);
    CanonicalPlan(manifest, selection, plan.fetch);
    CanonicalNotStray(sha, manifest, selection, plan.fetch, got, |got|);
    ApplyThenReplan(sha, manifest, selection, files, local, got, |got|, ok, local');
    FetchesSettle(plan.fetch, got);
    DeletesSettle(files + Published(plan.fetch, got, |got|), plan.delete, ok);
  }

  lemma FetchesSettle(fetch: seq<Entry>, got: seq<Option<Content>>)
    requires |fetch| == |got| && DistinctPaths(fetch) && (forall e :: e in fetch ==> Canonical(e.path))
    requires forall i :: 0 <= i < |got| ==> got[i].Some?
    ensures Filter(Open(Published(fetch, got, |got|)), fetch) == [] <==>
            forall i :: 0 <= i < |got| ==> Settles(fetch[i], got[i].value)
  {
    var contents := Published(fetch, got, |got|);
    forall i | 0 <= i < |got| ensures Open(contents)(fetch[i]) <==> !Settles(fetch[i], got[i].value) {
      assert fetch[i] in fetch;
      PublishedAt(fetch, got, |got|, i);
    }
    NothingLeft(Open(contents), fetch);
  }

  lemma DeletesSettle(files: map<string, Content>, delete: seq<string>, ok: seq<bool>)
    requires |delete| == |ok| && (forall i :: 0 <= i < |ok| ==> ok[i])
    requires forall p :: p in delete ==> Destination(p) == None || Canonical(p)
    ensures Filter(NotIn(Removed(files, delete, ok, |ok|)), delete) == [] <==>
            forall p :: p in delete ==> Destination(p).Some?
  {
    var gone := Removed(files, delete, ok, |ok|);
    AllRemoved(files, delete, ok, |ok|);
    assert delete[..|ok|] == delete;
    NothingLeft(NotIn(gone), delete);
    assert forall p :: p in delete ==> (NotIn(gone)(p) <==> Destination(p).None?);
    assert forall i :: 0 <= i < |delete| ==> delete[i] in delete;
  }

  lemma NothingLeft<T(!new)>(keep: T -> bool, s: seq<T>)
    ensures Filter(keep, s) == [] <==> forall i :: 0 <= i < |s| ==> !keep(s[i])
  {
    FilterMembers(keep, s);
    var left := Filter(keep, s);
    assert left != [] ==> left[0] in left;
    if i :| 0 <= i < |s| && keep(s[i]) { assert s[i] in left; }
  }

  lemma DoubledSlash()
    ensures Destination("a//b") == Some("a/b") && Canonical("a/b")
  {
    SplitDoubled();
    KeptDoubled();
    assert ["a", "b"][1..] == ["b"];
    assert JoinWith(["a", "b"], '/') == "a/b";
    DestinationIsCanonical("a//b");
  }

  lemma SplitDoubled()
    ensures SplitOn("a//b", '/') == ["a", "", "b"]
  {
    SplitFirst("a", "/b", '/');
    SplitFirst("", "b", '/');
    SplitWhole("b", '/');
    assert "a" + ("/" + "/b") == "a//b" && "" + ("/" + "b") == "/b";
  }

  lemma KeptDoubled()
    ensures Kept(["a", "", "b"]) == Some(["a", "b"])
  {
    assert ["a", "", "b"][1..] == ["", "b"] && ["", "b"][1..] == ["b"] && ["b"][1..] == [];
    assert Kept(["b"]) == Some(["b"] + []) && ["b"] + [] == ["b"];
    assert Kept(["", "b"]) == Some(["b"]);
    assert ["a"] + ["b"] == ["a", "b"];
  }

  lemma OneEntry(e: Entry)
    ensures DistinctPaths([e]) && Wanted([e], None, e) && Ascending(EntryKey, [e])
    ensures forall x :: Wanted([e], None, x) ==> x == e
    ensures forall p :: WantedPath([e], None, p) ==> p == e.path
  {
  }

  lemma FirstFetch(sha: Content -> string, e: Entry, local: seq<LocalFile>)
    requires IsListing(sha, map[], local)
    ensures PlanFor([e], local, None).fetch == [e]
  {
    OneEntry(e);
    FetchMembers(sha, [e], map[], local, None);
    AscendingUnique(EntryKey, PlanFor([e], local, None).fetch, [e]);
  }

  lemma FetchAgain(sha: Content -> string, e: Entry, p: string, c: Content, local: seq<LocalFile>)
    requires IsListing(sha, map[p := c], local) && e.path != p && Visible(p)
    ensures e in PlanFor([e], local, None).fetch && p in PlanFor([e], local, None).delete
  {
    OneEntry(e);
    FetchMembers(sha, [e], map[p := c], local, None);
    DeleteMembers(sha, [e], map[p := c], local, None);
  }

  lemma OnePublished(e: Entry, p: string, c: Content)
    requires Destination(e.path) == Some(p)
    ensures Published([e], [Some(c)], 1) == map[p := c]
  {
    PublishStep([e], [Some(c)], 0);
    assert Published([e], [Some(c)], 0) == map[];
  }

  /** It goes on for ever: "a//b" is fetched to "a/b", which the next plan deletes, and
      fetches "a//b" again. */
  lemma SpellingNeverSettles(sha: Content -> string, c: Content, local: seq<LocalFile>, local': seq<LocalFile>)
    requires IsListing(sha, map[], local) && IsListing(sha, map["a/b" := c], local')
    ensures var e := Entry("a//b", |c|, sha(c));
            && PlanFor([e], local, None).fetch == [e] && Published([e], [Some(c)], 1) == map["a/b" := c]
            && e in PlanFor([e], local', None).fetch && "a/b" in PlanFor([e], local', None).delete
  {
    var e := Entry("a//b", |c|, sha(c));
    DoubledSlash();
    FirstFetch(sha, e, local);
    OnePublished(e, "a/b", c);
    FetchAgain(sha, e, "a/b", c, local');
  }
}
