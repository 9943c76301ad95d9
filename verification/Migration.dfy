/** Moving a share's directory: every outcome of every file, over interrupted and repeated runs. */
module Migration {
  import opened Prelude
  import opened Ordering
  import opened SyncPaths
  import opened Digests

  type Files = map<string, Content>

  // ---- What the filesystem may answer ----

  /** A copy may end early, leaving what it wrote. */
  datatype Copy = Whole(removed: bool) | Cut(at: nat) | Unopened

  datatype Rename = Renamed | CrossDevice(copy: Copy) | Refused

  /** The answers met while moving one path: whether its size could be read, whether a
      directory stands at its destination, and how each call that can fail turns out. */
  datatype Io = Io(sized: bool, directory: bool, compares: bool, removes: bool, makesParent: bool, rename: Rename)

  /** The walk over the source: the files it came to, and whether an error ended it. */
  datatype Walk = Walk(entries: seq<string>, failed: bool)

  predicate Clean(io: Io) {
    !io.directory && io.compares && io.removes && io.makesParent &&
    (io.rename == Renamed || io.rename == CrossDevice(Whole(true)))
  }

  ghost predicate AllClean(io: string -> Io) {
    forall p :: Clean(io(p))
  }

  datatype Failure = UnsafePath | CompareFailed | MkdirFailed | RenameFailed | CopyFailed | RemoveFailed

  datatype Report = Report(moved: nat, bytes: nat, conflicts: seq<string>, failed: seq<(string, Failure)>,
                           cancelled: bool)

  const EMPTY: Report := Report(0, 0, [], [], false)

  datatype Refusal = Nested | NoDestination | NoSpace(need: nat, free: nat)

  datatype Outcome = Done(report: Report) | Refusing(why: Refusal)

  /** Facts about the two roots, read before any file moves; `room` is the free space
      when the volumes differ and it is known. */
  datatype Roots = Roots(same: bool, sourceExists: bool, nested: bool, destMade: bool, room: Option<nat>)

  // ---- One path ----

  datatype Step = Kept(why: Failure) | Conflict | Twin(removed: bool) | Moved | Copied | Torn(at: nat)

  /** What becomes of a file with content `c`, given the file now at its destination. */
  function StepFor(io: Io, p: string, c: Content, there: Option<Content>): Step {
    if Destination(p).None? then Kept(UnsafePath)
    else if there.Some? || io.directory then
      if !io.compares then Kept(CompareFailed)
      else if there == Some(c) then Twin(io.removes)
      else Conflict
    else if !io.makesParent then Kept(MkdirFailed)
    else
      match io.rename
      case Renamed => Moved
      case Refused => Kept(RenameFailed)
      case CrossDevice(Unopened) => Kept(CopyFailed)
      case CrossDevice(Cut(at)) => Torn(if at < |c| then at else |c|)
      case CrossDevice(Whole(removed)) => if removed then Moved else Copied
  }

  function SourceAfter(step: Step, c: Content): Option<Content> {
    if step == Moved || step == Twin(true) then None else Some(c)
  }

  function DestAfter(step: Step, c: Content, there: Option<Content>): Option<Content> {
    match step
    case Moved => Some(c)
    case Copied => Some(c)
    case Torn(at) => Some(if at < |c| then c[..at] else c)
    case _ => there
  }

  /** The size on record: a file whose size could not be read counts as empty. */
  function SizeOf(io: Io, c: Content): nat {
    if io.sized then |c| else 0
  }

  function Tally(report: Report, p: string, size: nat, step: Step): Report {
    match step
    case Kept(why) => report.(failed := report.failed + [(p, why)])
    case Conflict => report.(conflicts := report.conflicts + [p])
    case Torn(_) => report.(failed := report.failed + [(p, CopyFailed)])
    case Copied => report.(failed := report.failed + [(p, RemoveFailed)])
    case _ => report.(moved := report.moved + 1, bytes := report.bytes + size)
  }

  // ---- A run over sorted paths ----

  datatype State = State(src: Files, dst: Files, report: Report)

  function At(m: Files, p: string): Option<Content> {
    if p in m then Some(m[p]) else None
  }

  function With(m: Files, p: string, v: Option<Content>): Files {
    if v.Some? then m[p := v.value] else m - {p}
  }

  function MoveOne(io: string -> Io, p: string, s: State): State {
    if p !in s.src then s
    else
      var c := s.src[p];
      var step := StepFor(io(p), p, c, At(s.dst, p));
      State(With(s.src, p, SourceAfter(step, c)),
            With(s.dst, p, DestAfter(step, c, At(s.dst, p))),
            Tally(s.report, p, SizeOf(io(p), c), step))
  }

  function MoveAll(io: string -> Io, paths: seq<string>, s: State): State {
    if paths == [] then s
    else MoveOne(io, paths[|paths| - 1], MoveAll(io, paths[..|paths| - 1], s))
  }

  /** Partial downloads leave the old directory; one that cannot be removed stays. */
  function Swept(io: string -> Io, src: Files): Files {
    map p | p in src && (Visible(p) || !io(p).removes) :: src[p]
  }

  /** A run that stops before path `k`, or visits every path when `k` is their number. */
  function RunTo(io: string -> Io, paths: seq<string>, k: nat, src: Files, dst: Files): State
    requires k <= |paths|
  {
    var s := MoveAll(io, paths[..k], State(src, dst, EMPTY));
    if k < |paths| then s.(report := s.report.(cancelled := true)) else s.(src := Swept(io, s.src))
  }

  /** A path the filesystem itself can name: no empty or dotted step. */
  predicate OsPath(p: string) {
    '\0' !in p && forall c :: c in SplitOn(p, '/') ==> c != "" && c != "." && c != ".."
  }

  ghost predicate OsFiles(m: Files) {
    forall p :: p in m ==> OsPath(p)
  }

  /** The walk comes to each file at most once, and to all of them unless it fails. */
  ghost predicate Walks(src: Files, w: Walk) {
    && NoRepeats(w.entries) && (forall p :: p in w.entries ==> p in src)
    && (!w.failed ==> forall p :: p in src ==> p in w.entries)
  }

  /** The visible files a walk came to, sorted. */
  ghost predicate Collected(w: Walk, paths: seq<string>) {
    Ascending(Self, paths) && forall p :: p in paths <==> p in w.entries && Visible(p)
  }

  /** Some visible files of a directory, sorted. */
  ghost predicate Found(src: Files, paths: seq<string>) {
    Ascending(Self, paths) && forall p :: p in paths ==> p in src && Visible(p)
  }

  /** All of them. */
  ghost predicate Complete(src: Files, paths: seq<string>) {
    Found(src, paths) && forall p :: p in src && Visible(p) ==> p in paths
  }

  /** An error on the walk is dropped: what was found before it is taken for the directory. */
  lemma CollectedIsFound(src: Files, w: Walk, paths: seq<string>)
    requires Walks(src, w) && Collected(w, paths)
    ensures Found(src, paths) && (!w.failed ==> Complete(src, paths))
  {
  }

  function Self(p: string): string { p }

  /** The filesystem's own paths are their own destinations, unless they hold a backslash. */
  lemma OsPathDestination(p: string)
    requires OsPath(p)
    ensures Destination(p) == if '\\' in p then None else Some(p)
  {
    if '\\' !in p {
      var comps := SplitOn(p, '/');
      SplitHasNoSep(p, '/');
      SplitCharacters(p, '\\');
      SplitCharacters(p, '\0');
      KeptAll(comps);
      JoinSplit(p, '/');
      assert comps != [] && comps[0] in comps;
    }
  }

  lemma AscendingNoRepeats(paths: seq<string>)
    requires Ascending(Self, paths)
    ensures NoRepeats(paths)
  {
    forall i, j | 0 <= i < j < |paths| ensures paths[i] != paths[j] {
      LessStrict(Self(paths[i]), Self(paths[j]));
    }
  }

  // ---- What each path comes to ----

  /** The path went through its own step. */
  predicate Stepped(io: Io, p: string, src: Files, dst: Files, src': Files, dst': Files) {
    && p in src
    && var step := StepFor(io, p, src[p], At(dst, p));
       At(src', p) == SourceAfter(step, src[p]) && At(dst', p) == DestAfter(step, src[p], At(dst, p))
  }

  predicate SameAt(p: string, src: Files, dst: Files, src': Files, dst': Files) {
    At(src', p) == At(src, p) && At(dst', p) == At(dst, p)
  }

  lemma MoveOneAt(io: string -> Io, q: string, s: State, p: string)
    requires q in s.src
    ensures var s' := MoveOne(io, q, s);
            if p == q then Stepped(io(p), p, s.src, s.dst, s'.src, s'.dst) else SameAt(p, s.src, s.dst, s'.src, s'.dst)
  {
  }

  /** Paths do not disturb each other: each ends as its own step says. */
  lemma {:induction false} MoveAllAt(io: string -> Io, paths: seq<string>, s: State, p: string)
    requires NoRepeats(paths) && forall q :: q in paths ==> q in s.src
    ensures var s' := MoveAll(io, paths, s);
            if p in paths then Stepped(io(p), p, s.src, s.dst, s'.src, s'.dst)
            else SameAt(p, s.src, s.dst, s'.src, s'.dst)
  {
    if paths != [] {
      var n := |paths| - 1;
      assert paths == paths[..n] + [paths[n]];
      MoveAllAt(io, paths[..n], s, p);
      MoveAllAt(io, paths[..n], s, paths[n]);
      MoveOneAt(io, paths[n], MoveAll(io, paths[..n], s), p);
    }
  }

  /** One run, path by path: a visited path takes its step, and any other stays where it
      was, except that a completed run clears partial downloads. */
  lemma RunAt(io: string -> Io, paths: seq<string>, k: nat, src: Files, dst: Files, p: string)
    requires Found(src, paths) && k <= |paths|
    ensures p in paths[..k] ==> p in src && Visible(p)
    ensures var s' := RunTo(io, paths, k, src, dst);
            if p in paths[..k] then Stepped(io(p), p, src, dst, s'.src, s'.dst)
            else || SameAt(p, src, dst, s'.src, s'.dst)
                 || (!Visible(p) && k == |paths| && At(s'.src, p) == None && At(s'.dst, p) == At(dst, p))
  {
    AscendingNoRepeats(paths);
    assert forall q :: q in paths[..k] ==> q in paths;
    MoveAllAt(io, paths[..k], State(src, dst, EMPTY), p);
  }

  // ---- Conservation ----

  /** A visible source file still has its content on one side, a destination file is
      untouched, and what is new there is a prefix of the source's file. */
  predicate ConservesAt(p: string, src: Files, dst: Files, src': Files, dst': Files) {
    && (p in src && Visible(p) ==> At(src', p) == Some(src[p]) || At(dst', p) == Some(src[p]))
    && (p in dst ==> At(dst', p) == Some(dst[p]))
    && (p in src' ==> At(src, p) == Some(src'[p]))
    && (p in dst' && p !in dst ==> p in src && Visible(p) && dst'[p] <= src[p])
  }

  ghost predicate Conserves(src: Files, dst: Files, src': Files, dst': Files) {
    forall p :: ConservesAt(p, src, dst, src', dst')
  }

  lemma SteppedConserves(io: Io, p: string, src: Files, dst: Files, src': Files, dst': Files)
    requires Stepped(io, p, src, dst, src', dst') && Visible(p)
    ensures ConservesAt(p, src, dst, src', dst')
  {
  }

  /** Whatever the filesystem answers and wherever the run stops, nothing is lost. */
  lemma RunConserves(io: string -> Io, paths: seq<string>, k: nat, src: Files, dst: Files)
    requires Found(src, paths) && k <= |paths|
    ensures var s' := RunTo(io, paths, k, src, dst); Conserves(src, dst, s'.src, s'.dst)
  {
    var s' := RunTo(io, paths, k, src, dst);
    forall p ensures ConservesAt(p, src, dst, s'.src, s'.dst) {
      RunAt(io, paths, k, src, dst, p);
      if p in paths[..k] { SteppedConserves(io(p), p, src, dst, s'.src, s'.dst); }
    }
  }

  // ---- Runs one after another ----

  /** One attempt: the filesystem's answers, the paths found, and where it stopped. */
  datatype Attempt = Attempt(io: string -> Io, paths: seq<string>, k: nat)

  /** The directories between attempts. */
  datatype Pair = Pair(src: Files, dst: Files)

  ghost predicate Attempted(a: Attempt, before: Pair, after: Pair) {
    && Found(before.src, a.paths) && a.k <= |a.paths|
    && var s := RunTo(a.io, a.paths, a.k, before.src, before.dst);
       after == Pair(s.src, s.dst)
  }

  ghost predicate History(attempts: seq<Attempt>, pairs: seq<Pair>) {
    && |pairs| == |attempts| + 1
    && forall i :: 0 <= i < |attempts| ==> Attempted(attempts[i], pairs[i], pairs[i + 1])
  }

  /** Conservation over any number of cancelled, failing and repeated runs. */
  lemma {:induction false} HistoryConserves(attempts: seq<Attempt>, pairs: seq<Pair>, i: nat, j: nat)
    requires History(attempts, pairs) && i <= j <= |attempts|
    ensures Conserves(pairs[i].src, pairs[i].dst, pairs[j].src, pairs[j].dst)
    decreases j
  {
    if i == j {
      assert forall p :: ConservesAt(p, pairs[i].src, pairs[i].dst, pairs[i].src, pairs[i].dst);
    } else {
      HistoryConserves(attempts, pairs, i, j - 1);
      var a := attempts[j - 1];
      assert Attempted(a, pairs[j - 1], pairs[j - 1 + 1]);
      RunConserves(a.io, a.paths, a.k, pairs[j - 1].src, pairs[j - 1].dst);
      ConservesTwice(pairs[i], pairs[j - 1], pairs[j]);
    }
  }

  lemma ConservesTwice(a: Pair, b: Pair, c: Pair)
    requires Conserves(a.src, a.dst, b.src, b.dst) && Conserves(b.src, b.dst, c.src, c.dst)
    ensures Conserves(a.src, a.dst, c.src, c.dst)
  {
    forall p ensures ConservesAt(p, a.src, a.dst, c.src, c.dst) {
      assert ConservesAt(p, a.src, a.dst, b.src, b.dst) && ConservesAt(p, b.src, b.dst, c.src, c.dst);
    }
  }

  // ---- Where a run without faults ends ----

  /** The file stays behind: no destination may be written for it, or another file is there. */
  predicate Stays(p: string, c: Content, there: Option<Content>) {
    Destination(p).None? || (there.Some? && there.value != c)
  }

  function FinalSource(m: Pair): Files {
    map p | p in m.src && Visible(p) && Stays(p, m.src[p], At(m.dst, p)) :: m.src[p]
  }

  predicate Arrives(p: string, m: Pair) {
    p in m.src && Visible(p) && Destination(p).Some? && p !in m.dst
  }

  function FinalDest(m: Pair): Files {
    map p | p in m.src.Keys + m.dst.Keys && (p in m.dst || Arrives(p, m)) :: if p in m.dst then m.dst[p] else m.src[p]
  }

  /** What both sides hold once everything that can move has moved. */
  function Final(m: Pair): Pair {
    Pair(FinalSource(m), FinalDest(m))
  }

  /** The same, for one path. */
  function Ends(p: string, m: Pair): (Option<Content>, Option<Content>) {
    (if p in m.src && Visible(p) && Stays(p, m.src[p], At(m.dst, p)) then Some(m.src[p]) else None,
     if Arrives(p, m) then Some(m.src[p]) else At(m.dst, p))
  }

  lemma FinalPoint(m: Pair, end: Pair)
    ensures end == Final(m) <==> forall p :: (At(end.src, p), At(end.dst, p)) == Ends(p, m)
  {
    var final := Final(m);
    assert forall p :: (At(final.src, p), At(final.dst, p)) == Ends(p, m);
    SameFiles(end.src, final.src);
    SameFiles(end.dst, final.dst);
    if forall p :: (At(end.src, p), At(end.dst, p)) == Ends(p, m) {
      forall p ensures At(end.src, p) == At(final.src, p) && At(end.dst, p) == At(final.dst, p) {
        assert (At(final.src, p), At(final.dst, p)) == Ends(p, m);
        assert (At(end.src, p), At(end.dst, p)) == Ends(p, m);
      }
    }
  }

  lemma FinalSame(a: Pair, b: Pair)
    ensures Final(a) == Final(b) <==> forall p :: Ends(p, a) == Ends(p, b)
  {
    FinalPoint(a, Final(a));
    FinalPoint(b, Final(a));
  }

  lemma SameFiles(a: Files, b: Files)
    ensures a == b <==> forall p :: At(a, p) == At(b, p)
  {
    if forall p :: At(a, p) == At(b, p) {
      forall p ensures p in a <==> p in b { assert At(a, p) == At(b, p); }
      forall p | p in a ensures a[p] == b[p] { assert At(a, p) == At(b, p); }
    }
  }

  /** Not found by the walk, although it could move. */
  predicate Overlooked(p: string, paths: seq<string>, m: Pair) {
    p in m.src && Visible(p) && p !in paths && !Stays(p, m.src[p], At(m.dst, p))
  }

  /** A run without faults ends in exactly that state, if and only if its walk overlooked
      no file that could move. */
  lemma CleanRunEnds(io: string -> Io, paths: seq<string>, m: Pair)
    requires AllClean(io) && Found(m.src, paths)
    ensures var s := RunTo(io, paths, |paths|, m.src, m.dst);
            Pair(s.src, s.dst) == Final(m) <==> forall p :: !Overlooked(p, paths, m)
  {
    var s := RunTo(io, paths, |paths|, m.src, m.dst);
    forall p ensures (At(s.src, p), At(s.dst, p)) == Ends(p, m) <==> !Overlooked(p, paths, m) {
      CleanAt(io, paths, m, p);
    }
    FinalPoint(m, Pair(s.src, s.dst));
  }

  lemma CleanAt(io: string -> Io, paths: seq<string>, m: Pair, p: string)
    requires AllClean(io) && Found(m.src, paths)
    ensures var s := RunTo(io, paths, |paths|, m.src, m.dst);
            (At(s.src, p), At(s.dst, p)) == Ends(p, m) <==> !Overlooked(p, paths, m)
  {
    assert paths[..|paths|] == paths;
    assert Clean(io(p));
    RunAt(io, paths, |paths|, m.src, m.dst, p);
    var s := RunTo(io, paths, |paths|, m.src, m.dst);
    if !Visible(p) {
      SweptAt(io, paths, m, p);
    }
  }

  /** A complete run clears every partial download it can remove. */
  lemma SweptAt(io: string -> Io, paths: seq<string>, m: Pair, p: string)
    requires Found(m.src, paths) && !Visible(p) && io(p).removes
    ensures At(RunTo(io, paths, |paths|, m.src, m.dst).src, p) == None
  {
  }

  /** The copy of `p` was cut short in this attempt. */
  predicate TornBy(a: Attempt, m: Pair, p: string)
    requires a.k <= |a.paths|
  {
    p in a.paths[..a.k] && p in m.src &&
    match StepFor(a.io(p), p, m.src[p], At(m.dst, p))
    case Torn(at) => at < |m.src[p]|
    case _ => false
  }

  lemma StepEnds(a: Attempt, p: string, m: Pair, m': Pair)
    requires a.k <= |a.paths| && p in a.paths[..a.k] && Visible(p)
    requires Stepped(a.io(p), p, m.src, m.dst, m'.src, m'.dst)
    ensures Ends(p, m') == Ends(p, m) <==> !TornBy(a, m, p)
    ensures TornBy(a, m, p) ==> p !in m.dst && Destination(p).Some? && p in m'.dst && m'.dst[p] != m.src[p]
  {
  }

  /** An attempt leaves the final state as it was, unless it tore a copy. */
  lemma AttemptKeepsFinal(a: Attempt, m: Pair, m': Pair)
    requires Attempted(a, m, m')
    ensures Final(m') == Final(m) <==> forall p :: !TornBy(a, m, p)
  {
    forall p ensures Ends(p, m') == Ends(p, m) <==> !TornBy(a, m, p) {
      RunAt(a.io, a.paths, a.k, m.src, m.dst, p);
      if p in a.paths[..a.k] { StepEnds(a, p, m, m'); }
    }
    FinalSame(m', m);
  }

  ghost predicate NoTear(attempts: seq<Attempt>, pairs: seq<Pair>)
    requires History(attempts, pairs)
  {
    forall i :: 0 <= i < |attempts| ==>
      Attempted(attempts[i], pairs[i], pairs[i + 1]) && forall p :: !TornBy(attempts[i], pairs[i], p)
  }

  lemma {:induction false} UntornKeepsFinal(attempts: seq<Attempt>, pairs: seq<Pair>, i: nat)
    requires History(attempts, pairs) && NoTear(attempts, pairs) && i <= |attempts|
    ensures Final(pairs[i]) == Final(pairs[0])
  {
    if i > 0 {
      UntornKeepsFinal(attempts, pairs, i - 1);
      assert Attempted(attempts[i - 1], pairs[i - 1], pairs[i - 1 + 1]);
      AttemptKeepsFinal(attempts[i - 1], pairs[i - 1], pairs[i]);
    }
  }

  /** A torn copy is never mended: its remains hold the place for good. */
  lemma TearLasts(attempts: seq<Attempt>, pairs: seq<Pair>, i: nat, p: string)
    requires History(attempts, pairs) && i < |attempts|
    requires Attempted(attempts[i], pairs[i], pairs[i + 1]) && TornBy(attempts[i], pairs[i], p)
    ensures var n := |attempts|; Ends(p, pairs[n]) != Ends(p, pairs[0])
  {
    var a, m, m' := attempts[i], pairs[i], pairs[i + 1];
    RunAt(a.io, a.paths, a.k, m.src, m.dst, p);
    StepEnds(a, p, m, m');
    HistoryConserves(attempts, pairs, 0, i);
    HistoryConserves(attempts, pairs, i + 1, |attempts|);
    assert ConservesAt(p, pairs[0].src, pairs[0].dst, m.src, m.dst);
    assert ConservesAt(p, m'.src, m'.dst, pairs[|attempts|].src, pairs[|attempts|].dst);
  }

  /** After any history of cancelled runs, failing walks and failing moves, one complete run without faults
      ends exactly where it would have ended at the start, if and only if no copy was cut
      short on the way. */
  lemma MigrationResumes(attempts: seq<Attempt>, pairs: seq<Pair>, io: string -> Io, first: seq<string>,
                         last: seq<string>)
    requires History(attempts, pairs) && AllClean(io)
    requires Complete(pairs[0].src, first) && Complete(pairs[|attempts|].src, last)
    ensures var n := |attempts|;
            var once := RunTo(io, first, |first|, pairs[0].src, pairs[0].dst);
            var resumed := RunTo(io, last, |last|, pairs[n].src, pairs[n].dst);
            (resumed.src == once.src && resumed.dst == once.dst) <==> NoTear(attempts, pairs)
  {
    var n := |attempts|;
    CleanRunEnds(io, first, pairs[0]);
    CleanRunEnds(io, last, pairs[n]);
    if NoTear(attempts, pairs) {
      UntornKeepsFinal(attempts, pairs, n);
    } else {
      var i :| && 0 <= i < n
               && !(Attempted(attempts[i], pairs[i], pairs[i + 1]) && forall p :: !TornBy(attempts[i], pairs[i], p));
      var p :| TornBy(attempts[i], pairs[i], p);
      TearLasts(attempts, pairs, i, p);
      FinalSame(pairs[n], pairs[0]);
    }
  }

  function CutAtOne(p: string): Io {
    Io(true, false, true, true, true, CrossDevice(Cut(1)))
  }

  lemma OneFileRun(io: string -> Io, src: Files, dst: Files)
    ensures RunTo(io, ["f"], 1, src, dst) ==
              (var s := MoveOne(io, "f", State(src, dst, EMPTY)); s.(src := Swept(io, s.src)))
  {
    var start := State(src, dst, EMPTY);
    assert ["f"][..1] == ["f"] && ["f"][..0] == [];
    assert MoveAll(io, ["f"], start) == MoveOne(io, "f", MoveAll(io, [], start));
  }

  lemma FileMoves()
    ensures Destination("f") == Some("f") && Visible("f")
  {
    SplitWhole("f", '/');
    OsPathDestination("f");
  }

  /** The copy of a two-byte file is cut after one byte. */
  lemma CutRun()
    ensures var cut := RunTo(CutAtOne, ["f"], 1, map["f" := [7, 8]], map[]);
            cut.src == map["f" := [7, 8]] && cut.dst == map["f" := [7]]
  {
    FileMoves();
    var whole: Content := [7, 8];
    var src: Files := map["f" := whole];
    OneFileRun(CutAtOne, src, map[]);
    assert CutAtOne("f").rename == CrossDevice(Cut(1));
    assert StepFor(CutAtOne("f"), "f", whole, None) == Torn(1);
    assert whole[..1] == [7];
    assert DestAfter(Torn(1), whole, None) == Some([7]);
  }

  /** A cut copy does happen to block: the next run meets its one byte and reports a conflict. */
  lemma TornCopyBlocks(io: string -> Io)
    requires AllClean(io)
    ensures var cut := RunTo(CutAtOne, ["f"], 1, map["f" := [7, 8]], map[]);
            var next := RunTo(io, ["f"], 1, cut.src, cut.dst);
            && next.report.conflicts == ["f"]
            && next.src == map["f" := [7, 8]] && next.dst == map["f" := [7]]
  {
    CutRun();
    FileMoves();
    assert Clean(io("f"));
    var src, dst: Files := map["f" := [7, 8]], map["f" := [7]];
    OneFileRun(io, src, dst);
    assert StepFor(io("f"), "f", src["f"], Some(dst["f"])) == Conflict;
  }

  // ---- The report ----

  function FailureOf(step: Step): Option<Failure> {
    match step
    case Kept(why) => Some(why)
    case Torn(_) => Some(CopyFailed)
    case Copied => Some(RemoveFailed)
    case _ => None
  }

  function StepAt(io: string -> Io, src: Files, dst: Files, p: string): Step
    requires p in src
  {
    StepFor(io(p), p, src[p], At(dst, p))
  }

  function Counted(r: Report): nat {
    r.moved + |r.conflicts| + |r.failed|
  }

  lemma TallyAdds(r: Report, p: string, size: nat, step: Step)
    ensures var r' := Tally(r, p, size, step);
            && Counted(r') == Counted(r) + 1
            && (forall q :: q in r'.conflicts <==> q in r.conflicts || (q == p && step == Conflict))
            && (forall f :: f in r'.failed <==> f in r.failed || (f.0 == p && FailureOf(step) == Some(f.1)))
  {
  }

  /** The report accounts for every visited path exactly once. */
  lemma {:induction false} MoveAllReport(io: string -> Io, paths: seq<string>, src: Files, dst: Files)
    requires NoRepeats(paths) && forall q :: q in paths ==> q in src
    ensures var r := MoveAll(io, paths, State(src, dst, EMPTY)).report;
            && Counted(r) == |paths|
            && (forall p :: p in r.conflicts <==> p in paths && StepAt(io, src, dst, p) == Conflict)
            && (forall f :: f in r.failed <==> f.0 in paths && FailureOf(StepAt(io, src, dst, f.0)) == Some(f.1))
  {
    if paths != [] {
      var n := |paths| - 1;
      assert paths == paths[..n] + [paths[n]];
      MoveAllReport(io, paths[..n], src, dst);
      MoveAllAt(io, paths[..n], State(src, dst, EMPTY), paths[n]);
      var before := MoveAll(io, paths[..n], State(src, dst, EMPTY));
      TallyAdds(before.report, paths[n], SizeOf(io(paths[n]), src[paths[n]]), StepAt(io, src, dst, paths[n]));
    }
  }

  /** Why a file is in a report: a conflict is another file, or a folder, in its place; each
      failure is that of one call, and only where the calls before it worked. */
  lemma ReportReasons(io: string -> Io, paths: seq<string>, src: Files, dst: Files, p: string)
    requires NoRepeats(paths) && (forall q :: q in paths ==> q in src) && p in paths
    ensures var r := MoveAll(io, paths, State(src, dst, EMPTY)).report;
            var safe, taken, here := Destination(p).Some?, p in dst || io(p).directory, io(p);
            var moves := safe && !taken && here.makesParent;
            && (p in r.conflicts <==> safe && taken && here.compares && At(dst, p) != Some(src[p]))
            && ((p, UnsafePath) in r.failed <==> !safe)
            && ((p, CompareFailed) in r.failed <==> safe && taken && !here.compares)
            && ((p, MkdirFailed) in r.failed <==> safe && !taken && !here.makesParent)
            && ((p, RenameFailed) in r.failed <==> moves && here.rename == Refused)
            && ((p, CopyFailed) in r.failed <==>
                  moves && here.rename.CrossDevice? && !here.rename.copy.Whole?)
            && ((p, RemoveFailed) in r.failed <==> moves && here.rename == CrossDevice(Whole(false)))
  {
    MoveAllReport(io, paths, src, dst);
    var r := MoveAll(io, paths, State(src, dst, EMPTY)).report;
    forall why ensures (p, why) in r.failed <==> FailureOf(StepAt(io, src, dst, p)) == Some(why) {
      assert (p, why).0 == p;
    }
  }

  function Total(io: string -> Io, src: Files, paths: seq<string>): nat
    requires forall p :: p in paths ==> p in src
  {
    if paths == [] then 0 else SizeOf(io(paths[0]), src[paths[0]]) + Total(io, src, paths[1..])
  }

  /** The total is the sum of the sizes. */
  lemma {:induction false} TotalAdds(io: string -> Io, src: Files, a: seq<string>, b: seq<string>)
    requires forall p :: p in a + b ==> p in src
    ensures forall p :: p in a || p in b ==> p in src
    ensures Total(io, src, a + b) == Total(io, src, a) + Total(io, src, b)
    ensures forall p :: p in src ==> Total(io, src, [p]) == if io(p).sized then |src[p]| else 0
    decreases a
  {
    forall p | p in a || p in b ensures p in src { assert p in a + b; }
    if a == [] {
      Unit(b);
    } else {
      HeadTail(a, b);
      TotalAdds(io, src, a[1..], b);
    }
  }

  /** The bytes of the files that no conflict and no failure kept back. */
  function BytesMoved(io: string -> Io, src: Files, dst: Files, paths: seq<string>): nat
    requires forall p :: p in paths ==> p in src
  {
    if paths == [] then 0
    else
      var p := paths[|paths| - 1];
      var step := StepAt(io, src, dst, p);
      BytesMoved(io, src, dst, paths[..|paths| - 1]) +
      if step == Conflict || FailureOf(step).Some? then 0 else SizeOf(io(p), src[p])
  }

  lemma TallyBytes(r: Report, p: string, size: nat, step: Step)
    ensures Tally(r, p, size, step).bytes ==
              r.bytes + (if step == Conflict || FailureOf(step).Some? then 0 else size)
  {
  }

  lemma {:induction false} BytesReported(io: string -> Io, paths: seq<string>, src: Files, dst: Files)
    requires NoRepeats(paths) && forall q :: q in paths ==> q in src
    ensures MoveAll(io, paths, State(src, dst, EMPTY)).report.bytes == BytesMoved(io, src, dst, paths)
  {
    if paths != [] {
      var n := |paths| - 1;
      assert paths == paths[..n] + [paths[n]];
      BytesReported(io, paths[..n], src, dst);
      MoveAllAt(io, paths[..n], State(src, dst, EMPTY), paths[n]);
      var before := MoveAll(io, paths[..n], State(src, dst, EMPTY));
      TallyBytes(before.report, paths[n], SizeOf(io(paths[n]), src[paths[n]]), StepAt(io, src, dst, paths[n]));
    }
  }

  lemma {:induction false} AllMovedBytes(io: string -> Io, paths: seq<string>, src: Files, dst: Files)
    requires forall q :: q in paths ==> q in src
    requires forall q :: q in paths ==>
               var step := StepAt(io, src, dst, q); step != Conflict && FailureOf(step) == None
    ensures BytesMoved(io, src, dst, paths) == Total(io, src, paths)
  {
    if paths != [] {
      var n := |paths| - 1;
      assert paths == paths[..n] + [paths[n]];
      AllMovedBytes(io, paths[..n], src, dst);
      TotalAdds(io, src, paths[..n], [paths[n]]);
    }
  }

  /** A report without conflict or failure counts every byte of the files it visited, as many
      as the check of the free space asked for. */
  lemma SilentBytes(io: string -> Io, paths: seq<string>, src: Files, dst: Files)
    requires Found(src, paths)
    requires var r := RunTo(io, paths, |paths|, src, dst).report; r.conflicts == [] && r.failed == []
    ensures RunTo(io, paths, |paths|, src, dst).report.bytes == Total(io, src, paths)
  {
    assert paths[..|paths|] == paths;
    AscendingNoRepeats(paths);
    MoveAllReport(io, paths, src, dst);
    BytesReported(io, paths, src, dst);
    var r := MoveAll(io, paths, State(src, dst, EMPTY)).report;
    forall q | q in paths
      ensures var step := StepAt(io, src, dst, q); step != Conflict && FailureOf(step) == None
    {
      assert q !in r.conflicts;
      forall why ensures FailureOf(StepAt(io, src, dst, q)) != Some(why) { assert (q, why) !in r.failed; }
    }
    AllMovedBytes(io, paths, src, dst);
  }

  /** No conflict, no failure, not cancelled. */
  predicate Silent(r: Report) {
    r.conflicts == [] && r.failed == [] && !r.cancelled
  }

  /** Every visible source file is at the destination with its content. */
  ghost predicate AllThere(src: Files, dst': Files) {
    forall p :: p in src && Visible(p) ==> At(dst', p) == Some(src[p])
  }

  /** Under a silent report every file the walk found has arrived. */
  lemma SilentAt(io: string -> Io, paths: seq<string>, src: Files, dst: Files, p: string)
    requires Found(src, paths) && p in paths && Silent(RunTo(io, paths, |paths|, src, dst).report)
    ensures At(RunTo(io, paths, |paths|, src, dst).dst, p) == Some(src[p])
  {
    assert paths[..|paths|] == paths;
    AscendingNoRepeats(paths);
    MoveAllReport(io, paths, src, dst);
    var r := RunTo(io, paths, |paths|, src, dst).report;
    RunAt(io, paths, |paths|, src, dst, p);
    var step := StepAt(io, src, dst, p);
    assert p !in r.conflicts;
    forall why ensures FailureOf(step) != Some(why) { assert (p, why) !in r.failed; }
  }

  /** A silent report is true, if and only if every visible file was found by the walk or
      is at the destination already. */
  lemma SilentReportExactly(io: string -> Io, paths: seq<string>, src: Files, dst: Files)
    requires Found(src, paths) && Silent(RunTo(io, paths, |paths|, src, dst).report)
    ensures RunTo(io, paths, |paths|, src, dst).report.moved == |paths|
    ensures AllThere(src, RunTo(io, paths, |paths|, src, dst).dst) <==>
            forall p :: p in src && Visible(p) ==> p in paths || At(dst, p) == Some(src[p])
  {
    assert paths[..|paths|] == paths;
    AscendingNoRepeats(paths);
    MoveAllReport(io, paths, src, dst);
    var dst' := RunTo(io, paths, |paths|, src, dst).dst;
    forall p | p in src && Visible(p)
      ensures At(dst', p) == Some(src[p]) <==> p in paths || At(dst, p) == Some(src[p])
    {
      if p in paths { SilentAt(io, paths, src, dst, p); } else { RunAt(io, paths, |paths|, src, dst, p); }
    }
  }

  /** It happens that it is not: the walk comes to "f" and then fails, "f" moves, the
      report says so and nothing else, and "z" stays behind. */
  lemma WalkCutShort(io: string -> Io)
    requires AllClean(io)
    ensures var src: Files := map["f" := [7], "z" := [8]];
            var s := RunTo(io, ["f"], 1, src, map[]);
            && Walks(src, Walk(["f"], true)) && Collected(Walk(["f"], true), ["f"])
            && Silent(s.report) && s.report.moved == 1
            && "z" in s.src && "z" !in s.dst && !AllThere(src, s.dst)
  {
    var src: Files := map["f" := [7], "z" := [8]];
    FileMoves();
    assert Clean(io("f")) && Visible("z");
    OneFileRun(io, src, map[]);
    assert StepFor(io("f"), "f", src["f"], None) == Moved;
    var s := RunTo(io, ["f"], 1, src, map[]);
    assert "z" in src && At(s.dst, "z") == None;
  }

  // ---- The operations ----

  /** Takes down the visible files the walk comes to; its error is not passed on. */
  method CollectFiles(w: Walk) returns (paths: seq<string>)
    requires NoRepeats(w.entries)
    ensures Collected(w, paths)
  {
    var out: seq<string> := [];
    for i := 0 to |w.entries|
      invariant NoRepeats(out)
      invariant forall p :: p in out <==> p in w.entries[..i] && Visible(p)
    {
      assert w.entries[..i + 1] == w.entries[..i] + [w.entries[i]];
      if Visible(w.entries[i]) {
        assert w.entries[i] !in w.entries[..i];
        out := out + [w.entries[i]];
      }
    }
    assert w.entries[..|w.entries|] == w.entries;
    SortAscends(Self, out);
    paths := SortBy(Self, out);
  }

  /** Same length and same digest. */
  method FilesIdentical(sha: Content -> string, a: Content, b: Content) returns (same: bool)
    requires IsDigest(sha)
    ensures same <==> a == b
  {
    if |a| != |b| { return false; }
    same := sha(a) == sha(b);
  }

  /** Something stands at the destination: a twin makes the source superfluous, anything else is a conflict. */
  method MeetExisting(sha: Content -> string, io: Io, p: string, src: Files, there: Option<Content>, report: Report)
    returns (src': Files, report': Report)
    requires IsDigest(sha) && p in src && Destination(p).Some? && (there.Some? || io.directory)
    ensures var step := StepFor(io, p, src[p], there);
            && src' == With(src, p, SourceAfter(step, src[p]))
            && report' == Tally(report, p, SizeOf(io, src[p]), step)
    ensures DestAfter(StepFor(io, p, src[p], there), src[p], there) == there
  {
    src', report' := src, report;
    assert src[p := src[p]] == src;
    if !io.compares {
      report' := report.(failed := report.failed + [(p, CompareFailed)]);
      return;
    }
    var same := false;
    if there.Some? { same := FilesIdentical(sha, src[p], there.value); }
    if same {
      if io.removes { src' := src - {p}; }
      report' := report.(moved := report.moved + 1, bytes := report.bytes + SizeOf(io, src[p]));
    } else {
      report' := report.(conflicts := report.conflicts + [p]);
    }
  }

  method MoveFile(sha: Content -> string, io: string -> Io, p: string, src: Files, dst: Files, report: Report)
    returns (src': Files, dst': Files, report': Report)
    requires IsDigest(sha) && p in src && OsPath(p)
    ensures State(src', dst', report') == MoveOne(io, p, State(src, dst, report))
  {
    src', dst', report' := src, dst, report;
    var c, here := src[p], io(p);
    var dest := Destination(p);
    OsPathDestination(p);
    if dest.None? {
      report' := report.(failed := report.failed + [(p, UnsafePath)]);
      return;
    }
    if dest.value in dst || here.directory {
      src', report' := MeetExisting(sha, here, p, src, At(dst, dest.value), report);
      return;
    }
    if !here.makesParent {
      report' := report.(failed := report.failed + [(p, MkdirFailed)]);
      return;
    }
    var failure: Option<Failure>;
    src', dst', failure := Relocate(here.rename, p, dest.value, src, dst);
    report' := if failure.None? then report.(moved := report.moved + 1, bytes := report.bytes + SizeOf(here, c))
               else report.(failed := report.failed + [(p, failure.value)]);
  }

  /** Rename, or copy and remove across devices. */
  method Relocate(rename: Rename, p: string, dest: string, src: Files, dst: Files)
    returns (src': Files, dst': Files, failure: Option<Failure>)
    requires p in src
    ensures match rename
            case Renamed => src' == src - {p} && dst' == dst[dest := src[p]] && failure == None
            case Refused => src' == src && dst' == dst && failure == Some(RenameFailed)
            case CrossDevice(Unopened) => src' == src && dst' == dst && failure == Some(CopyFailed)
            case CrossDevice(Cut(at)) =>
              && src' == src && failure == Some(CopyFailed)
              && dst' == dst[dest := if at < |src[p]| then src[p][..at] else src[p]]
            case CrossDevice(Whole(removed)) =>
              && dst' == dst[dest := src[p]]
              && (if removed then src' == src - {p} && failure == None
                  else src' == src && failure == Some(RemoveFailed))
  {
    src', dst', failure := src, dst, None;
    match rename
    case Renamed => src', dst' := src - {p}, dst[dest := src[p]];
    case Refused => failure := Some(RenameFailed);
    case CrossDevice(Unopened) => failure := Some(CopyFailed);
    case CrossDevice(Cut(at)) =>
      dst' := dst[dest := if at < |src[p]| then src[p][..at] else src[p]];
      failure := Some(CopyFailed);
    case CrossDevice(Whole(removed)) =>
      dst' := dst[dest := src[p]];
      if removed { src' := src - {p}; } else { failure := Some(RemoveFailed); }
  }

  /** The answer before any file moves, if there is one. */
  function Early(roots: Roots, need: nat): Option<Outcome> {
    if roots.same || !roots.sourceExists then Some(Done(EMPTY))
    else if roots.nested then Some(Refusing(Nested))
    else if !roots.destMade then Some(Refusing(NoDestination))
    else if roots.room.Some? && roots.room.value < need then Some(Refusing(NoSpace(need, roots.room.value)))
    else None
  }

  /** The first poll that says cancelled, or the end. */
  ghost predicate StopsAt(cancelled: nat -> bool, n: nat, k: nat) {
    k <= n && (forall i: nat :: i < k ==> !cancelled(i)) && (k < n ==> cancelled(k))
  }

  ghost function FirstStop(cancelled: nat -> bool, i: nat, n: nat): (k: nat)
    requires i <= n && forall j: nat :: j < i ==> !cancelled(j)
    ensures StopsAt(cancelled, n, k)
    decreases n - i
  {
    if i == n || cancelled(i) then i else FirstStop(cancelled, i + 1, n)
  }

  /** The next path is still in the source, and moving it extends the run. */
  lemma Visit(io: string -> Io, paths: seq<string>, i: nat, src: Files, dst: Files)
    requires Found(src, paths) && i < |paths|
    ensures var s := MoveAll(io, paths[..i], State(src, dst, EMPTY));
            && paths[i] in src && paths[i] in s.src
            && MoveAll(io, paths[..i + 1], State(src, dst, EMPTY)) == MoveOne(io, paths[i], s)
  {
    AscendingNoRepeats(paths);
    assert paths[i] in paths && paths[..i + 1][..i] == paths[..i];
    assert forall q :: q in paths[..i] ==> q in paths;
    MoveAllAt(io, paths[..i], State(src, dst, EMPTY), paths[i]);
  }

  /** How a migration ends: early, with nothing moved, or as a run over the sorted visible
      files its walk found that stops at the first cancelled poll. */
  ghost predicate Migrated(roots: Roots, io: string -> Io, w: Walk, cancelled: nat -> bool, src: Files, dst: Files,
                           paths: seq<string>, k: nat, out: Outcome, src': Files, dst': Files) {
    && Collected(w, paths) && Found(src, paths) && StopsAt(cancelled, |paths|, k)
    && match Early(roots, Total(io, src, paths))
       case Some(early) => out == early && src' == src && dst' == dst
       case None => out.Done? && State(src', dst', out.report) == RunTo(io, paths, k, src, dst)
  }

  /** The loop over the collected files, and the sweep behind a complete one. */
  method MoveFiles(sha: Content -> string, io: string -> Io, cancelled: nat -> bool, files: seq<string>, src: Files,
                   dst: Files, ghost k: nat)
    returns (src': Files, dst': Files, report: Report)
    requires IsDigest(sha) && OsFiles(src) && Found(src, files) && StopsAt(cancelled, |files|, k)
    ensures State(src', dst', report) == RunTo(io, files, k, src, dst)
  {
    src', dst', report := src, dst, EMPTY;
    var i := 0;
    while i < |files| && !report.cancelled
      invariant i <= k
      invariant State(src', dst', report.(cancelled := false)) == MoveAll(io, files[..i], State(src, dst, EMPTY))
      invariant report.cancelled ==> i == k < |files|
      decreases |files| - i, !report.cancelled
    {
      if cancelled(i) {
        report := report.(cancelled := true);
      } else {
        Visit(io, files, i, src, dst);
        src', dst', report := MoveFile(sha, io, files[i], src', dst', report);
        i := i + 1;
      }
    }
    if !report.cancelled { src' := Swept(io, src'); }
  }

  /** Moves the files its walk finds until a poll says cancelled; nothing moves when it answers early. */
  method MigrateDir(sha: Content -> string, roots: Roots, io: string -> Io, w: Walk, cancelled: nat -> bool,
                    src: Files, dst: Files)
    returns (out: Outcome, src': Files, dst': Files)
    requires IsDigest(sha) && OsFiles(src) && Walks(src, w)
    ensures exists paths, k :: Migrated(roots, io, w, cancelled, src, dst, paths, k, out, src', dst')
  {
    src', dst' := src, dst;
    var files := CollectFiles(w);
    CollectedIsFound(src, w, files);
    ghost var k := FirstStop(cancelled, 0, |files|);
    if roots.same || !roots.sourceExists {
      out := Done(EMPTY);
      assert Migrated(roots, io, w, cancelled, src, dst, files, k, out, src', dst');
      return;
    }
    if roots.nested || !roots.destMade {
      out := Refusing(if roots.nested then Nested else NoDestination);
      assert Migrated(roots, io, w, cancelled, src, dst, files, k, out, src', dst');
      return;
    }
    if roots.room.Some? {
      var need := Total(io, src, files);
      if roots.room.value < need {
        out := Refusing(NoSpace(need, roots.room.value));
        assert Migrated(roots, io, w, cancelled, src, dst, files, k, out, src', dst');
        return;
      }
    }
    var report;
    src', dst', report := MoveFiles(sha, io, cancelled, files, src, dst, k);
    out := Done(report);
    assert Migrated(roots, io, w, cancelled, src, dst, files, k, out, src', dst');
  }

  /** There is one answer: the walk and the polls determine the sorted files and the stopping point. */
  lemma MigratedOnce(roots: Roots, io: string -> Io, w: Walk, cancelled: nat -> bool, src: Files, dst: Files,
                     p: seq<string>, k: nat, q: seq<string>, l: nat, a: Outcome, srcA: Files, dstA: Files,
                     b: Outcome, srcB: Files, dstB: Files)
    requires Migrated(roots, io, w, cancelled, src, dst, p, k, a, srcA, dstA)
    requires Migrated(roots, io, w, cancelled, src, dst, q, l, b, srcB, dstB)
    ensures a == b && srcA == srcB && dstA == dstB
  {
    AscendingUnique(Self, p, q);
    assert k == l;
  }

  /** When a migration refuses, and why: for want of space if and only if the volumes differ,
      the free space is known and the sizes of the files found add up to more. */
  lemma RefusedExactly(roots: Roots, io: string -> Io, w: Walk, cancelled: nat -> bool, src: Files, dst: Files,
                       paths: seq<string>, k: nat, out: Outcome, src': Files, dst': Files, free: nat)
    requires Migrated(roots, io, w, cancelled, src, dst, paths, k, out, src', dst')
    ensures var due, need := !roots.same && roots.sourceExists, Total(io, src, paths);
            && (out == Refusing(Nested) <==> due && roots.nested)
            && (out == Refusing(NoDestination) <==> due && !roots.nested && !roots.destMade)
            && (out == Refusing(NoSpace(need, free)) <==>
                  due && !roots.nested && roots.destMade && roots.room == Some(free) && free < need)
            && (out.Refusing? && out.why.NoSpace? ==> out.why.need == need && roots.room == Some(out.why.free))
            && (!due ==> out == Done(Report(0, 0, [], [], false)) && src' == src && dst' == dst)
  {
  }

  /** An answer early or in the end, a migration conserves both sides. */
  lemma MigratedConserves(roots: Roots, io: string -> Io, w: Walk, cancelled: nat -> bool, src: Files, dst: Files,
                          paths: seq<string>, k: nat, out: Outcome, src': Files, dst': Files)
    requires Migrated(roots, io, w, cancelled, src, dst, paths, k, out, src', dst')
    ensures Conserves(src, dst, src', dst')
    ensures out.Refusing? ==> src' == src && dst' == dst
  {
    if Early(roots, Total(io, src, paths)).None? {
      RunConserves(io, paths, k, src, dst);
    } else {
      assert forall p :: ConservesAt(p, src, dst, src, dst);
    }
  }

  /** The file came up in a migration that went on to move files. */
  predicate Reached(roots: Roots, need: nat, paths: seq<string>, p: string) {
    Early(roots, need).None? && p in paths
  }

  /** A migration that answers with a silent report has brought everything over, if and only
      if it reached every visible file or had it at the destination already. */
  lemma SilentMigrationExactly(roots: Roots, io: string -> Io, w: Walk, cancelled: nat -> bool, src: Files, dst: Files,
                               paths: seq<string>, k: nat, out: Outcome, src': Files, dst': Files)
    requires Migrated(roots, io, w, cancelled, src, dst, paths, k, out, src', dst')
    requires out.Done? && Silent(out.report)
    ensures var need := Total(io, src, paths);
            AllThere(src, dst') <==>
            forall p :: p in src && Visible(p) ==> Reached(roots, need, paths, p) || At(dst, p) == Some(src[p])
  {
    if Early(roots, Total(io, src, paths)).None? {
      assert k == |paths|;
      SilentReportExactly(io, paths, src, dst);
    }
  }

  /** In particular when the walk did not fail and the roots differ. */
  lemma SoundWalkSilentIsTrue(roots: Roots, io: string -> Io, w: Walk, cancelled: nat -> bool, src: Files, dst: Files,
                              paths: seq<string>, k: nat, out: Outcome, src': Files, dst': Files)
    requires Walks(src, w) && !w.failed && !roots.same && roots.sourceExists
    requires Migrated(roots, io, w, cancelled, src, dst, paths, k, out, src', dst')
    requires out.Done? && Silent(out.report)
    ensures AllThere(src, dst')
  {
    CollectedIsFound(src, w, paths);
    SilentMigrationExactly(roots, io, w, cancelled, src, dst, paths, k, out, src', dst');
  }
}
