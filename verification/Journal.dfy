/** The application journal: an in-memory tail, a current file whose last line is
    rewritten when it repeats, and numbered older files. */
module Journal {
  import opened Prelude
  import opened JournalText
  import opened Coalescing
  import opened Subsequences

  const MAX_TAIL: nat := 400
  const DRAIN: nat := 50
  const NEWLINE: Byte := 10

  // ---- The tail ----

  predicate Contains(s: Text, part: Text) {
    exists i :: 0 <= i <= |s| && part <= s[i..]
  }

  const WARN_TAG: Text := [32, 87, 65, 82, 78, 32]
  const ERROR_TAG: Text := [32, 69, 82, 82, 79, 82, 32]

  predicate IsError(e: Text) { Contains(e, ERROR_TAG) }

  /** A line counts as an error if and only if " ERROR " stands somewhere in it, and as a
      warning if " WARN " does. */
  lemma TagsExactly(e: Text)
    ensures IsError(e) <==> exists a: Text, b: Text :: e == a + [32, 69, 82, 82, 79, 82, 32] + b
    ensures IsWarnOrError(e) <==> IsError(e) || exists a: Text, b: Text :: e == a + [32, 87, 65, 82, 78, 32] + b
  {
    ContainsExactly(e, ERROR_TAG);
    ContainsExactly(e, WARN_TAG);
  }

  lemma ContainsExactly(s: Text, part: Text)
    ensures Contains(s, part) <==> exists a: Text, b: Text :: s == a + part + b
  {
    if i :| 0 <= i <= |s| && part <= s[i..] {
      assert s == s[..i] + part + s[i..][|part|..];
    }
    if a: Text, b: Text :| s == a + part + b {
      assert s[|a|..] == part + b;
    }
  }

  predicate IsWarnOrError(e: Text) { Contains(e, WARN_TAG) || Contains(e, ERROR_TAG) }

  /** Drops the first `n` lines that are not kept. */
  function DropFirst(tail: seq<Text>, n: nat, keep: Text -> bool): seq<Text> {
    if tail == [] || n == 0 then tail
    else if keep(tail[0]) then [tail[0]] + DropFirst(tail[1..], n, keep)
    else DropFirst(tail[1..], n - 1, keep)
  }

  /** Room for one more line: informational lines go first, then warnings, then anything. */
  function Drained(tail: seq<Text>): seq<Text> {
    if |tail| < MAX_TAIL then tail
    else
      var noInfo := DropFirst(tail, DRAIN, IsWarnOrError);
      var noWarn := if |noInfo| >= MAX_TAIL then DropFirst(noInfo, DRAIN, IsError) else noInfo;
      if |noWarn| >= MAX_TAIL then noWarn[DRAIN..] else noWarn
  }

  /** Dropping shortens, unless everything is kept. */
  lemma {:induction false} DropFirstEffect(tail: seq<Text>, n: nat, keep: Text -> bool)
    requires n > 0
    ensures |DropFirst(tail, n, keep)| <= |tail|
    ensures |DropFirst(tail, n, keep)| == |tail| <==> (forall i :: 0 <= i < |tail| ==> keep(tail[i]))
    ensures |DropFirst(tail, n, keep)| == |tail| ==> DropFirst(tail, n, keep) == tail
    ensures forall e :: keep(e) ==> multiset(DropFirst(tail, n, keep))[e] == multiset(tail)[e]
  {
    if tail != [] {
      assert tail == [tail[0]] + tail[1..];
      if keep(tail[0]) {
        DropFirstEffect(tail[1..], n, keep);
      } else if n > 1 {
        DropFirstEffect(tail[1..], n - 1, keep);
      }
    }
  }

  /** The tail stays within its limit; a warning leaves it only when no informational line
      is left, and an error line only when all of its lines are errors. */
  lemma ErrorsOutlastNoise(tail: seq<Text>)
    requires |tail| <= MAX_TAIL
    ensures |Drained(tail)| < MAX_TAIL
    ensures (exists i :: 0 <= i < |tail| && !IsWarnOrError(tail[i])) ==>
              forall e :: IsWarnOrError(e) ==> multiset(Drained(tail))[e] == multiset(tail)[e]
    ensures (exists i :: 0 <= i < |tail| && !IsError(tail[i])) ==>
              forall e :: IsError(e) ==> multiset(Drained(tail))[e] == multiset(tail)[e]
  {
    if |tail| == MAX_TAIL {
      DropFirstEffect(tail, DRAIN, IsWarnOrError);
      var noInfo := DropFirst(tail, DRAIN, IsWarnOrError);
      DropFirstEffect(noInfo, DRAIN, IsError);
    }
  }

  /** The lines that are kept. */
  function Kept(tail: seq<Text>, keep: Text -> bool): (r: seq<Text>)
    ensures forall e :: e in r ==> e in tail && keep(e)
  {
    if tail == [] then [] else KeptHead(tail, keep) + Kept(tail[1..], keep)
  }

  function KeptHead(tail: seq<Text>, keep: Text -> bool): (r: seq<Text>)
    requires tail != []
    ensures |r| == if keep(tail[0]) then 1 else 0
  {
    if keep(tail[0]) then [tail[0]] else []
  }

  lemma DropFirstHead(tail: seq<Text>, n: nat, keep: Text -> bool)
    requires tail != [] && n > 0
    ensures var m := if keep(tail[0]) then n else n - 1;
            DropFirst(tail, n, keep) == KeptHead(tail, keep) + DropFirst(tail[1..], m, keep)
  {
    Unit(DropFirst(tail[1..], n - 1, keep));
  }

  lemma KeptFirst(tail: seq<Text>, d: nat, keep: Text -> bool)
    requires d < |tail|
    ensures Kept(tail[..d + 1], keep) == KeptHead(tail, keep) + Kept(tail[1..][..d], keep)
    ensures tail[d + 1..] == tail[1..][d..]
  {
    assert tail[..d + 1][1..] == tail[1..][..d];
  }

  /** What is dropped is the oldest: of the first `c` lines those not kept, at most `n` of
      them, and fewer only when there are no more. */
  lemma {:induction false} DropFirstExactly(tail: seq<Text>, n: nat, keep: Text -> bool) returns (c: nat)
    ensures c <= |tail| && DropFirst(tail, n, keep) == Kept(tail[..c], keep) + tail[c..]
    ensures |DropFirst(tail, n, keep)| >= |tail| - n
    ensures c == |tail| || |DropFirst(tail, n, keep)| == |tail| - n
  {
    if tail == [] || n == 0 {
      c := 0;
    } else {
      var m := if keep(tail[0]) then n else n - 1;
      var d := DropFirstExactly(tail[1..], m, keep);
      c := d + 1;
      KeptFirst(tail, d, keep);
      DropFirstHead(tail, n, keep);
      Grouping(KeptHead(tail, keep), Kept(tail[1..][..d], keep), tail[1..][d..]);
    }
  }

  predicate AllKept(tail: seq<Text>, keep: Text -> bool) {
    forall i :: 0 <= i < |tail| ==> keep(tail[i])
  }

  lemma DropOne(tail: seq<Text>, keep: Text -> bool) returns (c: nat)
    ensures c <= |tail| && |DropFirst(tail, DRAIN, keep)| >= |tail| - 50
    ensures AllKept(tail, keep) ==> DropFirst(tail, DRAIN, keep) == tail
    ensures !AllKept(tail, keep) ==> && |DropFirst(tail, DRAIN, keep)| < |tail|
                                     && (c == |tail| || |DropFirst(tail, DRAIN, keep)| == |tail| - 50)
                                     && DropFirst(tail, DRAIN, keep) == Kept(tail[..c], keep) + tail[c..]
  {
    DropFirstEffect(tail, DRAIN, keep);
    c := DropFirstExactly(tail, DRAIN, keep);
  }

  /** What draining a tail of at most 400 lines takes: nothing below that; otherwise the 50
      oldest of the least important kind of line there is, or all of that kind if fewer. */
  lemma DrainedExactly(tail: seq<Text>) returns (c: nat)
    requires |tail| <= 400
    ensures c <= |tail| && |Drained(tail)| >= |tail| - 50
    ensures |tail| < 400 ==> Drained(tail) == tail
    ensures |tail| == 400 ==>
              var noise, warns := !AllKept(tail, IsWarnOrError), !AllKept(tail, IsError);
              && (noise || warns ==> c == |tail| || |Drained(tail)| == |tail| - 50)
              && (noise ==> Drained(tail) == Kept(tail[..c], IsWarnOrError) + tail[c..])
              && (!noise && warns ==> Drained(tail) == Kept(tail[..c], IsError) + tail[c..])
              && (!noise && !warns ==> Drained(tail) == tail[50..])
  {
    c := DropOne(tail, IsWarnOrError);
    if AllKept(tail, IsWarnOrError) { c := DropOne(tail, IsError); }
  }

  lemma {:induction false} DropFirstIsPart(tail: seq<Text>, n: nat, keep: Text -> bool)
    ensures Subsequence(DropFirst(tail, n, keep), tail)
  {
    if tail == [] || n == 0 {
      SubsequenceSelf(tail);
    } else if keep(tail[0]) {
      DropFirstIsPart(tail[1..], n, keep);
      var rest := DropFirst(tail[1..], n, keep);
      assert ([tail[0]] + rest)[1..] == rest;
    } else {
      DropFirstIsPart(tail[1..], n - 1, keep);
    }
  }

  /** Draining leaves lines out and changes nothing else. */
  lemma DrainedIsPart(tail: seq<Text>)
    ensures Subsequence(Drained(tail), tail)
  {
    SubsequenceSelf(tail);
    if |tail| >= MAX_TAIL {
      var noInfo := DropFirst(tail, DRAIN, IsWarnOrError);
      DropFirstIsPart(tail, DRAIN, IsWarnOrError);
      var noWarn := if |noInfo| >= MAX_TAIL then DropFirst(noInfo, DRAIN, IsError) else noInfo;
      DropFirstIsPart(noInfo, DRAIN, IsError);
      SubsequenceSelf(noInfo);
      SubsequenceTransitive(noWarn, noInfo, tail);
      if |noWarn| >= MAX_TAIL {
        SuffixIsSubsequence(noWarn, DRAIN);
        SubsequenceTransitive(noWarn[DRAIN..], noWarn, tail);
      }
    }
  }

  /** The tail holds lines of the log, in order and ending in its last line, and all of them
      up to 400. */
  ghost predicate TailOf(tail: seq<Text>, log: seq<Text>) {
    && (log == [] <==> tail == [])
    && (|log| <= 400 ==> tail == log)
    && (log != [] ==> && tail[|tail| - 1] == log[|log| - 1]
                      && Subsequence(tail[..|tail| - 1], log[..|log| - 1]))
  }

  lemma TailIsPart(tail: seq<Text>, log: seq<Text>)
    requires TailOf(tail, log)
    ensures Subsequence(tail, log)
  {
    if log != [] {
      SplitLast(tail);
      SplitLast(log);
      SubsequenceSnoc(tail[..|tail| - 1], log[..|log| - 1], log[|log| - 1]);
    }
  }

  lemma TailPushed(tail: seq<Text>, log: seq<Text>, line: Text)
    requires TailOf(tail, log)
    ensures TailOf(Drained(tail) + [line], log + [line])
  {
    TailIsPart(tail, log);
    DrainedIsPart(tail);
    SubsequenceTransitive(Drained(tail), tail, log);
    Snoc(Drained(tail), line);
    Snoc(log, line);
  }

  lemma Snoc(s: seq<Text>, line: Text)
    ensures (s + [line])[..|s + [line]| - 1] == s && (s + [line])[|s + [line]| - 1] == line
  {
  }

  lemma TailReplaced(tail: seq<Text>, log: seq<Text>, line: Text)
    requires TailOf(tail, log) && log != []
    ensures TailOf(tail[|tail| - 1 := line], WithLast(log, line))
  {
    Snoc(log[..|log| - 1], line);
    assert tail[|tail| - 1 := line][..|tail| - 1] == tail[..|tail| - 1];
  }

  // ---- Files as records ----

  function Lines(records: seq<Text>): (r: Text)
    ensures records == [] ==> r == []
  {
    if records == [] then [] else Lines(records[..|records| - 1]) + records[|records| - 1] + [NEWLINE]
  }

  lemma LinesSnoc(records: seq<Text>, line: Text)
    ensures Lines(records + [line]) == Lines(records) + line + [NEWLINE]
  {
    LastApart(records, line);
  }

  lemma {:induction false} LinesConcat(a: seq<Text>, b: seq<Text>)
    ensures Lines(a + b) == Lines(a) + Lines(b)
  {
    if b == [] {
      Unit(a);
      Unit(Lines(a));
    } else {
      var n := |b| - 1;
      var kept, last := b[..n], b[n];
      SplitLast(b);
      LinesConcat(a, kept);
      Grouping(a, kept, [last]);
      LinesSnoc(a + kept, last);
      LinesSnoc(kept, last);
      Grouping(Lines(a), Lines(kept) + last, [NEWLINE]);
      Grouping(Lines(a), Lines(kept), last);
    }
  }

  /** Records of all files, oldest first; `segs[0]` is the current file, `segs[i]` the file numbered `i`. */
  function Held(segs: seq<seq<Text>>): seq<Text> {
    if segs == [] then [] else Held(segs[1..]) + segs[0]
  }

  predicate EndsWith(log: seq<Text>, part: seq<Text>) {
    |part| <= |log| && log[|log| - |part|..] == part
  }

  lemma EndsWithRest(lost: seq<Text>, part: seq<Text>)
    ensures EndsWith(lost + part, part)
  {
  }

  lemma {:induction false} HeldConcat(newer: seq<seq<Text>>, older: seq<seq<Text>>)
    ensures Held(newer + older) == Held(older) + Held(newer)
    decreases newer
  {
    if newer == [] {
      Unit(older);
      Unit(Held(older));
    } else {
      HeldConcat(newer[1..], older);
      HeadTail(newer, older);
      Grouping(Held(older), Held(newer[1..]), newer[0]);
    }
  }

  lemma HeldLast(segs: seq<seq<Text>>, line: Text)
    requires segs != []
    ensures Held(segs[0 := segs[0] + [line]]) == Held(segs) + [line]
  {
    assert segs[0 := segs[0] + [line]][1..] == segs[1..];
  }

  /** The segments after a rotation: an empty current file, the others one number up, the oldest dropped. */
  function RotatedSegs(segs: seq<seq<Text>>, maxFiles: nat): (r: seq<seq<Text>>)
    requires maxFiles >= 1
    ensures 1 <= |r| <= maxFiles
  {
    var shifted := [[]] + segs;
    if |shifted| <= maxFiles then shifted else shifted[..maxFiles]
  }

  /** The records that a rotation drops: none while there is room for one more file. */
  function Dropped(segs: seq<seq<Text>>, maxFiles: nat): (r: seq<Text>)
    requires maxFiles >= 1
  {
    if |segs| < maxFiles then [] else Held(segs[maxFiles - 1..])
  }

  /** A rotation drops the oldest records only, and keeps every other in its place. */
  lemma RotationKeepsSuffix(segs: seq<seq<Text>>, maxFiles: nat)
    requires maxFiles >= 1
    ensures Held(segs) == Dropped(segs, maxFiles) + Held(RotatedSegs(segs, maxFiles))
    ensures Dropped(segs, maxFiles) == [] || |RotatedSegs(segs, maxFiles)| == maxFiles
  {
    var shifted := [[]] + segs;
    assert shifted[1..] == segs;
    Unit(Held(segs));
    if |shifted| > maxFiles {
      HeldConcat(shifted[..maxFiles], shifted[maxFiles..]);
      assert shifted == shifted[..maxFiles] + shifted[maxFiles..];
      assert shifted[maxFiles..] == segs[maxFiles - 1..];
    }
  }

  /** The bytes of every file: the lines of its records. */
  function FilesOf(segs: seq<seq<Text>>): map<nat, Text> {
    map i: nat | i < |segs| :: Lines(segs[i])
  }

  /** Every file one number up, a new empty current file, nothing at or past the limit. */
  function Shifted(files: map<nat, Text>, maxFiles: nat): map<nat, Text> {
    map j: nat | j < maxFiles && HasSource(files, j) :: if j == 0 then [] else files[j - 1]
  }

  predicate HasSource(files: map<nat, Text>, j: nat) {
    j == 0 || j - 1 in files
  }

  /** The files above `i` have moved one number up, the others have not, and number `i + 1` is vacant. */
  ghost predicate ShiftedAbove(files: map<nat, Text>, r: map<nat, Text>, i: nat, maxFiles: nat) {
    && (forall j: nat :: j in r <==> j < maxFiles && j != i + 1 && Origin(i, j) in files)
    && (forall j: nat :: j in r ==> r[j] == files[Origin(i, j)])
  }

  function Origin(i: nat, j: nat): nat {
    if j <= i then j else j - 1
  }

  /** The renames of a rotation, oldest file first. */
  method ShiftFiles(files: map<nat, Text>, maxFiles: nat) returns (r: map<nat, Text>)
    requires maxFiles >= 1 && forall i :: i in files ==> i < maxFiles
    ensures r == Shifted(files, maxFiles)
  {
    if maxFiles == 1 {
      r := files - {0};
    } else {
      r := files - {maxFiles - 1};
      var i := maxFiles - 2;
      while i >= 1
        invariant 0 <= i <= maxFiles - 2
        invariant ShiftedAbove(files, r, i, maxFiles)
      {
        ShiftStep(files, r, i, maxFiles);
        if i in r { r := r[i + 1 := r[i]] - {i}; }
        i := i - 1;
      }
      ShiftEnd(files, r, maxFiles);
      if 0 in r { r := r[1 := r[0]] - {0}; }
    }
    r := r[0 := []];
  }

  function MovedUp(r: map<nat, Text>, i: nat): map<nat, Text> {
    if i in r then r[i + 1 := r[i]] - {i} else r
  }

  lemma ShiftStep(files: map<nat, Text>, r: map<nat, Text>, i: nat, maxFiles: nat)
    requires ShiftedAbove(files, r, i, maxFiles) && 1 <= i <= maxFiles - 2
    ensures ShiftedAbove(files, MovedUp(r, i), i - 1, maxFiles)
  {
  }

  lemma ShiftEnd(files: map<nat, Text>, r: map<nat, Text>, maxFiles: nat)
    requires ShiftedAbove(files, r, 0, maxFiles) && maxFiles >= 2
    ensures MovedUp(r, 0)[0 := []] == Shifted(files, maxFiles)
  {
    var end, want := MovedUp(r, 0)[0 := []], Shifted(files, maxFiles);
    assert forall j: nat :: j in end <==> j in want;
    assert forall j: nat :: j in end ==> end[j] == want[j];
  }

  lemma RotatedAt(segs: seq<seq<Text>>, maxFiles: nat, j: nat)
    requires maxFiles >= 1
    ensures var r := RotatedSegs(segs, maxFiles);
            && (j < |r| <==> j < maxFiles && (j == 0 || j - 1 < |segs|))
            && (j < |r| ==> r[j] == if j == 0 then [] else segs[j - 1])
  {
  }

  lemma ShiftedMember(files: map<nat, Text>, maxFiles: nat, j: nat)
    ensures j in Shifted(files, maxFiles) <==> j < maxFiles && HasSource(files, j)
    ensures j in Shifted(files, maxFiles) ==> Shifted(files, maxFiles)[j] == if j == 0 then [] else files[j - 1]
  {
  }

  lemma ShiftedAt(segs: seq<seq<Text>>, maxFiles: nat, j: nat)
    requires maxFiles >= 1
    ensures var r, want := Shifted(FilesOf(segs), maxFiles), FilesOf(RotatedSegs(segs, maxFiles));
            (j in r <==> j in want) && (j in r ==> r[j] == want[j])
  {
    RotatedAt(segs, maxFiles, j);
    ShiftedMember(FilesOf(segs), maxFiles, j);
  }

  lemma SameFiles(a: map<nat, Text>, b: map<nat, Text>)
    requires forall j: nat :: (j in a <==> j in b) && (j in a ==> a[j] == b[j])
    ensures a == b
  {
  }

  /** Moving the files moves their records. */
  lemma ShiftedOnDisk(segs: seq<seq<Text>>, maxFiles: nat)
    requires maxFiles >= 1
    ensures Shifted(FilesOf(segs), maxFiles) == FilesOf(RotatedSegs(segs, maxFiles))
  {
    var r, want := Shifted(FilesOf(segs), maxFiles), FilesOf(RotatedSegs(segs, maxFiles));
    forall j: nat ensures (j in r <==> j in want) && (j in r ==> r[j] == want[j]) {
      ShiftedAt(segs, maxFiles, j);
    }
    SameFiles(r, want);
  }

  /** The bytes of all lines but the last. */
  function BeforeLast(records: seq<Text>): nat
    requires records != []
  {
    |Lines(records[..|records| - 1])|
  }

  function LastOffset(records: seq<Text>): Option<nat> {
    if records == [] then None else Some(BeforeLast(records))
  }

  lemma RotatedThenLine(segs: seq<seq<Text>>, maxFiles: nat, entry: Text)
    requires maxFiles >= 1
    ensures var r := RotatedSegs(segs, maxFiles);
            r[0 := r[0] + [entry]] == [[entry]] + (if |segs| < maxFiles then segs else segs[..maxFiles - 1])
  {
    var rest := if |segs| < maxFiles then segs else segs[..maxFiles - 1];
    assert RotatedSegs(segs, maxFiles) == [[]] + rest;
    Unit([entry]);
  }

  /** One file written anew. */
  lemma OneFile(segs: seq<seq<Text>>, records: seq<Text>)
    requires segs != []
    ensures FilesOf(segs)[0 := Lines(records)] == FilesOf(segs[0 := records])
  {
  }

  /** A line written behind the records that stay in the current file. */
  lemma LineOnDisk(segs: seq<seq<Text>>, kept: seq<Text>, line: Text)
    requires segs != []
    ensures FilesOf(segs)[0 := Lines(kept) + (line + [NEWLINE])] == FilesOf(segs[0 := kept + [line]])
    ensures LastOffset(kept + [line]) == Some(|Lines(kept)|)
    ensures |Lines(kept + [line])| == |Lines(kept)| + |line + [NEWLINE]|
  {
    LinesSnoc(kept, line);
    LastApart(kept, line);
    Grouping(Lines(kept), line, [NEWLINE]);
    OneFile(segs, kept + [line]);
  }

  /** The last line starts below the limit. */
  predicate Below(offset: Option<nat>, limit: nat) {
    offset.Some? ==> offset.value < limit
  }

  /** Every one of the files holds at least `limit` bytes, and did not before its last line. */
  ghost predicate AllFull(segs: seq<seq<Text>>, limit: nat) {
    segs == [] || (|Lines(segs[0])| >= limit && Below(LastOffset(segs[0]), limit) && AllFull(segs[1..], limit))
  }

  lemma {:induction false} FullPrefix(segs: seq<seq<Text>>, limit: nat, m: nat)
    requires AllFull(segs, limit) && m <= |segs|
    ensures AllFull(segs[..m], limit)
  {
    if m > 0 {
      FullPrefix(segs[1..], limit, m - 1);
      assert segs[..m][1..] == segs[1..][..m - 1];
    }
  }

  lemma {:induction false} FullAt(segs: seq<seq<Text>>, limit: nat, i: nat)
    requires AllFull(segs, limit) && i < |segs|
    ensures |Lines(segs[i])| >= limit && Below(LastOffset(segs[i]), limit)
  {
    if i > 0 { FullAt(segs[1..], limit, i - 1); }
  }

  lemma FilesFilled(segs: seq<seq<Text>>, limit: nat)
    requires segs != [] && Below(LastOffset(segs[0]), limit) && AllFull(segs[1..], limit)
    ensures forall i :: 0 < i < |segs| ==> |Lines(segs[i])| >= limit
    ensures forall i :: 0 <= i < |segs| && segs[i] != [] ==> BeforeLast(segs[i]) < limit
  {
    forall i | 0 < i < |segs|
      ensures |Lines(segs[i])| >= limit && (segs[i] != [] ==> BeforeLast(segs[i]) < limit)
    {
      FullAt(segs[1..], limit, i - 1);
    }
  }

  /** Between one and `maxFiles` files, byte for byte their records, no file longer than its
      last line makes it, and every one behind the current one full. */
  ghost predicate DiskValid(files: map<nat, Text>, fileLen: nat, offset: Option<nat>, segs: seq<seq<Text>>,
                            maxFiles: nat, limit: nat) {
    && 1 <= |segs| <= maxFiles
    && files == FilesOf(segs)
    && fileLen == |Lines(segs[0])|
    && offset == LastOffset(segs[0]) && Below(offset, limit) && limit > 0
    && AllFull(segs[1..], limit)
  }

  /** The log is what has left the files and then what they hold; nothing leaves them
      unless all of them are there. */
  ghost predicate Retains(log: seq<Text>, lost: seq<Text>, segs: seq<seq<Text>>, maxFiles: nat) {
    log == lost + Held(segs) && (lost == [] || |segs| == maxFiles)
  }

  /** A rotation of a full current file. */
  lemma RotationKeeps(files: map<nat, Text>, fileLen: nat, offset: Option<nat>, segs: seq<seq<Text>>,
                      maxFiles: nat, limit: nat)
    requires DiskValid(files, fileLen, offset, segs, maxFiles, limit) && fileLen >= limit
    ensures DiskValid(Shifted(files, maxFiles), 0, None, RotatedSegs(segs, maxFiles), maxFiles, limit)
  {
    ShiftedOnDisk(segs, maxFiles);
    var shifted := [[]] + segs;
    assert shifted[1..] == segs;
    if |shifted| > maxFiles {
      FullPrefix(segs, limit, maxFiles - 1);
      assert shifted[..maxFiles][1..] == segs[..maxFiles - 1];
    }
  }

  lemma RotationRetains(log: seq<Text>, lost: seq<Text>, segs: seq<seq<Text>>, maxFiles: nat)
    requires maxFiles >= 1 && Retains(log, lost, segs, maxFiles) && |segs| <= maxFiles
    ensures Retains(log, lost + Dropped(segs, maxFiles), RotatedSegs(segs, maxFiles), maxFiles)
  {
    RotationKeepsSuffix(segs, maxFiles);
    Grouping(lost, Dropped(segs, maxFiles), Held(RotatedSegs(segs, maxFiles)));
    Unit(lost);
  }

  /** Writing a line behind the current file. */
  lemma WriteKeeps(files: map<nat, Text>, fileLen: nat, offset: Option<nat>, segs: seq<seq<Text>>,
                   maxFiles: nat, limit: nat, entry: Text)
    requires DiskValid(files, fileLen, offset, segs, maxFiles, limit) && fileLen < limit
    ensures 0 in files && fileLen == |files[0]| && files[0][..fileLen] == files[0]
    ensures DiskValid(files[0 := files[0] + (entry + [NEWLINE])], fileLen + |entry + [NEWLINE]|, Some(fileLen),
                      segs[0 := segs[0] + [entry]], maxFiles, limit)
  {
    LineOnDisk(segs, segs[0], entry);
    assert segs[0 := segs[0] + [entry]][1..] == segs[1..];
  }

  lemma WriteRetains(log: seq<Text>, lost: seq<Text>, segs: seq<seq<Text>>, maxFiles: nat, entry: Text)
    requires segs != [] && Retains(log, lost, segs, maxFiles)
    ensures Retains(log + [entry], lost, segs[0 := segs[0] + [entry]], maxFiles)
  {
    HeldLast(segs, entry);
    Grouping(lost, Held(segs), [entry]);
  }

  /** Truncating the current file at its last line and writing another. */
  lemma RewriteKeeps(files: map<nat, Text>, fileLen: nat, offset: Option<nat>, segs: seq<seq<Text>>,
                     maxFiles: nat, limit: nat, entry: Text)
    requires DiskValid(files, fileLen, offset, segs, maxFiles, limit) && segs[0] != []
    ensures 0 in files && offset.Some? && offset.value <= |files[0]|
    ensures DiskValid(files[0 := files[0][..offset.value] + (entry + [NEWLINE])],
                      offset.value + |entry + [NEWLINE]|, offset, Rewritten(segs, entry), maxFiles, limit)
  {
    var kept := segs[0][..|segs[0]| - 1];
    LineOnDisk(segs, kept, entry);
    TruncatedFile(segs[0], files[0], offset.value);
    assert Rewritten(segs, entry)[1..] == segs[1..];
  }

  lemma RewriteRetains(log: seq<Text>, lost: seq<Text>, segs: seq<seq<Text>>, maxFiles: nat, entry: Text)
    requires segs != [] && segs[0] != [] && Retains(log, lost, segs, maxFiles)
    ensures log != [] && Retains(WithLast(log, entry), lost, Rewritten(segs, entry), maxFiles)
  {
    var n := |segs[0]| - 1;
    var kept, last := segs[0][..n], segs[0][n];
    assert Rewritten(segs, entry)[1..] == segs[1..];
    SplitLast(segs[0]);
    Grouping(Held(segs[1..]), kept, [last]);
    Grouping(Held(segs[1..]), kept, [entry]);
    var before := Held(segs[1..]) + kept;
    Grouping(lost, before, [last]);
    Grouping(lost, before, [entry]);
    LastApart(lost + before, last);
  }

  /** The lines with the last one replaced. */
  function WithLast(lines: seq<Text>, line: Text): (r: seq<Text>)
    requires lines != []
    ensures r != []
  {
    lines[..|lines| - 1] + [line]
  }

  /** The records once the last one of the current file is replaced. */
  function Rewritten(segs: seq<seq<Text>>, entry: Text): seq<seq<Text>>
    requires segs != [] && segs[0] != []
  {
    segs[0 := WithLast(segs[0], entry)]
  }

  /** Moves every file one number up and starts a new current one. */
  method Rotate(files: map<nat, Text>, fileLen: nat, offset: Option<nat>, ghost segs: seq<seq<Text>>,
                maxFiles: nat, ghost limit: nat)
    returns (files': map<nat, Text>)
    requires DiskValid(files, fileLen, offset, segs, maxFiles, limit) && fileLen >= limit
    ensures DiskValid(files', 0, None, RotatedSegs(segs, maxFiles), maxFiles, limit)
  {
    RotationKeeps(files, fileLen, offset, segs, maxFiles, limit);
    files' := ShiftFiles(files, maxFiles);
  }

  /** Writes at the end of the current file. */
  method Extend(files: map<nat, Text>, fileLen: nat, offset: Option<nat>, ghost segs: seq<seq<Text>>,
                maxFiles: nat, ghost limit: nat, entry: Text)
    returns (files': map<nat, Text>, fileLen': nat, offset': Option<nat>)
    requires DiskValid(files, fileLen, offset, segs, maxFiles, limit) && fileLen < limit
    ensures DiskValid(files', fileLen', offset', segs[0 := segs[0] + [entry]], maxFiles, limit)
  {
    WriteKeeps(files, fileLen, offset, segs, maxFiles, limit, entry);
    var line := entry + [NEWLINE];
    files' := files[0 := files[0][..fileLen] + line];
    fileLen', offset' := fileLen + |line|, Some(fileLen);
  }

  /** Truncates at the last line and writes there. */
  method Overwrite(files: map<nat, Text>, fileLen: nat, offset: Option<nat>, ghost segs: seq<seq<Text>>,
                   maxFiles: nat, ghost limit: nat, entry: Text)
    returns (files': map<nat, Text>, fileLen': nat)
    requires DiskValid(files, fileLen, offset, segs, maxFiles, limit) && segs[0] != []
    ensures DiskValid(files', fileLen', offset, Rewritten(segs, entry), maxFiles, limit)
  {
    RewriteKeeps(files, fileLen, offset, segs, maxFiles, limit, entry);
    var line := entry + [NEWLINE];
    files' := files[0 := files[0][..offset.value] + line];
    fileLen' := offset.value + |line|;
  }

  /** The line repeats one whose count is the largest there is. */
  predicate Overflows(log: seq<Text>, entry: Text) {
    Repeats(SplitCount, log, entry) && CountFull(log[|log| - 1])
  }

  class Journal {
    var tail: seq<Text>
    var files: map<nat, Text>
    var fileLen: nat
    var lastLineOffset: Option<nat>
    const maxFileBytes: nat
    const maxFiles: nat
    /** Every line ever appended, repeats folded. */
    ghost var log: seq<Text>
    /** The lines that have left the files, and the lines of every file. */
    ghost var lost: seq<Text>
    ghost var segs: seq<seq<Text>>

    ghost predicate FilesValid()
      reads this
    {
      && DiskValid(files, fileLen, lastLineOffset, segs, maxFiles, maxFileBytes)
      && Retains(log, lost, segs, maxFiles)
    }

    ghost predicate Valid()
      reads this
    {
      && FilesValid()
      && |tail| <= MAX_TAIL && TailOf(tail, log)
      && (log == [] <==> segs[0] == [])
    }

    /** Opens an empty directory. */
    constructor (maxFileBytes: nat, maxFiles: nat)
      ensures Valid() && log == [] && this.maxFiles == (if maxFiles >= 1 then maxFiles else 1)
      ensures this.maxFileBytes == (if maxFileBytes >= 4096 then maxFileBytes else 4096)
    {
      tail, files, fileLen, lastLineOffset := [], map[0 := []], 0, None;
      this.maxFileBytes := if maxFileBytes >= 4096 then maxFileBytes else 4096;
      this.maxFiles := if maxFiles >= 1 then maxFiles else 1;
      log, lost, segs := [], [], [[]];
    }

    method RotateIfNeeded()
      requires FilesValid()
      modifies this`files, this`fileLen, this`lastLineOffset, this`lost, this`segs
      ensures FilesValid() && fileLen < maxFileBytes
      ensures segs == if old(fileLen) < maxFileBytes then old(segs) else RotatedSegs(old(segs), maxFiles)
    {
      if fileLen < maxFileBytes { return; }
      RotationRetains(log, lost, segs, maxFiles);
      files := Rotate(files, fileLen, lastLineOffset, segs, maxFiles, maxFileBytes);
      fileLen, lastLineOffset := 0, None;
      lost, segs := lost + Dropped(segs, maxFiles), RotatedSegs(segs, maxFiles);
    }

    /** A line goes behind the current file; only when that is full, into a new one before
        it, and then only the oldest of `maxFiles` files goes. */
    method WriteLine(entry: Text)
      requires FilesValid()
      modifies this`files, this`fileLen, this`lastLineOffset, this`lost, this`segs, this`log
      ensures FilesValid() && log == old(log) + [entry] && segs[0] != []
      ensures old(fileLen) < maxFileBytes ==> segs == old(segs)[0 := old(segs)[0] + [entry]]
      ensures old(fileLen) >= maxFileBytes ==>
                segs == [[entry]] + (if |old(segs)| < maxFiles then old(segs) else old(segs)[..maxFiles - 1])
    {
      RotatedThenLine(segs, maxFiles, entry);
      RotateIfNeeded();
      PutLine(entry);
    }

    /** Writes behind the current file, which is not full. */
    method PutLine(entry: Text)
      requires FilesValid() && fileLen < maxFileBytes
      modifies this`files, this`fileLen, this`lastLineOffset, this`segs, this`log
      ensures FilesValid() && log == old(log) + [entry] && segs == old(segs)[0 := old(segs)[0] + [entry]]
    {
      WriteRetains(log, lost, segs, maxFiles, entry);
      files, fileLen, lastLineOffset := Extend(files, fileLen, lastLineOffset, segs, maxFiles, maxFileBytes, entry);
      segs, log := segs[0 := segs[0] + [entry]], log + [entry];
    }

    /** Replaces the last line of the current file. */
    method RewriteLastLine(entry: Text)
      requires FilesValid() && segs[0] != []
      modifies this`files, this`fileLen, this`segs, this`log
      ensures FilesValid() && old(log) != [] && log == WithLast(old(log), entry)
      ensures segs == Rewritten(old(segs), entry) && segs[0] != []
    {
      RewriteRetains(log, lost, segs, maxFiles, entry);
      files, fileLen := Overwrite(files, fileLen, lastLineOffset, segs, maxFiles, maxFileBytes, entry);
      segs, log := Rewritten(segs, entry), WithLast(log, entry);
    }

    method PushTail(entry: Text)
      requires |tail| <= MAX_TAIL
      modifies this`tail
      ensures tail == Drained(old(tail)) + [entry] && |tail| <= MAX_TAIL
    {
      ErrorsOutlastNoise(tail);
      if |tail| >= MAX_TAIL {
        tail := DropFirst(tail, DRAIN, IsWarnOrError);
        if |tail| >= MAX_TAIL { tail := DropFirst(tail, DRAIN, IsError); }
        if |tail| >= MAX_TAIL { tail := tail[DRAIN..]; }
      }
      tail := tail + [entry];
    }

    method ReplaceLast(line: Text)
      requires Valid() && log != []
      modifies this
      ensures Valid() && log == WithLast(old(log), line)
    {
      ReplaceInTail(line);
      RewriteLastLine(line);
    }

    method ReplaceInTail(line: Text)
      requires TailOf(tail, log) && log != []
      modifies this`tail
      ensures |tail| == old(|tail|) && TailOf(tail, WithLast(log, line))
    {
      TailReplaced(tail, log, line);
      tail := tail[|tail| - 1 := line];
    }

    method AddLine(line: Text)
      requires Valid()
      modifies this
      ensures Valid() && log == old(log) + [line]
    {
      TailPushed(tail, log, line);
      PushTail(line);
      WriteLine(line);
    }

    /** Appends a formatted line: repeats of the last line are folded into its count, in
        memory and on disk. Past the largest count a build that checks arithmetic panics
        with the journal as it was, and one that does not goes back to zero. */
    method Append(entry: Text, checks: bool) returns (panicked: bool)
      requires Valid()
      modifies this
      ensures Valid()
      ensures panicked <==> checks && Overflows(old(log), entry)
      ensures log == if panicked then old(log) else Coalesced(SplitCount, Merged, old(log), entry)
    {
      panicked := false;
      var last := if tail != [] then tail[|tail| - 1] else entry;
      CoalescedCases(SplitCount, Merged, log, entry, last);
      if tail != [] && SplitCount(last).0 == SplitCount(entry).0 {
        if checks && CountFull(last) { return true; }
        var merged := Merged(last);
        ReplaceLast(merged);
      } else {
        AddLine(entry);
      }
    }

    /** The tail holds lines of the log, in order. The files hold the end of the log: all of it, or as many files as
        there may be,
        each one behind the current one full. No file
        reaches the limit before its last line. */
    lemma Retained()
      requires Valid()
      ensures Subsequence(tail, log) && (|log| <= 400 ==> tail == log)
      ensures files == FilesOf(segs) && 1 <= |segs| <= maxFiles && EndsWith(log, Held(segs))
      ensures Held(segs) == log || |segs| == maxFiles
      ensures forall i :: 0 < i < |segs| ==> |Lines(segs[i])| >= maxFileBytes
      ensures forall i :: 0 <= i < |segs| && segs[i] != [] ==> BeforeLast(segs[i]) < maxFileBytes
    {
      TailIsPart(tail, log);
      EndsWithRest(lost, Held(segs));
      Unit(Held(segs));
      FilesFilled(segs, maxFileBytes);
    }

    /** Everything on disk, oldest first: a contiguous end of the log. */
    method Dump() returns (out: Text)
      requires Valid()
      ensures out == Lines(Held(segs)) && EndsWith(log, Held(segs))
      ensures forall i :: i in files ==> i < maxFiles
    {
      EndsWithRest(lost, Held(segs));
      out := ReadFiles(files, maxFiles, segs);
    }
  }

  /** The files from the highest number down, the current one last. */
  method ReadFiles(files: map<nat, Text>, maxFiles: nat, ghost segs: seq<seq<Text>>) returns (out: Text)
    requires |segs| <= maxFiles && files == FilesOf(segs)
    ensures out == Lines(Held(segs))
  {
    out := [];
    var i := maxFiles;
    while i > 0
      invariant 0 <= i <= maxFiles
      invariant out == HeldBytes(segs, i)
    {
      i := i - 1;
      ReadStep(segs, i);
      if i in files { out := out + files[i]; }
    }
    assert FilesFrom(segs, 0) == segs;
  }

  /** What the files numbered `i` and more hold. */
  ghost function HeldBytes(segs: seq<seq<Text>>, i: nat): Text {
    Lines(Held(FilesFrom(segs, i)))
  }

  lemma ReadStep(segs: seq<seq<Text>>, i: nat)
    ensures var files := FilesOf(segs);
            HeldBytes(segs, i) == if i in files then HeldBytes(segs, i + 1) + files[i] else HeldBytes(segs, i + 1)
  {
    if i < |segs| { HeldFrom(segs, i); }
  }

  /** The files numbered `i` and more. */
  function FilesFrom(segs: seq<seq<Text>>, i: nat): seq<seq<Text>> {
    if i < |segs| then segs[i..] else []
  }

  lemma TruncatedFile(records: seq<Text>, bytes: Text, off: nat)
    requires records != [] && bytes == Lines(records) && LastOffset(records) == Some(off)
    ensures off <= |bytes| && bytes[..off] == Lines(records[..|records| - 1])
  {
    Prefix(Lines(records[..|records| - 1]), records[|records| - 1], [NEWLINE]);
  }

  lemma Prefix(a: Text, b: Text, c: Text)
    ensures (a + b + c)[..|a|] == a
  {
  }

  lemma HeldFrom(segs: seq<seq<Text>>, i: nat)
    requires i < |segs|
    ensures Lines(Held(FilesFrom(segs, i))) == Lines(Held(FilesFrom(segs, i + 1))) + Lines(segs[i])
  {
    assert segs[i..][1..] == segs[i + 1..];
    assert i + 1 == |segs| ==> segs[i + 1..] == [];
    LinesConcat(Held(segs[i + 1..]), segs[i]);
  }

  lemma MergedRaises()
    ensures RaisesCount(SplitCount, Merged, U64_LIMIT)
  {
    forall l: Text ensures SplitCount(Merged(l)) == (SplitCount(l).0, Raised(SplitCount(l).1)) { MergedSplits(l); }
    RaisesByOne(SplitCount, Merged, Raised, U64_LIMIT);
  }

  lemma RaisesByOne(split: Text -> (Text, nat), merge: Text -> Text, raise: nat -> nat, limit: nat)
    requires forall l {:trigger merge(l)} :: split(merge(l)) == (split(l).0, raise(split(l).1))
    requires forall n: nat :: n + 1 < limit ==> raise(n) == n + 1
    ensures RaisesCount(split, merge, limit)
  {
  }

  /** Lines without a count suffix of their own, appended to a new journal: what the
      journal holds, read back, is exactly what was appended. */
  lemma JournalIsLossless(entries: seq<Text>)
    requires |entries| < U64_LIMIT && Plain(SplitCount, entries)
    ensures Expand(SplitCount, LogOf(SplitCount, Merged, entries)) == entries
  {
    MergedRaises();
    LogIsLossless(SplitCount, Merged, U64_LIMIT, entries);
  }

  /** An append counts once, if and only if it repeats a line whose count is not the
      largest, or repeats none and claims no other count of its own. */
  lemma AppendCountsExactly(log: seq<Text>, entry: Text)
    ensures Expand(SplitCount, Coalesced(SplitCount, Merged, log, entry)) ==
              Expand(SplitCount, log) + [SplitCount(entry).0] <==>
            !Overflows(log, entry) && (Repeats(SplitCount, log, entry) || SplitCount(entry).1 == 1)
  {
    if log != [] { MergedSplits(log[|log| - 1]); }
    AppendCountsOnce(SplitCount, Merged, log, entry);
  }

  /** Two appends of one line reach the largest count: it ends in that count itself. A
      build that checks panics at the second; any other then says it never happened. */
  lemma TwoAppendsOverflow()
    ensures var line := WithCount([97], U64_LIMIT - 1);
            && Overflows(LogOf(SplitCount, Merged, [line]), line)
            && LogOf(SplitCount, Merged, [line, line]) == [WithCount([97], 0)]
            && Expand(SplitCount, LogOf(SplitCount, Merged, [line, line])) == []
  {
    FullTwice([97]);
  }

  lemma FullTwice(core: Text)
    ensures var line := WithCount(core, U64_LIMIT - 1);
            && Overflows(LogOf(SplitCount, Merged, [line]), line)
            && LogOf(SplitCount, Merged, [line, line]) == [WithCount(core, 0)]
            && Expand(SplitCount, [WithCount(core, 0)]) == []
  {
    var line := WithCount(core, U64_LIMIT - 1);
    WithCountSplits(core, U64_LIMIT - 1);
    WithCountSplits(core, 0);
    MergedAs(line, core, U64_LIMIT - 1);
    TwoLines(SplitCount, Merged, line, WithCount(core, 0));
    OneLine(SplitCount, Merged, line);
  }

  /** A first line that ends in a count of its own is read back that many times, so it is
      counted once only if the count is 1; "a (×5)" is counted five times. */
  lemma ClaimedCount(core: Text, n: nat)
    requires n < U64_LIMIT
    ensures Expand(SplitCount, LogOf(SplitCount, Merged, [WithCount(core, n)])) == Repeated(core, n)
    ensures |Expand(SplitCount, LogOf(SplitCount, Merged, [WithCount([97], 5)]))| == 5
  {
    FirstLine(core, n);
    FirstLine([97], 5);
  }

  lemma FirstLine(core: Text, n: nat)
    requires n < U64_LIMIT
    ensures Expand(SplitCount, LogOf(SplitCount, Merged, [WithCount(core, n)])) == Repeated(core, n)
  {
    var line := WithCount(core, n);
    WithCountSplits(core, n);
    OneLine(SplitCount, Merged, line);
  }

  /** The logs passed when the entries are appended one by one. */
  ghost predicate Logs(entries: seq<Text>, logs: seq<seq<Text>>) {
    && |logs| == |entries| + 1 && logs[0] == []
    && forall i {:trigger entries[i]} ::
         0 <= i < |entries| ==> logs[i + 1] == Coalesced(SplitCount, Merged, logs[i], entries[i])
  }

  function LogsOf(entries: seq<Text>): seq<seq<Text>> {
    seq(|entries| + 1, i requires 0 <= i <= |entries| => LogOf(SplitCount, Merged, entries[..i]))
  }

  lemma LogsOfIsLogs(entries: seq<Text>)
    ensures Logs(entries, LogsOf(entries))
  {
    forall i | 0 <= i < |entries|
      ensures LogsOf(entries)[i + 1] == Coalesced(SplitCount, Merged, LogsOf(entries)[i], entries[i])
    {
      LogStep(entries, i);
    }
  }

  predicate OverflowsAt(logs: seq<seq<Text>>, entries: seq<Text>, i: nat)
    requires i < |entries| && |logs| == |entries| + 1
  {
    Overflows(logs[i], entries[i])
  }

  /** None of the first `n` appends goes past the largest count. */
  ghost predicate NoOverflow(logs: seq<seq<Text>>, entries: seq<Text>, n: nat)
    requires n <= |entries| && |logs| == |entries| + 1
  {
    forall i :: 0 <= i < n ==> !OverflowsAt(logs, entries, i)
  }

  lemma NoOverflowNext(logs: seq<seq<Text>>, entries: seq<Text>, n: nat)
    requires n < |entries| && |logs| == |entries| + 1
    requires NoOverflow(logs, entries, n) && !OverflowsAt(logs, entries, n)
    ensures NoOverflow(logs, entries, n + 1)
  {
  }

  /** The first `n` appends went in: none of them panics, and the next one does if there is one. */
  ghost predicate Survives(logs: seq<seq<Text>>, entries: seq<Text>, checks: bool, n: nat)
    requires n <= |entries| && |logs| == |entries| + 1
  {
    (checks ==> NoOverflow(logs, entries, n)) && (n < |entries| ==> checks && OverflowsAt(logs, entries, n))
  }

  lemma LogStep(entries: seq<Text>, n: nat)
    requires n < |entries|
    ensures LogOf(SplitCount, Merged, entries[..n + 1]) ==
              Coalesced(SplitCount, Merged, LogOf(SplitCount, Merged, entries[..n]), entries[n])
  {
    assert entries[..n + 1][..n] == entries[..n];
  }

  /** A whole append-only run from an empty directory: the journal ends with the folded log
      of the lines appended, and the dump is the end of that log. A panic ends the run and
      takes the lock with it, so there is no dump. */
  method AppendAll(entries: seq<Text>, maxFileBytes: nat, maxFiles: nat, checks: bool)
    returns (journal: Journal, n: nat, dump: Option<Text>)
    ensures n <= |entries| && Survives(LogsOf(entries), entries, checks, n)
    ensures journal.Valid() && journal.log == LogOf(SplitCount, Merged, entries[..n])
    ensures Subsequence(journal.tail, journal.log) && (|journal.log| <= 400 ==> journal.tail == journal.log)
    ensures dump == (if n == |entries| then Some(Lines(Held(journal.segs))) else None)
    ensures journal.files == FilesOf(journal.segs) && EndsWith(journal.log, Held(journal.segs))
    ensures 1 <= |journal.segs| <= journal.maxFiles == (if maxFiles >= 1 then maxFiles else 1)
    ensures Held(journal.segs) == journal.log || |journal.segs| == journal.maxFiles
    ensures forall i :: 0 < i < |journal.segs| ==> |Lines(journal.segs[i])| >= maxFileBytes
    ensures var limit := if maxFileBytes >= 4096 then maxFileBytes else 4096;
            forall i :: 0 <= i < |journal.segs| && journal.segs[i] != [] ==> BeforeLast(journal.segs[i]) < limit
  {
    journal, n := AppendRun(entries, maxFileBytes, maxFiles, checks);
    journal.Retained();
    dump := None;
    if n == |entries| {
      var out := journal.Dump();
      dump := Some(out);
    }
  }

  method AppendRun(entries: seq<Text>, maxFileBytes: nat, maxFiles: nat, checks: bool)
    returns (journal: Journal, n: nat)
    ensures n <= |entries| && Survives(LogsOf(entries), entries, checks, n)
    ensures journal.Valid() && journal.log == LogOf(SplitCount, Merged, entries[..n])
    ensures journal.maxFiles == (if maxFiles >= 1 then maxFiles else 1)
    ensures journal.maxFileBytes == (if maxFileBytes >= 4096 then maxFileBytes else 4096)
  {
    journal := new Journal(maxFileBytes, maxFiles);
    LogsOfIsLogs(entries);
    n := AppendLoop(journal, entries, checks, LogsOf(entries));
  }

  /** Appends until a panic; `n` lines went in. */
  method AppendLoop(journal: Journal, entries: seq<Text>, checks: bool, ghost logs: seq<seq<Text>>) returns (n: nat)
    requires journal.Valid() && journal.log == [] && Logs(entries, logs)
    modifies journal
    ensures n <= |entries| && Survives(logs, entries, checks, n)
    ensures journal.Valid() && journal.log == logs[n]
  {
    n := 0;
    while n < |entries|
      invariant n <= |entries| && journal.Valid() && journal.log == logs[n]
      invariant checks ==> NoOverflow(logs, entries, n)
    {
      var panicked := AppendNth(journal, entries, checks, logs, n);
      if panicked { return n; }
      if checks { NoOverflowNext(logs, entries, n); }
      n := n + 1;
    }
  }

  method AppendNth(journal: Journal, entries: seq<Text>, checks: bool, ghost logs: seq<seq<Text>>, n: nat)
    returns (panicked: bool)
    requires Logs(entries, logs) && n < |entries| && journal.Valid() && journal.log == logs[n]
    modifies journal
    ensures journal.Valid() && panicked == (checks && OverflowsAt(logs, entries, n))
    ensures journal.log == if panicked then logs[n] else logs[n + 1]
  {
    panicked := journal.Append(entries[n], checks);
  }
}
