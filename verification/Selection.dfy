/** Which share-relative paths a selection covers, and removing one file or
    folder from a selection by splitting the folders above it. */
module Selection {
  import opened Prelude

  /** `p` is `s` itself or lies under the folder `s`. */
  predicate Under(p: string, s: string) {
    p == s || s + "/" <= p
  }

  /** `a` is a proper ancestor folder of `t`. */
  predicate Ancestor(a: string, t: string) {
    a + "/" <= t
  }

  predicate Covered(p: string, selection: set<string>) {
    exists s :: s in selection && Under(p, s)
  }

  predicate PathSelected(p: string, selection: Option<set<string>>) {
    selection.Some? ==> Covered(p, selection.value)
  }

  /** First '/' at or after `from`, or the end of the string. */
  function NextSlash(s: string, from: nat): (r: nat)
    requires from <= |s|
    ensures from <= r <= |s|
    ensures r < |s| ==> s[r] == '/'
    ensures forall k :: from <= k < r ==> s[k] != '/'
    decreases |s| - from
  {
    if from == |s| || s[from] == '/' then from else NextSlash(s, from + 1)
  }

  /** The path component of `s` that starts at `from`. */
  function Component(s: string, from: nat): string
    requires from <= |s|
  {
    s[from..NextSlash(s, from)]
  }

  predicate SlashAt(t: string, i: nat) {
    i < |t| && t[i] == '/'
  }

  /** `m` follows `t` through the slash at `i` and then leaves it through a
      different, non-empty component. */
  predicate BranchesAt(m: string, t: string, i: nat) {
    && SlashAt(t, i)
    && t[..i + 1] <= m
    && Component(m, i + 1) != ""
    && Component(m, i + 1) != Component(t, i + 1)
  }

  /** The folder or file through which `m` leaves `t` after the slash at `i`. */
  function BranchEntry(m: string, t: string, i: nat): string
    requires i < |t| && t[..i + 1] <= m
  {
    t[..i + 1] + Component(m, i + 1)
  }

  /** Entries for the sibling branches of `t` just below the slash at `i`. */
  ghost function Level(manifest: seq<string>, t: string, i: nat): set<string> {
    set m | m in manifest && BranchesAt(m, t, i) :: BranchEntry(m, t, i)
  }

  /** Entries for every sibling branch of `t` at or below depth `low`. */
  ghost function BranchesFrom(manifest: seq<string>, t: string, low: nat): set<string>
    decreases |t| - low
  {
    if low >= |t| then {} else Level(manifest, t, low) + BranchesFrom(manifest, t, low + 1)
  }

  /** Selection entries neither at or under `t`, nor an ancestor of `t` at depth `low` or below. */
  ghost function KeptAbove(selection: set<string>, t: string, low: nat): set<string> {
    set s | s in selection && !Under(s, t) && !(Ancestor(s, t) && low <= |s|)
  }

  /** Depth of the topmost selected ancestor of `t` at or below `i`, or the length of `t`. */
  function TopAncestor(selection: set<string>, t: string, i: nat): (top: nat)
    requires i <= |t|
    ensures i <= top <= |t|
    ensures top < |t| ==> SlashAt(t, top) && t[..top] in selection
    ensures forall k :: i <= k < top && SlashAt(t, k) ==> t[..k] !in selection
    decreases |t| - i
  {
    if i == |t| || (t[i] == '/' && t[..i] in selection) then i else TopAncestor(selection, t, i + 1)
  }

  /** Closed form of a deselect: entries off the path stay, and every sibling branch
      of the target below its topmost selected ancestor becomes an entry. */
  ghost function Deselected(selection: set<string>, manifest: seq<string>, t: string): set<string> {
    KeptAbove(selection, t, 0) + BranchesFrom(manifest, t, TopAncestor(selection, t, 0))
  }

  /** `m` lies under `dir` through a non-empty component other than `comp`. */
  predicate IsSibling(m: string, dir: string, comp: string) {
    dir + "/" <= m && Component(m, |dir| + 1) != "" && Component(m, |dir| + 1) != comp
  }

  /** Walks up from `target` to its nearest ancestor in `sel`. */
  method NearestAncestor(sel: set<string>, target: string) returns (at: Option<nat>)
    ensures at.Some? ==> SlashAt(target, at.value) && target[..at.value] in sel
    ensures at.Some? ==> forall a :: a in sel && Ancestor(a, target) ==> |a| <= at.value
    ensures at.None? ==> forall a :: a in sel ==> !Ancestor(a, target)
  {
    var i := |target|;
    while i > 0
      invariant i <= |target|
      invariant forall a :: a in sel && Ancestor(a, target) ==> |a| < i
    {
      i := i - 1;
      if target[i] == '/' && target[..i] in sel {
        return Some(i);
      }
      forall a | a in sel && Ancestor(a, target) ensures |a| < i {
        assert a == target[..|a|] && target[|a|] == '/';
      }
    }
    at := None;
  }

  /** Entries for the siblings of `comp` in the folder `dir`. */
  function Siblings(manifest: seq<string>, dir: string, comp: string): set<string> {
    set m | m in manifest && IsSibling(m, dir, comp) :: dir + "/" + Component(m, |dir| + 1)
  }

  lemma LevelOfDir(manifest: seq<string>, t: string, i: nat)
    requires SlashAt(t, i)
    ensures Siblings(manifest, t[..i], Component(t, i + 1)) == Level(manifest, t, i)
  {
    assert t[..i] + "/" == t[..i + 1];
    forall m ensures IsSibling(m, t[..i], Component(t, i + 1)) <==> BranchesAt(m, t, i) {}
  }

  lemma NoLevel(manifest: seq<string>, t: string, i: nat)
    requires i < |t| && t[i] != '/'
    ensures BranchesFrom(manifest, t, i) == BranchesFrom(manifest, t, i + 1)
  {
    forall e ensures e !in Level(manifest, t, i) {}
    assert Level(manifest, t, i) == {};
  }

  lemma {:induction false} Unchanged(f: nat -> set<string>, from: nat, end: nat)
    requires from <= end && forall i :: from <= i < end ==> f(i) == f(i + 1)
    ensures f(from) == f(end)
    decreases end - from
  {
    if from < end { Unchanged(f, from + 1, end); }
  }

  lemma SkipToSlash(manifest: seq<string>, t: string, from: nat, end: nat)
    requires from <= end <= |t| && forall k :: from <= k < end ==> t[k] != '/'
    ensures BranchesFrom(manifest, t, from) == BranchesFrom(manifest, t, end)
  {
    var f := (i: nat) => BranchesFrom(manifest, t, i);
    forall i | from <= i < end ensures f(i) == f(i + 1) { NoLevel(manifest, t, i); }
    Unchanged(f, from, end);
  }

  lemma BranchesNext(manifest: seq<string>, t: string, pos: nat, next: nat)
    requires SlashAt(t, pos) && next == NextSlash(t, pos + 1)
    ensures BranchesFrom(manifest, t, pos) == Level(manifest, t, pos) + BranchesFrom(manifest, t, next)
  {
    SkipToSlash(manifest, t, pos + 1, next);
  }

  lemma Union(a: set<string>, b: set<string>, c: set<string>)
    ensures a + (b + c) == a + b + c
  {
  }

  lemma {:induction false} DeeperBranches(manifest: seq<string>, t: string, low: nat, high: nat)
    requires low <= high
    ensures BranchesFrom(manifest, t, high) <= BranchesFrom(manifest, t, low)
    decreases high - low
  {
    if low < high { DeeperBranches(manifest, t, low + 1, high); }
  }

  lemma {:induction false} BranchWitness(manifest: seq<string>, t: string, low: nat, e: string)
    returns (m: string, i: nat)
    requires e in BranchesFrom(manifest, t, low)
    ensures m in manifest && low <= i && BranchesAt(m, t, i) && e == BranchEntry(m, t, i)
    decreases |t| - low
  {
    if e in Level(manifest, t, low) {
      i := low;
      m :| m in manifest && BranchesAt(m, t, low) && e == BranchEntry(m, t, low);
    } else {
      m, i := BranchWitness(manifest, t, low + 1, e);
    }
  }

  /** Re-selects the sibling branches at each level from the slash at `start` down to the target. */
  method AddBranches(sel: set<string>, manifest: seq<string>, target: string, start: nat) returns (out: set<string>)
    requires SlashAt(target, start)
    ensures out == sel + BranchesFrom(manifest, target, start)
  {
    var pos := start;
    out := sel;
    while pos < |target|
      invariant start <= pos <= |target|
      invariant pos < |target| ==> SlashAt(target, pos)
      invariant out + BranchesFrom(manifest, target, pos) == sel + BranchesFrom(manifest, target, start)
    {
      var dir, next := target[..pos], NextSlash(target, pos + 1);
      var comp := target[pos + 1..next];
      LevelOfDir(manifest, target, pos);
      BranchesNext(manifest, target, pos, next);
      Union(out, Level(manifest, target, pos), BranchesFrom(manifest, target, next));
      out := out + Siblings(manifest, dir, comp);
      pos := next;
    }
  }

  /** Two strings agreeing up to the end of a component share that component. */
  lemma SameComponent(p: string, q: string, from: nat, end: nat)
    requires from <= end <= |p| && end <= |q| && p[from..end] == q[from..end]
    requires forall k :: from <= k < end ==> p[k] != '/'
    requires (end == |p| || p[end] == '/') && (end == |q| || q[end] == '/')
    ensures Component(p, from) == Component(q, from) == p[from..end]
  {
    forall k | from <= k < end ensures q[k] != '/' {
      assert q[k] == q[from..end][k - from] == p[from..end][k - from] == p[k];
    }
  }

  /** A path shares every component of the folder it is under. */
  lemma UnderSharesComponents(q: string, p: string, from: nat)
    requires Under(q, p) && from <= |p|
    ensures Component(q, from) == Component(p, from)
  {
    SameComponent(p, q, from, NextSlash(p, from));
  }

  lemma BranchEntryComponent(m: string, t: string, i: nat)
    requires i < |t| && t[..i + 1] <= m
    ensures Component(BranchEntry(m, t, i), i + 1) == Component(m, i + 1)
  {
    var e, c := BranchEntry(m, t, i), Component(m, i + 1);
    assert e[i + 1..] == c && e == m[..|e|];
    SameComponent(m, e, i + 1, |e|);
  }

  /** A branch entry is neither an ancestor of the target, nor at or under it. */
  lemma BranchIsOffPath(m: string, t: string, i: nat)
    requires BranchesAt(m, t, i)
    ensures !Ancestor(BranchEntry(m, t, i), t) && !Under(BranchEntry(m, t, i), t)
  {
    var e := BranchEntry(m, t, i);
    BranchEntryComponent(m, t, i);
    if Under(t, e) { UnderSharesComponents(t, e, i + 1); assert false; }
    if Under(e, t) { UnderSharesComponents(e, t, i + 1); assert false; }
  }

  method ExpandDeselect(selection: set<string>, manifest: seq<string>, target: string) returns (sel: set<string>)
    ensures sel == Deselected(selection, manifest, target)
  {
    sel := set s | s in selection && s != target && !(target + "/" <= s);
    ghost var low: nat := |target|;
    while true
      invariant 0 <= low <= |target|
      invariant sel == KeptAbove(selection, target, low) + BranchesFrom(manifest, target, low)
      invariant low < |target| ==> SlashAt(target, low) && target[..low] in selection
      decreases low
    {
      var nearest := NearestAncestor(sel, target);
      BranchesOffPath(manifest, target, low);
      if nearest.None? {
        DeselectClosed(selection, manifest, target, low, sel);
        return;
      }
      var at := nearest.value;
      AncestorAt(target, at);
      sel := AddBranches(sel - {target[..at]}, manifest, target, at);
      DeeperBranches(manifest, target, at, low);
      KeptRound(selection, target, low, at);
      low := at;
    }
  }

  lemma AncestorAt(t: string, i: nat)
    requires SlashAt(t, i)
    ensures Ancestor(t[..i], t) && |t[..i]| == i
  {
    assert t[..i] + "/" == t[..i + 1];
  }

  lemma BranchesOffPath(manifest: seq<string>, t: string, low: nat)
    ensures forall e :: e in BranchesFrom(manifest, t, low) ==> !Ancestor(e, t) && !Under(e, t)
  {
    forall e | e in BranchesFrom(manifest, t, low) ensures !Ancestor(e, t) && !Under(e, t) {
      var m, i := BranchWitness(manifest, t, low, e);
      BranchIsOffPath(m, t, i);
    }
  }

  /** Removing the nearest ancestor leaves the entries that are no ancestor from its depth on. */
  lemma KeptRound(selection: set<string>, t: string, low: nat, at: nat)
    requires at < low && SlashAt(t, at)
    requires forall a :: a in KeptAbove(selection, t, low) && Ancestor(a, t) ==> |a| <= at
    ensures KeptAbove(selection, t, low) - {t[..at]} == KeptAbove(selection, t, at)
  {
    AncestorAt(t, at);
    forall s | s in KeptAbove(selection, t, low) && Ancestor(s, t) ensures s == t[..at] <==> |s| >= at {
      assert s == t[..|s|];
    }
  }

  lemma DeselectClosed(selection: set<string>, manifest: seq<string>, t: string, low: nat, sel: set<string>)
    requires low <= |t|
    requires sel == KeptAbove(selection, t, low) + BranchesFrom(manifest, t, low)
    requires low < |t| ==> SlashAt(t, low) && t[..low] in selection
    requires forall a :: a in sel ==> !Ancestor(a, t)
    ensures sel == Deselected(selection, manifest, t)
  {
    NoAncestorAbove(selection, t, low);
    assert TopAncestor(selection, t, 0) == low;
  }

  lemma NoAncestorAbove(selection: set<string>, t: string, low: nat)
    requires low <= |t|
    requires forall a :: a in KeptAbove(selection, t, low) ==> !Ancestor(a, t)
    ensures KeptAbove(selection, t, low) == KeptAbove(selection, t, 0)
    ensures forall k: nat :: k < low && SlashAt(t, k) ==> t[..k] !in selection
  {
    forall k: nat | k < low && SlashAt(t, k) ensures t[..k] !in selection {
      AncestorAt(t, k);
      assert !Under(t[..k], t);
      assert t[..k] in selection ==> t[..k] in KeptAbove(selection, t, low);
    }
  }

  /** `m` follows `t` and then diverges from it through an empty component, as
      in a trailing or doubled slash. */
  predicate Hollow(m: string, t: string) {
    exists i: nat ::
      i < |t| && SlashAt(t, i) && t[..i + 1] <= m && Component(m, i + 1) == "" && Component(t, i + 1) != ""
  }

  /** Nothing but ancestors of `t` selects `m`, and splitting them cannot name
      `m`: it is itself such an ancestor, or it leaves `t` through an empty component. */
  predicate Stranded(m: string, selection: set<string>, t: string) {
    && (forall s :: s in selection && Under(m, s) ==> Ancestor(s, t))
    && (Ancestor(m, t) || Hollow(m, t))
  }

  /** Two folders above the same path are nested. */
  lemma NestedFolders(m: string, s: string, t: string)
    requires Under(m, s) && Under(m, t)
    ensures s == t || Ancestor(s, t) || Ancestor(t, s)
  {
    if |s| < |t| {
      assert (s + "/")[..|s| + 1] == m[..|s| + 1] == t[..|s| + 1];
    } else if |t| < |s| {
      assert (t + "/")[..|t| + 1] == m[..|t| + 1] == s[..|t| + 1];
    } else {
      assert s == m[..|s|] == t;
    }
  }

  /** While `m` still follows `t` past the slash at `i`, it shares the components before it. */
  lemma FollowsSharesComponents(m: string, t: string, i: nat, from: nat)
    requires SlashAt(t, i) && t[..i + 1] <= m && from <= i
    ensures Component(m, from) == Component(t, from)
  {
    var end := NextSlash(t, from);
    assert end <= i;
    assert m[end] == t[..i + 1][end] == '/';
    assert m[from..end] == m[..i + 1][from..end] == t[from..end];
    SameComponent(t, m, from, end);
  }

  /** Deepest slash of `t` that `m` still follows. */
  lemma {:induction false} DeepestFollowed(m: string, t: string, i: nat) returns (j: nat)
    requires SlashAt(t, i) && t[..i + 1] <= m
    ensures i <= j && SlashAt(t, j) && t[..j + 1] <= m
    ensures var n := NextSlash(t, j + 1); n < |t| ==> !(t[..n + 1] <= m)
    decreases |t| - i
  {
    var n := NextSlash(t, i + 1);
    if n < |t| && t[..n + 1] <= m {
      j := DeepestFollowed(m, t, n);
    } else {
      j := i;
    }
  }

  /** Where a path under a selected ancestor of `t` leaves `t`. */
  lemma DivergesOrOnPath(m: string, t: string, i: nat) returns (j: nat)
    requires SlashAt(t, i) && t[..i + 1] <= m
    requires !Under(m, t) && !Ancestor(m, t) && !Hollow(m, t)
    ensures i <= j && BranchesAt(m, t, j)
  {
    j := DeepestFollowed(m, t, i);
    var n := NextSlash(t, j + 1);
    if Component(m, j + 1) == Component(t, j + 1) { SameStep(m, t, j); assert false; }
  }

  /** A path sharing the next component of `t` after its last followed slash ends on or below `t`, or above it. */
  lemma SameStep(m: string, t: string, j: nat)
    requires SlashAt(t, j) && t[..j + 1] <= m && Component(m, j + 1) == Component(t, j + 1)
    requires var n := NextSlash(t, j + 1); n < |t| ==> !(t[..n + 1] <= m)
    ensures Under(m, t) || Ancestor(m, t)
  {
    var n := NextSlash(t, j + 1);
    assert |Component(m, j + 1)| == n - (j + 1) && NextSlash(m, j + 1) == n;
    assert m[..n] == m[..j + 1] + Component(m, j + 1) == t[..j + 1] + Component(t, j + 1) == t[..n];
    assert n < |m| ==> m[..n + 1] == m[..n] + "/";
    assert n < |t| ==> t[..n + 1] == t[..n] + "/";
    assert n == |m| ==> m == m[..n];
    assert n == |t| ==> t == t[..n];
  }

  /** A surviving entry covers only what the old selection covered, and never
      the target or anything under it. */
  lemma DeselectSound(selection: set<string>, manifest: seq<string>, t: string, p: string)
    requires Covered(p, Deselected(selection, manifest, t))
    ensures Covered(p, selection) && !Under(p, t) && !Stranded(p, selection, t)
  {
    var s :| s in Deselected(selection, manifest, t) && Under(p, s);
    if s in KeptAbove(selection, t, 0) {
      if Under(p, t) { NestedFolders(p, s, t); assert false; }
    } else {
      var top := TopAncestor(selection, t, 0);
      var m, i := BranchWitness(manifest, t, top, s);
      AncestorAt(t, top);
      BranchSound(selection, m, t, i, p, t[..top]);
    }
  }

  lemma BranchSound(selection: set<string>, m: string, t: string, i: nat, p: string, a: string)
    requires BranchesAt(m, t, i) && Under(p, BranchEntry(m, t, i))
    requires a in selection && Ancestor(a, t) && |a| <= i
    ensures Covered(p, selection) && !Under(p, t) && !Ancestor(p, t) && !Hollow(p, t)
  {
    BranchDiverges(m, t, i, p);
    assert Under(p, a) by { assert a + "/" == t[..|a| + 1] == p[..|a| + 1]; }
    OffPath(p, t, i);
    SingleDivergence(p, t, i);
  }

  /** A path that leaves `t` is neither above nor under it. */
  lemma OffPath(p: string, t: string, i: nat)
    requires BranchesAt(p, t, i)
    ensures !Under(p, t) && !Under(t, p)
  {
    if Under(p, t) { UnderSharesComponents(p, t, i + 1); assert false; }
    if Under(t, p) { UnderSharesComponents(t, p, i + 1); assert false; }
  }

  /** A path under a branch entry leaves `t` where the entry does. */
  lemma BranchDiverges(m: string, t: string, i: nat, p: string)
    requires BranchesAt(m, t, i) && Under(p, BranchEntry(m, t, i))
    ensures t[..i + 1] <= p && BranchesAt(p, t, i)
  {
    var e := BranchEntry(m, t, i);
    BranchEntryComponent(m, t, i);
    UnderSharesComponents(p, e, i + 1);
    assert t[..i + 1] == e[..i + 1] == p[..i + 1];
  }

  /** A path leaves `t` in one place only. */
  lemma SingleDivergence(p: string, t: string, i: nat)
    requires BranchesAt(p, t, i)
    ensures !Hollow(p, t)
  {
    forall j: nat | SlashAt(t, j) && t[..j + 1] <= p && j != i ensures Component(p, j + 1) == Component(t, j + 1) {
      if j < i {
        FollowsSharesComponents(p, t, i, j + 1);
      } else {
        FollowsSharesComponents(p, t, j, i + 1);
        assert false;
      }
    }
  }

  lemma DeselectComplete(selection: set<string>, manifest: seq<string>, t: string, m: string)
    requires m in manifest && Covered(m, selection) && !Under(m, t) && !Stranded(m, selection, t)
    ensures Covered(m, Deselected(selection, manifest, t))
  {
    if s :| s in selection && Under(m, s) && !Ancestor(s, t) {
      assert s in KeptAbove(selection, t, 0) by {
        if Under(s, t) { UnderTransitive(m, s, t); assert false; }
      }
    } else {
      var a :| a in selection && Under(m, a);
      assert a == t[..|a|] && SlashAt(t, |a|) && a != m;
      var j := DivergesOrOnPath(m, t, |a|);
      var top := TopAncestor(selection, t, 0);
      assert top <= |a|;
      DeeperBranches(manifest, t, top, j);
      BranchCovers(m, t, j);
      assert BranchEntry(m, t, j) in Level(manifest, t, j);
    }
  }

  lemma BranchCovers(m: string, t: string, j: nat)
    requires BranchesAt(m, t, j)
    ensures Under(m, BranchEntry(m, t, j))
  {
    var n := NextSlash(m, j + 1);
    assert BranchEntry(m, t, j) == m[..n];
    assert n < |m| ==> m[..n] + "/" == m[..n + 1];
    assert n == |m| ==> m[..n] == m;
  }

  lemma UnderTransitive(m: string, s: string, t: string)
    requires Under(m, s) && Under(s, t)
    ensures Under(m, t)
  {
    if m != s && s != t { assert t + "/" == s[..|t| + 1] == m[..|t| + 1]; }
  }

  /** What a deselect does to every manifest path: it stays covered exactly when
      it was covered, is not at or under the target, and is not stranded. */
  lemma DeselectExact(selection: set<string>, manifest: seq<string>, t: string, m: string)
    requires m in manifest
    ensures Covered(m, Deselected(selection, manifest, t)) <==>
            Covered(m, selection) && !Under(m, t) && !Stranded(m, selection, t)
  {
    if Covered(m, Deselected(selection, manifest, t)) {
      DeselectSound(selection, manifest, t, m);
    } else if Covered(m, selection) && !Under(m, t) && !Stranded(m, selection, t) {
      DeselectComplete(selection, manifest, t, m);
      assert false;
    }
  }

  /** Every component is non-empty: no leading, trailing or doubled slash. */
  predicate Normalized(p: string) {
    forall i: nat :: i <= |p| && (i == 0 || p[i - 1] == '/') ==> Component(p, i) != ""
  }

  /** For normalized manifests in which no file is a folder above the target,
      deselecting removes the target's subtree from the coverage and nothing else. */
  lemma DeselectNormalized(selection: set<string>, manifest: seq<string>, t: string)
    requires forall m :: m in manifest ==> Normalized(m) && !Ancestor(m, t)
    ensures forall m :: m in manifest ==>
              (Covered(m, Deselected(selection, manifest, t)) <==> Covered(m, selection) && !Under(m, t))
  {
    forall m | m in manifest
      ensures Covered(m, Deselected(selection, manifest, t)) <==> Covered(m, selection) && !Under(m, t)
    {
      DeselectExact(selection, manifest, t, m);
      forall i: nat | SlashAt(t, i) && t[..i + 1] <= m ensures Component(m, i + 1) != "" {
        assert m[i] == t[..i + 1][i] == '/';
      }
    }
  }

  /** Deselecting "a/b" from {"a"} drops the manifest file "a", which is a folder
      above the target, although it is not under the target. */
  lemma StrandedExample()
    ensures Covered("a", {"a"}) && !Under("a", "a/b") && !Covered("a", Deselected({"a"}, ["a", "a/b"], "a/b"))
  {
    assert Under("a", "a") && "a" in {"a"};
    assert Ancestor("a", "a/b") by { assert "a" + "/" == "a/b"[..2]; }
    DeselectExact({"a"}, ["a", "a/b"], "a/b", "a");
  }

  /** A branch beside the target stays selected as a whole: whatever lies or will lie under
      it is covered, listed in the manifest or not. */
  lemma BranchesStayWhole(selection: set<string>, manifest: seq<string>, t: string, a: string, m: string, j: nat,
                          p: string)
    requires a in selection && a + "/" <= t && m in manifest
    requires |a| <= j < |t| && t[j] == '/' && t[..j + 1] <= m
    requires Component(m, j + 1) != "" && Component(m, j + 1) != Component(t, j + 1)
    requires Under(p, t[..j + 1] + Component(m, j + 1))
    ensures Covered(p, Deselected(selection, manifest, t))
  {
    var top := TopAncestor(selection, t, 0);
    assert t[..|a|] == a && SlashAt(t, |a|);
    assert top <= |a|;
    assert BranchEntry(m, t, j) in Level(manifest, t, j);
    LevelIncluded(manifest, t, top, j);
  }

  lemma {:induction false} LevelIncluded(manifest: seq<string>, t: string, low: nat, j: nat)
    requires low <= j < |t|
    ensures Level(manifest, t, j) <= BranchesFrom(manifest, t, low)
    decreases j - low
  {
    if low < j { LevelIncluded(manifest, t, low + 1, j); }
  }
}
