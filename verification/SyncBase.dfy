/** Byte-wise string order and sorting by a string key. */
module Ordering {

  /** Lexicographic order of strings. */
  predicate Less(a: string, b: string) {
    if b == "" then false
    else if a == "" then true
    else a[0] < b[0] || (a[0] == b[0] && Less(a[1..], b[1..]))
  }

  /** One string comes before another if and only if it is a proper beginning of it, or has
      the smaller character where they first differ. */
  lemma {:induction false} LessExactly(a: string, b: string)
    ensures Less(a, b) <==> (a <= b && a != b) || exists k :: FirstDiffer(a, b, k) && a[k] < b[k]
  {
    if a != "" && b != "" {
      if a[0] == b[0] {
        LessExactly(a[1..], b[1..]);
        SameHead(a, b);
      } else {
        assert FirstDiffer(a, b, 0);
        assert forall k :: FirstDiffer(a, b, k) ==> k == 0;
      }
    }
  }

  ghost predicate FirstDiffer(a: string, b: string, k: int) {
    0 <= k < |a| && k < |b| && a[k] != b[k] && forall i :: 0 <= i < k ==> a[i] == b[i]
  }

  lemma SameHead(a: string, b: string)
    requires a != "" && b != "" && a[0] == b[0]
    ensures a <= b <==> a[1..] <= b[1..]
    ensures a == b <==> a[1..] == b[1..]
    ensures (exists k :: FirstDiffer(a, b, k) && a[k] < b[k]) <==>
            exists k :: FirstDiffer(a[1..], b[1..], k) && a[1..][k] < b[1..][k]
  {
    assert a == [a[0]] + a[1..] && b == [b[0]] + b[1..];
    if k :| FirstDiffer(a, b, k) && a[k] < b[k] {
      assert FirstDiffer(a[1..], b[1..], k - 1);
    }
    if k :| FirstDiffer(a[1..], b[1..], k) && a[1..][k] < b[1..][k] {
      assert forall i :: 1 <= i < k + 1 ==> a[i] == a[1..][i - 1] && b[i] == b[1..][i - 1];
      assert FirstDiffer(a, b, k + 1);
    }
  }

  lemma {:induction false} LessTotal(a: string, b: string)
    ensures Less(a, b) || Less(b, a) || a == b
  {
    if a != "" && b != "" && a[0] == b[0] {
      LessTotal(a[1..], b[1..]);
      assert a == [a[0]] + a[1..] && b == [b[0]] + b[1..];
    }
  }

  lemma {:induction false} LessStrict(a: string, b: string)
    requires Less(a, b)
    ensures !Less(b, a) && a != b
  {
    if a != "" && a[0] == b[0] { LessStrict(a[1..], b[1..]); }
  }

  lemma {:induction false} LessTransitive(a: string, b: string, c: string)
    requires Less(a, b) && Less(b, c)
    ensures Less(a, c)
  {
    if a != "" && a[0] == b[0] == c[0] { LessTransitive(a[1..], b[1..], c[1..]); }
  }

  /** Strictly ascending by key. */
  ghost predicate Ascending<T>(key: T -> string, s: seq<T>) {
    forall i, j :: 0 <= i < j < |s| ==> Less(key(s[i]), key(s[j]))
  }

  ghost predicate DistinctKeys<T(!new)>(key: T -> string, s: seq<T>) {
    forall x, y :: x in s && y in s && key(x) == key(y) ==> x == y
  }

  ghost predicate NoRepeats<T>(s: seq<T>) {
    forall i, j :: 0 <= i < j < |s| ==> s[i] != s[j]
  }

  function Insert<T>(key: T -> string, x: T, s: seq<T>): seq<T> {
    if s == [] || Less(key(x), key(s[0])) then [x] + s else [s[0]] + Insert(key, x, s[1..])
  }

  function SortBy<T>(key: T -> string, s: seq<T>): seq<T> {
    if s == [] then [] else Insert(key, s[0], SortBy(key, s[1..]))
  }

  lemma HeadLeast<T(!new)>(key: T -> string, s: seq<T>)
    requires s != [] && Ascending(key, s)
    ensures forall y :: y in s[1..] ==> Less(key(s[0]), key(y))
  {
    forall y | y in s[1..] ensures Less(key(s[0]), key(y)) {
      var k :| 0 <= k < |s[1..]| && s[1..][k] == y;
      assert s[k + 1] == y;
    }
  }

  /** Adding a least head keeps the order. */
  lemma ConsAscends<T(!new)>(key: T -> string, x: T, s: seq<T>)
    requires Ascending(key, s) && forall y :: y in s ==> Less(key(x), key(y))
    ensures Ascending(key, [x] + s)
  {
    forall j | 0 <= j < |s| ensures Less(key(x), key(s[j])) { assert s[j] in s; }
  }

  lemma {:induction false} InsertAscends<T(!new)>(key: T -> string, x: T, s: seq<T>)
    requires Ascending(key, s) && forall y :: y in s ==> key(y) != key(x)
    ensures Ascending(key, Insert(key, x, s))
    ensures forall y :: y in Insert(key, x, s) <==> y == x || y in s
  {
    if s != [] {
      assert s[0] in s && s == [s[0]] + s[1..];
      HeadLeast(key, s);
      if Less(key(x), key(s[0])) {
        forall y | y in s ensures Less(key(x), key(y)) {
          if y != s[0] { LessTransitive(key(x), key(s[0]), key(y)); }
        }
        ConsAscends(key, x, s);
      } else {
        LessTotal(key(x), key(s[0]));
        InsertAscends(key, x, s[1..]);
        ConsAscends(key, s[0], Insert(key, x, s[1..]));
      }
    }
  }

  /** Sorting items with distinct keys puts exactly them in strictly ascending order. */
  lemma {:induction false} SortAscends<T(!new)>(key: T -> string, s: seq<T>)
    requires NoRepeats(s) && DistinctKeys(key, s)
    ensures Ascending(key, SortBy(key, s))
    ensures forall y :: y in SortBy(key, s) <==> y in s
  {
    if s != [] {
      assert s == [s[0]] + s[1..];
      SortAscends(key, s[1..]);
      forall y | y in SortBy(key, s[1..]) ensures key(y) != key(s[0]) {
        var k :| 0 <= k < |s[1..]| && s[1..][k] == y;
        assert s[0] != s[k + 1];
      }
      InsertAscends(key, s[0], SortBy(key, s[1..]));
    }
  }

  /** An ascending sequence is determined by its members. */
  lemma {:induction false} AscendingUnique<T(!new)>(key: T -> string, a: seq<T>, b: seq<T>)
    requires Ascending(key, a) && Ascending(key, b)
    requires forall x :: x in a <==> x in b
    ensures a == b
  {
    assert b != [] ==> b[0] in b;
    if a != [] {
      assert a[0] in a;
      var j :| 0 <= j < |b| && b[j] == a[0];
      var i :| 0 <= i < |a| && a[i] == b[0];
      if i > 0 && j > 0 {
        LessStrict(key(a[0]), key(a[i]));
        assert false;
      }
      TailMembers(key, a, b);
      AscendingUnique(key, a[1..], b[1..]);
    }
  }

  lemma TailMembers<T(!new)>(key: T -> string, a: seq<T>, b: seq<T>)
    requires a != [] && b != [] && a[0] == b[0] && Ascending(key, a) && Ascending(key, b)
    requires forall x :: x in a <==> x in b
    ensures forall x :: x in a[1..] <==> x in b[1..]
  {
    assert a == [a[0]] + a[1..] && b == [b[0]] + b[1..];
    HeadLeast(key, a);
    HeadLeast(key, b);
    forall x | x in a[1..] || x in b[1..] ensures x != a[0] {
      LessStrict(key(a[0]), key(x));
    }
    forall x ensures x in a[1..] <==> x in b[1..] {
      assert x in a <==> x in b;
    }
  }

  function Filter<T>(keep: T -> bool, s: seq<T>): seq<T> {
    if s == [] then []
    else if keep(s[0]) then [s[0]] + Filter(keep, s[1..])
    else Filter(keep, s[1..])
  }

  lemma {:induction false} FilterMembers<T(!new)>(keep: T -> bool, s: seq<T>)
    ensures forall x :: x in Filter(keep, s) <==> x in s && keep(x)
  {
    if s != [] { FilterMembers(keep, s[1..]); }
  }

  lemma {:induction false} FilterNoRepeats<T(!new)>(keep: T -> bool, s: seq<T>)
    requires NoRepeats(s)
    ensures NoRepeats(Filter(keep, s))
  {
    if s != [] {
      FilterNoRepeats(keep, s[1..]);
      FilterMembers(keep, s[1..]);
    }
  }

  lemma {:induction false} FilterAscending<T(!new)>(key: T -> string, keep: T -> bool, s: seq<T>)
    requires Ascending(key, s)
    ensures Ascending(key, Filter(keep, s))
  {
    if s != [] {
      FilterAscending(key, keep, s[1..]);
      FilterMembers(keep, s[1..]);
      HeadLeast(key, s);
      ConsAscends(key, s[0], Filter(keep, s[1..]));
    }
  }
}

/** Where a share-relative path may be written. */
module SyncPaths {
  import opened Prelude
  import opened Ordering

  const PART_SUFFIX: string := ".xrsync-part"

  predicate EndsWith(s: string, suffix: string) {
    |suffix| <= |s| && s[|s| - |suffix|..] == suffix
  }

  /** A scan lists the file: it is no partial download. */
  predicate Visible(path: string) {
    !EndsWith(path, PART_SUFFIX)
  }

  /** The files left out of a listing are exactly those named with that ending. */
  lemma HiddenExactly(path: string)
    ensures !Visible(path) <==> exists stem: string :: path == stem + ".xrsync-part"
  {
    if !Visible(path) { assert path == path[..|path| - 12] + ".xrsync-part"; }
    if stem: string :| path == stem + ".xrsync-part" { assert path[|stem|..] == ".xrsync-part"; }
  }

  predicate Malformed(rel: string) {
    (rel != "" && rel[0] == '/') || '\\' in rel || '\0' in rel
  }

  /** The components kept, or none when one of them climbs. */
  function Kept(comps: seq<string>): Option<seq<string>> {
    if comps == [] then Some([])
    else if comps[0] == ".." then None
    else
      var rest := Kept(comps[1..]);
      if rest.None? then None
      else if comps[0] == "" || comps[0] == "." then rest
      else Some([comps[0]] + rest.value)
  }

  /** Components of the destination under the root, or a refusal. */
  function SafeDest(rel: string): Option<seq<string>> {
    if Malformed(rel) then None
    else
      var kept := Kept(SplitOn(rel, '/'));
      if kept == Some([]) then None else kept
  }

  method SafeDestination(rel: string) returns (out: Option<seq<string>>)
    ensures out == SafeDest(rel)
  {
    if Malformed(rel) { return None; }
    var comps := SplitOn(rel, '/');
    var parts: seq<string> := [];
    ghost var whole := Kept(comps);
    assert comps[0..] == comps;
    if whole.Some? { Unit(whole.value); }
    for i := 0 to |comps|
      invariant whole == (var rest := Kept(comps[i..]); if rest.None? then None else Some(parts + rest.value))
    {
      assert comps[i..][1..] == comps[i + 1..];
      if comps[i] == "" || comps[i] == "." { continue; }
      if comps[i] == ".." { return None; }
      ghost var rest := Kept(comps[i + 1..]);
      if rest.Some? { Grouping(parts, [comps[i]], rest.value); }
      parts := parts + [comps[i]];
    }
    assert comps[|comps|..] == [];
    Unit(parts);
    if parts == [] { return None; }
    out := Some(parts);
  }

  /** A proper name of one path step. */
  predicate PlainName(c: string) {
    c != "" && c != "." && c != ".." && '/' !in c && '\\' !in c && '\0' !in c
  }

  /** The components kept are all but the empty ones and the dots, in their order. */
  lemma {:induction false} KeptInOrder(comps: seq<string>)
    requires ".." !in comps
    ensures Kept(comps) == Some(Filter(c => c != "" && c != ".", comps))
  {
    if comps != [] { KeptInOrder(comps[1..]); }
  }

  lemma {:induction false} KeptNames(comps: seq<string>)
    ensures Kept(comps).None? <==> ".." in comps
    ensures Kept(comps).Some? ==> forall c :: c in Kept(comps).value <==> c in comps && c != "" && c != "."
  {
    if comps != [] { KeptNames(comps[1..]); }
  }

  lemma {:induction false} SplitCharacters(rel: string, c: char)
    requires c !in rel
    ensures forall p :: p in SplitOn(rel, '/') ==> c !in p
  {
    if rel != "" { SplitCharacters(rel[1..], c); }
  }

  /** An accepted path leads through proper names only, so it stays strictly below the root. */
  lemma SafeDestStaysInside(rel: string)
    requires SafeDest(rel).Some?
    ensures SafeDest(rel).value != [] && forall c :: c in SafeDest(rel).value ==> PlainName(c)
  {
    var comps := SplitOn(rel, '/');
    KeptNames(comps);
    SplitHasNoSep(rel, '/');
    SplitCharacters(rel, '\\');
    SplitCharacters(rel, '\0');
  }

  /** Exactly the absolute, climbing, empty and ill-lettered paths are refused. */
  lemma SafeDestRefuses(rel: string)
    ensures SafeDest(rel).None? <==>
            || Malformed(rel) || ".." in SplitOn(rel, '/')
            || (forall c :: c in SplitOn(rel, '/') ==> c == "" || c == ".")
  {
    var comps := SplitOn(rel, '/');
    KeptNames(comps);
    var kept := Kept(comps);
    if kept.Some? {
      assert kept.value != [] ==> kept.value[0] in kept.value;
      if c :| c in comps && c != "" && c != "." { assert c in kept.value; }
    }
  }

  /** The share-relative path of the file a path is written to. */
  function Destination(rel: string): Option<string> {
    var parts := SafeDest(rel);
    if parts.None? then None else Some(JoinWith(parts.value, '/'))
  }

  /** A path that names its own destination. */
  predicate Canonical(rel: string) {
    Destination(rel) == Some(rel)
  }

  lemma {:induction false} KeptAll(comps: seq<string>)
    requires forall c :: c in comps ==> PlainName(c)
    ensures Kept(comps) == Some(comps)
  {
    if comps != [] {
      assert comps[0] in comps;
      KeptAll(comps[1..]);
      assert [comps[0]] + comps[1..] == comps;
    }
  }

  lemma {:induction false} JoinLetters(parts: seq<string>, c: char)
    requires c != '/' && forall p :: p in parts ==> c !in p
    ensures c !in JoinWith(parts, '/')
  {
    if |parts| > 1 { JoinLetters(parts[1..], c); }
  }

  /** Destinations are canonical: resolving twice changes nothing. */
  lemma DestinationIsCanonical(rel: string)
    requires Destination(rel).Some?
    ensures Canonical(Destination(rel).value)
  {
    var parts := SafeDest(rel).value;
    SafeDestStaysInside(rel);
    var path := JoinWith(parts, '/');
    SplitJoin(parts, '/');
    KeptAll(parts);
    JoinLetters(parts, '\\');
    JoinLetters(parts, '\0');
    FirstLetter(parts);
  }

  lemma FirstLetter(parts: seq<string>)
    requires parts != [] && forall c :: c in parts ==> PlainName(c)
    ensures var path := JoinWith(parts, '/'); path != "" && path[0] != '/'
  {
    assert parts[0] in parts;
    assert JoinWith(parts, '/')[0] == parts[0][0];
  }
}

/** SHA-256 as the sync engine relies on it: distinct contents have distinct
    digests, written in lower-case hexadecimal. */
module Digests {
  import opened Prelude

  type Content = seq<Byte>

  function LowerChar(c: char): char {
    if 'A' <= c <= 'Z' then ((c as int) + 32) as char else c
  }

  function LowerCase(s: string): (r: string)
    ensures |r| == |s| && forall i :: 0 <= i < |s| ==> r[i] == LowerChar(s[i])
  {
    seq(|s|, i requires 0 <= i < |s| => LowerChar(s[i]))
  }

  predicate SameHex(a: string, b: string) {
    LowerCase(a) == LowerCase(b)
  }

  /** Two digests are the same if and only if they differ at most in the case of letters. */
  lemma SameHexExactly(a: string, b: string)
    ensures SameHex(a, b) <==> |a| == |b| && forall i :: 0 <= i < |a| ==> SameDigit(a[i], b[i])
  {
    if |a| == |b| {
      assert forall i :: 0 <= i < |a| ==> (LowerCase(a)[i] == LowerCase(b)[i] <==> SameDigit(a[i], b[i]));
    }
  }

  predicate SameDigit(a: char, b: char) {
    a == b || ('A' <= a <= 'Z' && b as int == a as int + 32) || ('A' <= b <= 'Z' && a as int == b as int + 32)
  }

  ghost predicate IsDigest(sha: Content -> string) {
    && (forall a, b :: sha(a) == sha(b) ==> a == b)
    && (forall a :: sha(a) != "" && LowerCase(sha(a)) == sha(a))
  }

  /** A manifest entry; the hash is empty while the agent has not computed it. */
  datatype Entry = Entry(path: string, size: nat, sha256: string)

  /** Content the downloader may publish for an entry. */
  predicate Verified(sha: Content -> string, e: Entry, c: Content) {
    e.sha256 != "" ==> SameHex(sha(c), e.sha256)
  }
}
