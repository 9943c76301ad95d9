/** Journal lines as octets of UTF-8 text: the repeat-count suffix, and the log that
    folding repeats into it produces. */
module JournalText {
  import opened Prelude

  type Text = seq<Byte>

  /** Space, parenthesis and the multiplication sign, U+00D7. */
  const MARK: Text := [0x20, 0x28, 0xC3, 0x97]
  const CLOSE: Byte := 0x29
  const PLUS: Byte := 0x2B
  const U64_LIMIT: nat := 0x1_0000_0000_0000_0000

  // ---- Decimal numbers ----

  function ToDecimal(n: nat): (t: Text)
    ensures |t| >= 1 && AllDigits(t)
  {
    if n < 10 then [48 + n] else ToDecimal(n / 10) + [48 + n % 10]
  }

  predicate AllDigits(t: Text) {
    forall i :: 0 <= i < |t| ==> 48 <= t[i] <= 57
  }

  function DigitsValue(t: Text): nat
    requires AllDigits(t)
  {
    if t == [] then 0 else 10 * DigitsValue(t[..|t| - 1]) + (t[|t| - 1] - 48)
  }

  /** `str::parse::<u64>`: an optional plus sign and decimal digits, in range. */
  function ParseU64(t: Text): Option<nat> {
    var digits := if t != [] && t[0] == PLUS then t[1..] else t;
    if digits == [] || !AllDigits(digits) || DigitsValue(digits) >= U64_LIMIT then None else Some(DigitsValue(digits))
  }

  lemma {:induction false} DecimalValue(n: nat)
    ensures DigitsValue(ToDecimal(n)) == n
  {
    if n >= 10 {
      DecimalValue(n / 10);
      assert ToDecimal(n)[..|ToDecimal(n)| - 1] == ToDecimal(n / 10);
    }
  }

  lemma DecimalRoundTrip(n: nat)
    requires n < U64_LIMIT
    ensures ParseU64(ToDecimal(n)) == Some(n)
  {
    DecimalValue(n);
  }

  lemma {:induction false} LeadingZero(t: Text)
    requires AllDigits(t)
    ensures DigitsValue([48] + t) == DigitsValue(t)
  {
    if t != [] {
      LeadingZero(t[..|t| - 1]);
      assert ([48] + t)[..|t|] == [48] + t[..|t| - 1];
    }
  }

  /** Besides the plain decimals, leading zeros and one plus sign are read; nothing else is. */
  lemma ParsesNumbers(t: Text)
    ensures AllDigits(t) && t != [] ==> ParseU64([48] + t) == ParseU64(t) == ParseU64([PLUS] + t)
    ensures ParseU64(t).Some? ==> t != [] && (AllDigits(t) || (t[0] == PLUS && |t| > 1 && AllDigits(t[1..])))
    ensures ParseU64(t).Some? ==> ParseU64(t).value < 0x1_0000_0000_0000_0000
  {
    if AllDigits(t) && t != [] {
      LeadingZero(t);
      assert ([PLUS] + t)[1..] == t;
    }
  }

  // ---- The repeat suffix ----

  predicate MarkAt(s: Text, i: nat) {
    i + 4 <= |s| && s[i] == 0x20 && s[i + 1] == 0x28 && s[i + 2] == 0xC3 && s[i + 3] == 0x97
  }

  /** The last mark at or before `i`. */
  function LastMark(s: Text, i: nat): (r: Option<nat>)
    ensures r.Some? ==> r.value <= i && MarkAt(s, r.value)
  {
    if MarkAt(s, i) then Some(i) else if i == 0 then None else LastMark(s, i - 1)
  }

  /** Splits "core (×N)" into core and N; any other line is its own core, once. */
  function SplitCount(s: Text): (Text, nat) {
    if s == [] || s[|s| - 1] != CLOSE then (s, 1)
    else
      var open := LastMark(s, |s|);
      if open.None? || open.value + 4 >= |s| - 1 then (s, 1)
      else
        var n := ParseU64(s[open.value + 4..|s| - 1]);
        if n.None? then (s, 1) else (s[..open.value], n.value)
  }

  function Core(s: Text): Text { SplitCount(s).0 }

  function Count(s: Text): nat { SplitCount(s).1 }

  function WithCount(core: Text, n: nat): Text {
    core + MARK + ToDecimal(n) + [CLOSE]
  }

  lemma {:induction false} LastMarkIs(s: Text, k: nat, i: nat)
    requires MarkAt(s, k) && k <= i <= |s|
    requires forall j :: k < j < |s| ==> s[j] != 0x20
    ensures LastMark(s, i) == Some(k)
  {
    if k < i { LastMarkIs(s, k, i - 1); }
  }

  lemma WithCountParts(core: Text, digits: Text)
    requires AllDigits(digits) && digits != []
    ensures var s := core + MARK + digits + [CLOSE]; var k := |core|;
            && MarkAt(s, k) && s[|s| - 1] == CLOSE && s[..k] == core && s[k + 4..|s| - 1] == digits
            && forall j :: k < j < |s| ==> s[j] != 0x20
  {
    var s, k := core + MARK + digits + [CLOSE], |core|;
    forall j | k < j < |s| ensures s[j] != 0x20 {
      if j < k + 4 {
        assert s[j] == MARK[j - k];
      } else if j < |s| - 1 {
        assert s[j] == digits[j - k - 4];
      }
    }
  }

  /** Reading back a folded line gives its core and its count. */
  lemma WithCountSplits(core: Text, n: nat)
    requires n < U64_LIMIT
    ensures SplitCount(WithCount(core, n)) == (core, n)
  {
    var s := WithCount(core, n);
    WithCountParts(core, ToDecimal(n));
    LastMarkIs(s, |core|, |s|);
    DecimalRoundTrip(n);
  }

  lemma {:induction false} NoMarkBefore(s: Text, i: nat)
    requires forall j :: 0 <= j <= i ==> !MarkAt(s, j)
    ensures LastMark(s, i) == None
  {
    if i > 0 { NoMarkBefore(s, i - 1); }
  }

  lemma {:induction false} LastMarkAt(s: Text, k: nat, i: nat)
    requires MarkAt(s, k) && k <= i && forall j :: k < j <= i ==> !MarkAt(s, j)
    ensures LastMark(s, i) == Some(k)
  {
    if k < i { LastMarkAt(s, k, i - 1); }
  }

  /** Any line at all: one that ends in a parenthesis is split at its last mark, if a number
      stands between the two; every other line is its own core, once. */
  lemma SplitExactly(s: Text)
    ensures s == [] || s[|s| - 1] != CLOSE ==> SplitCount(s) == (s, 1)
    ensures (forall i :: 0 <= i <= |s| ==> !MarkAt(s, i)) ==> SplitCount(s) == (s, 1)
    ensures forall k :: 0 <= k <= |s| && MarkAt(s, k) && (forall j :: k < j <= |s| ==> !MarkAt(s, j))
                        && s[|s| - 1] == CLOSE ==>
              var n := ParseU64(s[k + 4..|s| - 1]); SplitCount(s) == if n.Some? then (s[..k], n.value) else (s, 1)
  {
    if forall i :: 0 <= i <= |s| ==> !MarkAt(s, i) { NoMarkBefore(s, |s|); }
    forall k | 0 <= k <= |s| && MarkAt(s, k) && (forall j :: k < j <= |s| ==> !MarkAt(s, j)) && s[|s| - 1] == CLOSE
      ensures k + 4 <= |s| - 1
      ensures var n := ParseU64(s[k + 4..|s| - 1]); SplitCount(s) == if n.Some? then (s[..k], n.value) else (s, 1)
    {
      LastMarkAt(s, k, |s|);
      assert s[k + 3] != CLOSE;
    }
  }

  /** One more, in 64 bits. */
  function Raised(n: nat): (r: nat)
    ensures r < U64_LIMIT
  {
    if n + 1 >= U64_LIMIT then 0 else n + 1
  }

  /** The line with its count raised. */
  function Merged(last: Text): Text {
    WithCount(Core(last), Raised(Count(last)))
  }

  /** The count a line claims is the largest there is: one more does not fit 64 bits. */
  predicate CountFull(last: Text) {
    SplitCount(last).1 + 1 >= U64_LIMIT
  }

  /** Raising a line's count keeps its core, and goes back to zero past the largest. */
  lemma MergedSplits(last: Text)
    ensures SplitCount(Merged(last)) == (SplitCount(last).0, Raised(SplitCount(last).1))
  {
    MergedAs(last, SplitCount(last).0, SplitCount(last).1);
  }

  lemma MergedAs(last: Text, core: Text, n: nat)
    requires SplitCount(last) == (core, n)
    ensures Merged(last) == WithCount(core, Raised(n)) && SplitCount(Merged(last)) == (core, Raised(n))
  {
    WithCountSplits(core, Raised(n));
  }
}

/** Folding repeats, for any kind of line that splits into a core and a count. */
module Coalescing {
  import opened Prelude

  /** The new line repeats the last one. */
  predicate Repeats<L(==)>(split: L -> (L, nat), log: seq<L>, entry: L) {
    log != [] && split(log[|log| - 1]).0 == split(entry).0
  }

  /** Appending a line: a repeat raises the last line's count, anything else is added. */
  function Coalesced<L(==)>(split: L -> (L, nat), merge: L -> L, log: seq<L>, entry: L): (r: seq<L>)
    ensures r != []
  {
    if Repeats(split, log, entry) then log[..|log| - 1] + [merge(log[|log| - 1])] else log + [entry]
  }

  function LogOf<L(==)>(split: L -> (L, nat), merge: L -> L, entries: seq<L>): seq<L> {
    if entries == [] then []
    else Coalesced(split, merge, LogOf(split, merge, entries[..|entries| - 1]), entries[|entries| - 1])
  }

  function Repeated<L>(line: L, n: nat): (r: seq<L>)
    ensures |r| == n && forall i :: 0 <= i < n ==> r[i] == line
  {
    if n == 0 then [] else Repeated(line, n - 1) + [line]
  }

  /** The log read back: every core as often as its count says. */
  function Expand<L>(split: L -> (L, nat), log: seq<L>): seq<L> {
    if log == [] then []
    else
      var (core, count) := split(log[|log| - 1]);
      Expand(split, log[..|log| - 1]) + Repeated(core, count)
  }

  /** A fold or an addition, by what the last line says. */
  lemma CoalescedCases<L>(split: L -> (L, nat), merge: L -> L, log: seq<L>, entry: L, last: L)
    requires log != [] ==> log[|log| - 1] == last
    ensures log != [] && split(last).0 == split(entry).0 ==>
              Coalesced(split, merge, log, entry) == log[..|log| - 1] + [merge(last)]
    ensures !(log != [] && split(last).0 == split(entry).0) ==> Coalesced(split, merge, log, entry) == log + [entry]
  {
  }

  lemma SplitLast<L>(s: seq<L>)
    requires s != []
    ensures s == s[..|s| - 1] + [s[|s| - 1]]
  {
  }

  lemma ExpandSnoc<L>(split: L -> (L, nat), log: seq<L>, line: L)
    ensures Expand(split, log + [line]) == Expand(split, log) + Repeated(split(line).0, split(line).1)
  {
    assert (log + [line])[..|log|] == log;
  }

  lemma ExpandMerged<L>(split: L -> (L, nat), before: seq<L>, last: L, merged: L)
    requires split(merged).0 == split(last).0
    ensures Expand(split, before + [merged]) == Expand(split, before + [last]) + [split(last).0] <==>
            split(merged).1 == split(last).1 + 1
  {
    ExpandSnoc(split, before, last);
    ExpandSnoc(split, before, merged);
    var (core, n) := split(last);
    var said := Expand(split, before);
    if split(merged).1 == n + 1 {
      assert Repeated(core, n + 1) == Repeated(core, n) + [core];
      Grouping(said, Repeated(core, n), [core]);
    } else {
      assert |said + Repeated(core, split(merged).1)| != |said + Repeated(core, n) + [core]|;
    }
  }

  /** An append adds exactly one occurrence of its core to what the log says, if and only
      if it raises the count of the line it repeats by one, or repeats none and does not
      itself claim another count. */
  lemma AppendCountsOnce<L>(split: L -> (L, nat), merge: L -> L, log: seq<L>, entry: L)
    requires log != [] ==> var last := log[|log| - 1]; split(merge(last)).0 == split(last).0
    ensures Expand(split, Coalesced(split, merge, log, entry)) == Expand(split, log) + [split(entry).0] <==>
            if Repeats(split, log, entry)
            then var last := log[|log| - 1]; split(merge(last)).1 == split(last).1 + 1
            else split(entry).1 == 1
  {
    if Repeats(split, log, entry) {
      SplitLast(log);
      ExpandMerged(split, log[..|log| - 1], log[|log| - 1], merge(log[|log| - 1]));
    } else {
      ExpandSnoc(split, log, entry);
      OnceOnly(Expand(split, log), split(entry).0, split(entry).1);
    }
  }

  lemma OnceOnly<L>(said: seq<L>, core: L, n: nat)
    ensures said + Repeated(core, n) == said + [core] <==> n == 1
  {
    if n == 1 {
      assert Repeated(core, n) == [core];
    } else {
      assert |said + Repeated(core, n)| != |said + [core]|;
    }
  }

  lemma OneLine<L>(split: L -> (L, nat), merge: L -> L, line: L)
    ensures LogOf(split, merge, [line]) == [line]
    ensures Expand(split, [line]) == Repeated(split(line).0, split(line).1)
  {
    assert [line][..0] == [];
    assert [] + Repeated(split(line).0, split(line).1) == Repeated(split(line).0, split(line).1);
  }

  /** A line whose raised count is zero, appended twice: the log says it never was. */
  lemma TwoLines<L>(split: L -> (L, nat), merge: L -> L, line: L, zero: L)
    requires merge(line) == zero && split(zero).1 == 0
    ensures Repeats(split, LogOf(split, merge, [line]), line) && LogOf(split, merge, [line])[0] == line
    ensures LogOf(split, merge, [line, line]) == [zero] && Expand(split, [zero]) == []
  {
    OneLine(split, merge, line);
    OneLine(split, merge, zero);
    assert [line, line][..1] == [line];
    assert [line][..0] + [zero] == [zero];
  }

  /** No line counts more occurrences than there were appends. */
  lemma CountBounded<L>(split: L -> (L, nat), log: seq<L>)
    requires log != []
    ensures split(log[|log| - 1]).1 <= |Expand(split, log)|
  {
  }

  /** Merging raises a line's count by one and keeps its core, below the limit. */
  ghost predicate RaisesCount<L(!new)>(split: L -> (L, nat), merge: L -> L, limit: nat) {
    forall l {:trigger merge(l)} :: split(l).1 + 1 < limit ==> split(merge(l)) == (split(l).0, split(l).1 + 1)
  }

  /** Lines that carry no count of their own. */
  predicate Plain<L(==)>(split: L -> (L, nat), entries: seq<L>) {
    forall i :: 0 <= i < |entries| ==> split(entries[i]) == (entries[i], 1)
  }

  /** Lines that carry no count of their own: the coalesced log read back is exactly
      the sequence of appended lines, so nothing is lost, invented or reordered and
      the counts add up to the number of appends. */
  lemma {:induction false} LogIsLossless<L(!new)>(split: L -> (L, nat), merge: L -> L, limit: nat, entries: seq<L>)
    requires |entries| < limit
    requires RaisesCount(split, merge, limit) && Plain(split, entries)
    ensures Expand(split, LogOf(split, merge, entries)) == entries
  {
    if entries != [] {
      var n := |entries| - 1;
      var before, log := entries[..n], LogOf(split, merge, entries[..n]);
      LogIsLossless(split, merge, limit, before);
      if log != [] { CountBounded(split, log); }
      AppendCountsOnce(split, merge, log, entries[n]);
      SplitLast(entries);
    }
  }
}

/** In-order parts of a sequence. */
module Subsequences {

  /** `part` is `whole` with some items left out. */
  predicate Subsequence<T(==)>(part: seq<T>, whole: seq<T>) {
    part == [] ||
    (whole != [] && ((part[0] == whole[0] && Subsequence(part[1..], whole[1..])) || Subsequence(part, whole[1..])))
  }

  lemma {:induction false} SubsequenceSelf<T>(s: seq<T>)
    ensures Subsequence(s, s)
  {
    if s != [] { SubsequenceSelf(s[1..]); }
  }

  lemma {:induction false} SubsequenceTransitive<T>(a: seq<T>, b: seq<T>, c: seq<T>)
    requires Subsequence(a, b) && Subsequence(b, c)
    ensures Subsequence(a, c)
    decreases c
  {
    if a != [] && b != [] {
      if Subsequence(b, c[1..]) {
        SubsequenceTransitive(a, b, c[1..]);
      } else if Subsequence(a, b[1..]) {
        SubsequenceTransitive(a, b[1..], c[1..]);
      } else {
        SubsequenceTransitive(a[1..], b[1..], c[1..]);
      }
    }
  }

  lemma SnocTail<T>(s: seq<T>, x: T)
    requires s != []
    ensures (s + [x])[1..] == s[1..] + [x] && (s + [x])[0] == s[0]
  {
  }

  lemma {:induction false} SubsequenceSnoc<T>(part: seq<T>, whole: seq<T>, x: T)
    requires Subsequence(part, whole)
    ensures Subsequence(part + [x], whole + [x])
    decreases whole
  {
    if whole == [] {
      assert [x][1..] == [];
      assert part + [x] == [x] && whole + [x] == [x];
    } else {
      SnocTail(whole, x);
      if part == [] || Subsequence(part, whole[1..]) {
        SubsequenceSnoc(part, whole[1..], x);
      } else {
        SubsequenceSnoc(part[1..], whole[1..], x);
        SnocTail(part, x);
      }
    }
  }

  lemma {:induction false} SuffixIsSubsequence<T>(s: seq<T>, k: nat)
    requires k <= |s|
    ensures Subsequence(s[k..], s)
  {
    if k == 0 {
      SubsequenceSelf(s);
      assert s[0..] == s;
    } else {
      SuffixIsSubsequence(s[1..], k - 1);
      assert s[1..][k - 1..] == s[k..];
    }
  }
}
