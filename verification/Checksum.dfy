/** The Internet checksum (RFC 1071) as the packet rewriter computes it, for IPv4
    headers and for TCP segments with their pseudo-header (RFC 9293, section 3.1). */
module Checksum {
  import opened Prelude

  // ---- Reference: one's-complement sum of 16-bit words ----

  /** Addition with end-around carry. */
  function OnesAdd(a: nat, b: nat): nat {
    if a + b >= 0x1_0000 then a + b - 0xFFFF else a + b
  }

  /** One's-complement sum of the big-endian words of `s`, an odd last byte padded with zero. */
  function OnesSum(s: seq<Byte>): (r: nat)
    ensures r <= 0xFFFF
  {
    if s == [] then 0
    else if |s| == 1 then U16(s[0], 0)
    else OnesAdd(U16(s[0], s[1]), OnesSum(s[2..]))
  }

  /** What the reference sum is: words most significant octet first, an odd octet padded with
      zero, parts summed one by one, and a carry out of 16 bits added at the low end. */
  lemma OnesSumRules(a: seq<Byte>, b: seq<Byte>, hi: Byte, lo: Byte)
    ensures OnesSum([]) == 0 && OnesSum([hi, lo]) == 256 * (hi as int) + lo as int
    ensures |a| % 2 == 1 ==> OnesSum(a) == OnesSum(a + [0])
    ensures |a| % 2 == 0 ==> OnesSum(a + b) == OnesAdd(OnesSum(a), OnesSum(b))
  {
    assert [hi, lo][2..] == [];
    if |a| % 2 == 1 { OddPadded(a); } else { OnesSumConcat(a, b); }
  }

  /** A sum with end-around carry is the same modulo 0xFFFF, and zero only for two zeros. */
  lemma OnesAddRules(a: nat, b: nat)
    requires a <= 0xFFFF && b <= 0xFFFF
    ensures OnesAdd(a, b) <= 0xFFFF && (OnesAdd(a, b) == a + b || OnesAdd(a, b) == a + b - 0xFFFF)
    ensures OnesAdd(a, b) == 0 <==> a == 0 && b == 0
    ensures OnesAdd(a, b) == OnesAdd(b, a)
  {
  }

  lemma {:induction false} OddPadded(a: seq<Byte>)
    requires |a| % 2 == 1
    ensures OnesSum(a) == OnesSum(a + [0])
  {
    if |a| == 1 {
      assert (a + [0])[2..] == [];
    } else {
      OddPadded(a[2..]);
      assert (a + [0])[2..] == a[2..] + [0];
    }
  }

  lemma {:induction false} OnesSumConcat(a: seq<Byte>, b: seq<Byte>)
    requires |a| % 2 == 0
    ensures OnesSum(a + b) == OnesAdd(OnesSum(a), OnesSum(b))
  {
    if a == [] {
      assert a + b == b;
    } else {
      OnesSumConcat(a[2..], b);
      assert (a + b)[2..] == a[2..] + b;
    }
  }

  // ---- The plain 32-bit sum and its fold ----

  function WordSum(s: seq<Byte>): (r: nat)
    ensures r <= 0xFFFF * ((|s| + 1) / 2)
  {
    if s == [] then 0
    else if |s| == 1 then U16(s[0], 0)
    else U16(s[0], s[1]) + WordSum(s[2..])
  }

  /** The value the fold loop ends with. */
  function Folded(x: nat): (r: nat)
    ensures r <= 0xFFFF
  {
    if x == 0 then 0 else (x - 1) % 0xFFFF + 1
  }

  lemma FoldStep(x: nat)
    ensures Folded(x % 0x1_0000 + x / 0x1_0000) == Folded(x)
    ensures x >= 0x1_0000 ==> x % 0x1_0000 + x / 0x1_0000 < x
    ensures x < 0x1_0000 ==> Folded(x) == x
  {
    var q, r := x / 0x1_0000, x % 0x1_0000;
    assert x == (q + r) + 0xFFFF * q;
    if x > 0 { ShiftMod(q + r - 1, q); }
  }

  lemma ShiftMod(a: nat, q: nat)
    ensures (a + 0xFFFF * q) % 0xFFFF == a % 0xFFFF
  {
    assert a + 0xFFFF * q == 0xFFFF * (a / 0xFFFF + q) + a % 0xFFFF;
  }

  /** Folds a 32-bit sum into 16 bits. */
  method Fold(total: nat) returns (sum: nat)
    requires total < 0x1_0000_0000
    ensures sum == Folded(total)
  {
    sum := total;
    while sum / 0x1_0000 != 0
      invariant Folded(sum) == Folded(total)
      decreases sum
    {
      FoldStep(sum);
      sum := sum % 0x1_0000 + sum / 0x1_0000;
    }
    FoldStep(sum);
  }

  /** Folding at the end is adding with end-around carry throughout. */
  lemma FoldAdd(a: nat, x: nat)
    requires a <= 0xFFFF
    ensures Folded(a + x) == OnesAdd(a, Folded(x))
  {
    if x > 0 {
      var q, r := (x - 1) / 0xFFFF, (x - 1) % 0xFFFF;
      assert x == 0xFFFF * q + r + 1;
      ShiftMod(a + r, q);
      assert a + x - 1 == a + r + 0xFFFF * q;
    }
  }

  lemma {:induction false} FoldedIsOnesSum(s: seq<Byte>)
    ensures Folded(WordSum(s)) == OnesSum(s)
  {
    if |s| >= 2 {
      FoldedIsOnesSum(s[2..]);
      FoldAdd(U16(s[0], s[1]), WordSum(s[2..]));
    }
  }

  /** The complement of a sum brings that sum to all ones. */
  lemma ComplementCompletes(total: nat)
    ensures Folded(total + (0xFFFF - Folded(total))) == 0xFFFF
  {
    if total > 0 {
      var q := (total - 1) / 0xFFFF;
      assert total == 0xFFFF * q + Folded(total);
      ShiftMod(0xFFFF - 1, q);
      assert total + (0xFFFF - Folded(total)) - 1 == 0xFFFF - 1 + 0xFFFF * q;
    }
  }

  // ---- Sums over parts of a packet ----

  lemma {:induction false} WordSumConcat(a: seq<Byte>, b: seq<Byte>)
    requires |a| % 2 == 0
    ensures WordSum(a + b) == WordSum(a) + WordSum(b)
  {
    if a == [] {
      assert a + b == b;
    } else {
      WordSumConcat(a[2..], b);
      assert (a + b)[2..] == a[2..] + b;
    }
  }

  /** The word at `i`, an odd last byte padded with zero. */
  function WordAt(s: seq<Byte>, i: nat): (w: nat)
    requires i < |s|
    ensures w <= 0xFFFF
  {
    if i + 1 < |s| then U16(s[i], s[i + 1]) else U16(s[i], 0)
  }

  /** The sum of the words from `i` on. */
  function RestSum(s: seq<Byte>, i: nat): nat {
    if i <= |s| then WordSum(s[i..]) else 0
  }

  lemma RestStart(s: seq<Byte>)
    ensures RestSum(s, 0) == WordSum(s)
  {
    assert s[0..] == s;
  }

  lemma RestStep(s: seq<Byte>, i: nat)
    requires i < |s|
    ensures RestSum(s, i) == WordAt(s, i) + RestSum(s, i + 2)
  {
    if i + 1 < |s| { assert s[i..][2..] == s[i + 2..]; }
  }

  lemma RestEnd(s: seq<Byte>, i: nat)
    requires i >= |s|
    ensures RestSum(s, i) == 0
  {
    if i == |s| { assert s[i..] == []; }
  }

  /** Writing a word over zeros adds it to the sum. */
  lemma {:induction false} SetWord(s: seq<Byte>, k: nat, hi: Byte, lo: Byte)
    requires k % 2 == 0 && k + 1 < |s| && s[k] == 0 && s[k + 1] == 0
    ensures WordSum(s[k := hi][k + 1 := lo]) == WordSum(s) + U16(hi, lo)
  {
    var s' := s[k := hi][k + 1 := lo];
    if k == 0 {
      assert s'[2..] == s[2..];
    } else {
      SetWord(s[2..], k - 2, hi, lo);
      assert s'[2..] == s[2..][k - 2 := hi][k - 1 := lo];
    }
  }

  function Put(s: seq<Byte>, k: nat, word: nat): (r: seq<Byte>)
    requires k + 1 < |s| && word <= 0xFFFF
    ensures |r| == |s|
  {
    s[k := word / 256][k + 1 := word % 256]
  }

  /** A word field filled with the complement of everything else checks out. */
  lemma FieldVerifies(rest: nat, s: seq<Byte>, k: nat)
    requires k % 2 == 0 && k + 1 < |s| && s[k] == 0 && s[k + 1] == 0
    ensures var c := 0xFFFF - Folded(rest + WordSum(s)); Folded(rest + WordSum(Put(s, k, c))) == 0xFFFF
  {
    var total := rest + WordSum(s);
    var c := 0xFFFF - Folded(total);
    SetWord(s, k, c / 256, c % 256);
    SameFold(rest + WordSum(Put(s, k, c)), total + c);
    ComplementCompletes(total);
  }

  // ---- IPv4 header ----

  /** The header with its checksum field taken as zero. */
  function Zeroed(h: seq<Byte>): (z: seq<Byte>)
    ensures |z| == |h|
  {
    seq(|h|, i requires 0 <= i < |h| => if i == 10 || i == 11 then 0 else h[i])
  }

  method Ipv4Checksum(h: seq<Byte>) returns (c: nat)
    requires |h| <= 0xFFFF
    ensures c == 0xFFFF - Folded(WordSum(Zeroed(h)))
  {
    ghost var z := Zeroed(h);
    RestStart(z);
    var sum, i := 0, 0;
    while i < |h|
      invariant i % 2 == 0 && i <= |h| + 1 && 2 * sum <= 0xFFFF * i
      invariant sum + RestSum(z, i) == WordSum(z)
    {
      RestStep(z, i);
      if i != 10 {
        assert WordAt(z, i) == WordAt(h, i);
        sum := sum + WordAt(h, i);
      }
      i := i + 2;
    }
    RestEnd(z, i);
    assert sum < 0x1_0000_0000;
    var folded := Fold(sum);
    c := 0xFFFF - folded;
  }

  lemma PutOverZeros(h: seq<Byte>, c: nat)
    requires |h| >= 12 && c <= 0xFFFF
    ensures Put(Zeroed(h), 10, c) == Put(h, 10, c)
  {
  }

  /** A header carrying the computed checksum sums to all ones. */
  lemma Ipv4Verifies(h: seq<Byte>)
    requires |h| >= 12
    ensures var c := 0xFFFF - Folded(WordSum(Zeroed(h))); OnesSum(Put(h, 10, c)) == 0xFFFF
  {
    var z := Zeroed(h);
    var c := 0xFFFF - Folded(WordSum(z));
    PutOverZeros(h, c);
    ZeroedVerifies(z, c);
    FoldedIsOnesSum(Put(z, 10, c));
  }

  lemma ZeroedVerifies(z: seq<Byte>, c: nat)
    requires |z| >= 12 && z[10] == 0 && z[11] == 0 && c == 0xFFFF - Folded(WordSum(z))
    ensures Folded(WordSum(Put(z, 10, c))) == 0xFFFF
  {
    SameFold(0 + WordSum(z), WordSum(z));
    FieldVerifies(0, z, 10);
    SameFold(0 + WordSum(Put(z, 10, c)), WordSum(Put(z, 10, c)));
  }

  // ---- TCP segment ----

  datatype Ip = Ip(a: Byte, b: Byte, c: Byte, d: Byte)

  /** Source, destination, zero, protocol 6 and segment length. */
  function PseudoHeader(src: Ip, dst: Ip, len: nat): (p: seq<Byte>)
    requires len <= 0xFFFF
    ensures |p| == 12
  {
    [src.a, src.b, src.c, src.d, dst.a, dst.b, dst.c, dst.d, 0, 6, len / 256, len % 256]
  }

  /** What a receiver sums: pseudo-header and segment. */
  function TcpSum(src: Ip, dst: Ip, segment: seq<Byte>): nat
    requires |segment| <= 0xFFFF
  {
    OnesSum(PseudoHeader(src, dst, |segment|) + segment)
  }

  lemma PseudoSum(src: Ip, dst: Ip, len: nat)
    requires len <= 0xFFFF
    ensures WordSum(PseudoHeader(src, dst, len)) ==
            U16(src.a, src.b) + U16(src.c, src.d) + U16(dst.a, dst.b) + U16(dst.c, dst.d) + 6 + len
  {
    var p := PseudoHeader(src, dst, len);
    assert p[2..][2..] == p[4..] && p[4..][2..] == p[6..] && p[6..][2..] == p[8..] && p[8..][2..] == p[10..];
    assert WordSum(p[10..]) == len;
    assert WordSum(p[6..]) == U16(dst.c, dst.d) + 6 + WordSum(p[10..]);
    assert WordSum(p[4..]) == U16(dst.a, dst.b) + WordSum(p[6..]);
    assert WordSum(p) == U16(src.a, src.b) + U16(src.c, src.d) + WordSum(p[4..]);
  }

  /** Adds the words of a segment to the sum. */
  method SumSegment(tcp: seq<Byte>, start: nat) returns (sum: nat)
    requires |tcp| <= 0xFFFF && start <= 0x6_0000
    ensures sum == start + WordSum(tcp) < 0x1_0000_0000
  {
    RestStart(tcp);
    sum := start;
    var i := 0;
    while i < |tcp|
      invariant i % 2 == 0 && i <= |tcp| + 1 && 2 * sum <= 2 * start + 0xFFFF * i
      invariant sum + RestSum(tcp, i) == start + WordSum(tcp)
    {
      RestStep(tcp, i);
      sum := sum + WordAt(tcp, i);
      i := i + 2;
    }
    RestEnd(tcp, i);
  }

  /** Recomputes the TCP checksum after a rewrite; only the two checksum bytes change,
      and the segment then checks out at the receiver. A packet that ends before its
      checksum field is indexed out of bounds. */
  method TcpChecksumUpdate(pkt: array<Byte>, ihl: nat, src: Ip, dst: Ip) returns (crashed: bool)
    requires ihl <= pkt.Length <= 0xFFFF
    modifies pkt
    ensures crashed <==> pkt.Length < ihl + 18
    ensures forall k :: 0 <= k < pkt.Length && k != ihl + 16 && k != ihl + 17 ==> pkt[k] == old(pkt[k])
    ensures !crashed ==> TcpSum(src, dst, pkt[ihl..]) == 0xFFFF
    ensures !crashed ==>
              var n: nat := pkt.Length - ihl;
              OnesSum([src.a, src.b, src.c, src.d, dst.a, dst.b, dst.c, dst.d, 0, 6, n / 256, n % 256] +
                      pkt[ihl..]) == 0xFFFF
  {
    var len := pkt.Length - ihl;
    if ihl + 16 >= pkt.Length { return true; }
    pkt[ihl + 16] := 0;
    if ihl + 17 >= pkt.Length { return true; }
    pkt[ihl + 17] := 0;
    crashed := false;
    var sum := U16(src.a, src.b) + U16(src.c, src.d) + U16(dst.a, dst.b) + U16(dst.c, dst.d) + 6 + len;
    ghost var rest, zeroed := sum, pkt[ihl..];
    sum := SumSegment(pkt[ihl..], sum);
    var folded := Fold(sum);
    var cksum := 0xFFFF - folded;
    pkt[ihl + 16] := cksum / 256;
    pkt[ihl + 17] := cksum % 256;
    assert pkt[ihl..] == Put(zeroed, 16, cksum);
    SegmentVerifies(src, dst, zeroed, rest, cksum);
  }

  lemma SegmentVerifies(src: Ip, dst: Ip, zeroed: seq<Byte>, rest: nat, cksum: nat)
    requires 18 <= |zeroed| <= 0xFFFF && zeroed[16] == 0 && zeroed[17] == 0
    requires rest == U16(src.a, src.b) + U16(src.c, src.d) + U16(dst.a, dst.b) + U16(dst.c, dst.d) + 6 + |zeroed|
    requires cksum == 0xFFFF - Folded(rest + WordSum(zeroed))
    ensures TcpSum(src, dst, Put(zeroed, 16, cksum)) == 0xFFFF
  {
    FieldVerifies(rest, zeroed, 16);
    SegmentSum(src, dst, Put(zeroed, 16, cksum), rest);
  }

  lemma SegmentSum(src: Ip, dst: Ip, seg: seq<Byte>, rest: nat)
    requires |seg| <= 0xFFFF && Folded(rest + WordSum(seg)) == 0xFFFF
    requires rest == U16(src.a, src.b) + U16(src.c, src.d) + U16(dst.a, dst.b) + U16(dst.c, dst.d) + 6 + |seg|
    ensures TcpSum(src, dst, seg) == 0xFFFF
  {
    PseudoSum(src, dst, |seg|);
    var p := PseudoHeader(src, dst, |seg|);
    PartsVerify(p, seg, p + seg, rest);
  }

  lemma PartsVerify(p: seq<Byte>, seg: seq<Byte>, whole: seq<Byte>, rest: nat)
    requires |p| % 2 == 0 && whole == p + seg && WordSum(p) == rest && Folded(rest + WordSum(seg)) == 0xFFFF
    ensures OnesSum(whole) == 0xFFFF
  {
    WordSumConcat(p, seg);
    SameFold(WordSum(whole), rest + WordSum(seg));
    FoldedIsOnesSum(whole);
  }

  lemma SameFold(x: nat, y: nat)
    requires x == y
    ensures Folded(x) == Folded(y)
  {
  }
}
