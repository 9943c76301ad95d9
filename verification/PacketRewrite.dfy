/** The packet rewrites of the userspace NAT, on every IPv4 header length a packet can
    claim and every length it can have. */
module PacketRewrite {
  import opened Prelude
  import opened Checksum

  type Port = x: int | 0 <= x <= 0xFFFF

  datatype Endpoint = Endpoint(ip: Ip, port: Port)

  const SMOL_IP: Ip := Ip(172, 16, 0, 1)

  // ---- Fields ----

  function SrcIp(p: seq<Byte>): Ip
    requires |p| >= 20
  {
    Ip(p[12], p[13], p[14], p[15])
  }

  function DstIp(p: seq<Byte>): Ip
    requires |p| >= 20
  {
    Ip(p[16], p[17], p[18], p[19])
  }

  function SrcPort(p: seq<Byte>, ihl: nat): Port
    requires ihl + 4 <= |p|
  {
    U16(p[ihl], p[ihl + 1])
  }

  function DstPort(p: seq<Byte>, ihl: nat): Port
    requires ihl + 4 <= |p|
  {
    U16(p[ihl + 2], p[ihl + 3])
  }

  /** The header length a packet claims; only 20 and more is an IPv4 header. */
  function HeaderLength(p: seq<Byte>): (ihl: nat)
    requires |p| >= 20
    ensures ihl % 4 == 0 && ihl <= 60
  {
    p[0] % 16 * 4
  }

  /** An IPv4 packet carrying at least `need` bytes of TCP. */
  predicate IsTcp4(p: seq<Byte>, need: nat) {
    |p| >= 20 && p[0] / 16 == 4 && p[9] == 6 && |p| >= HeaderLength(p) + need
  }

  /** SYN set and ACK clear: bits 1 and 4 of the flags. */
  predicate IsSyn(p: seq<Byte>, ihl: nat)
    requires ihl + 14 <= |p|
  {
    p[ihl + 13] / 2 % 2 == 1 && p[ihl + 13] / 16 % 2 == 0
  }

  /** A SYN, by the bits of the flags octet: SYN set and ACK not, whatever the others. */
  lemma SynBits(p: seq<Byte>, ihl: nat, high: nat, ack: nat, middle: nat, syn: nat, fin: nat)
    requires ihl + 14 <= |p| && high < 8 && ack < 2 && middle < 4 && syn < 2 && fin < 2
    requires p[ihl + 13] == 32 * high + 16 * ack + 4 * middle + 2 * syn + fin
    ensures IsSyn(p, ihl) <==> syn == 1 && ack == 0
  {
    var f: nat := p[ihl + 13];
    assert f / 2 == 16 * high + 8 * ack + 2 * middle + syn;
    assert f / 16 == 2 * high + ack;
  }

  /** The first octet: the version, and the length of the header in words of four octets. */
  lemma HeaderParts(p: seq<Byte>, version: nat, words: nat, need: nat)
    requires |p| >= 20 && words < 16 && p[0] == 16 * version + words
    ensures HeaderLength(p) == 4 * words
    ensures IsTcp4(p, need) <==> version == 4 && p[9] == 6 && |p| >= 4 * words + need
  {
    var b: nat := p[0];
    assert b / 16 == version && b % 16 == words;
  }

  /** The packet ends before its TCP checksum does. */
  predicate CutBeforeChecksum(p: seq<Byte>)
    requires |p| >= 20
  {
    |p| < HeaderLength(p) + 18
  }

  /** Both checksums of a packet hold at its receiver. */
  predicate ChecksOut(p: seq<Byte>, ihl: nat)
    requires 20 <= |p| <= 0xFFFF && ihl <= |p|
  {
    OnesSum(p[..ihl]) == 0xFFFF && TcpSum(SrcIp(p), DstIp(p), p[ihl..]) == 0xFFFF
  }

  // ---- The header checksum ----

  /** Stores the checksum of the first `ihl` bytes at its fixed place, which a header of
      less than 12 bytes does not hold. */
  method StoreIpChecksum(pkt: array<Byte>, ihl: nat)
    requires 20 <= pkt.Length <= 0xFFFF && ihl <= pkt.Length && ihl % 4 == 0
    modifies pkt
    ensures forall k :: 0 <= k < pkt.Length && k != 10 && k != 11 ==> pkt[k] == old(pkt[k])
    ensures ihl >= 12 ==> OnesSum(pkt[..ihl]) == 0xFFFF
    ensures ihl < 12 ==> U16(pkt[10], pkt[11]) == 0xFFFF - OnesSum(pkt[..ihl])
  {
    pkt[10], pkt[11] := 0, 0;
    ghost var h := pkt[..ihl];
    var c := Ipv4Checksum(pkt[..ihl]);
    pkt[10], pkt[11] := c / 256, c % 256;
    ChecksumStored(h, pkt[..ihl], c);
  }

  lemma ChecksumStored(h: seq<Byte>, q: seq<Byte>, c: nat)
    requires |q| == |h| && |h| % 4 == 0 && c == 0xFFFF - Folded(WordSum(Zeroed(h)))
    requires forall k :: 0 <= k < |h| && k != 10 && k != 11 ==> q[k] == h[k]
    requires |h| >= 12 ==> q[10] == c / 256 && q[11] == c % 256
    ensures |h| >= 12 ==> OnesSum(q) == 0xFFFF
    ensures |h| < 12 ==> OnesSum(q) == 0xFFFF - c
  {
    if |h| >= 12 {
      Ipv4Verifies(h);
      assert q == Put(h, 10, c);
    } else {
      assert Zeroed(h) == h && q == h;
      FoldedIsOnesSum(h);
    }
  }

  lemma SameHeader(p: seq<Byte>, q: seq<Byte>, ihl: nat)
    requires |p| == |q| && ihl <= |p| && forall k :: 0 <= k < ihl ==> p[k] == q[k]
    ensures p[..ihl] == q[..ihl]
  {
  }

  // ---- Towards the inner stack ----

  /** `q` is `p` with destination, port and checksums rewritten, in the order of the
      code: where a short header makes the fields overlap, the later write wins. */
  predicate Redirects(p: seq<Byte>, q: seq<Byte>, ihl: nat, port: Port)
    requires 20 <= |p| <= 0xFFFF && ihl + 18 <= |p|
  {
    && |q| == |p|
    && (forall k :: 0 <= k < |p| && k !in {10, 11, 16, 17, 18, 19, ihl + 2, ihl + 3, ihl + 16, ihl + 17} ==>
         q[k] == p[k])
    && (if ihl == 0 then q[18] == SMOL_IP.c && q[19] == SMOL_IP.d else DstIp(q) == SMOL_IP)
    && (ihl != 8 && ihl != 16 ==> DstPort(q, ihl) == port)
    && (ihl == 8 ==> DstPort(q, ihl) == 0xFFFF - OnesSum(p[..8]))
    && (ihl >= 12 ==> OnesSum(q[..ihl]) == 0xFFFF)
    && TcpSum(SrcIp(q), SMOL_IP, q[ihl..]) == 0xFFFF
  }

  method RewriteInbound(pkt: array<Byte>, ihl: nat, port: Port) returns (crashed: bool)
    requires 20 <= pkt.Length <= 0xFFFF && ihl % 4 == 0 && ihl + 14 <= pkt.Length
    modifies pkt
    ensures crashed <==> pkt.Length < ihl + 18
    ensures !crashed ==> Redirects(old(pkt[..]), pkt[..], ihl, port)
  {
    ghost var p := pkt[..];
    var src := PutDestination(pkt, ihl, port);
    ghost var fields := pkt[..];
    StoreIpChecksum(pkt, ihl);
    ghost var header := pkt[..];
    assert header[..ihl] == pkt[..ihl];
    crashed := TcpChecksumUpdate(pkt, ihl, src, SMOL_IP);
    assert pkt[..][ihl..] == pkt[ihl..];
    if !crashed { RedirectParts(p, fields, header, pkt[..], ihl, port, src); }
  }

  /** Writes the port, then the address over it where they meet; the source is read in between. */
  method PutDestination(pkt: array<Byte>, ihl: nat, port: Port) returns (src: Ip)
    requires 20 <= pkt.Length && ihl % 4 == 0 && ihl + 14 <= pkt.Length
    modifies pkt
    ensures forall k :: 0 <= k < pkt.Length && k !in {16, 17, 18, 19, ihl + 2, ihl + 3} ==> pkt[k] == old(pkt[k])
    ensures DstIp(pkt[..]) == SMOL_IP && SrcIp(pkt[..]) == src && (ihl != 16 ==> DstPort(pkt[..], ihl) == port)
  {
    pkt[ihl + 2] := port / 256;
    pkt[ihl + 3] := port % 256;
    src := Ip(pkt[12], pkt[13], pkt[14], pkt[15]);
    pkt[16], pkt[17], pkt[18], pkt[19] := SMOL_IP.a, SMOL_IP.b, SMOL_IP.c, SMOL_IP.d;
  }

  /** The fields, the header checksum and the segment checksum together make a redirect. */
  lemma RedirectParts(p: seq<Byte>, fields: seq<Byte>, header: seq<Byte>, q: seq<Byte>, ihl: nat, port: Port, src: Ip)
    requires 20 <= |p| <= 0xFFFF && ihl % 4 == 0 && ihl + 18 <= |p| == |fields| == |header| == |q|
    requires forall k :: 0 <= k < |p| && k !in {16, 17, 18, 19, ihl + 2, ihl + 3} ==> fields[k] == p[k]
    requires DstIp(fields) == SMOL_IP && SrcIp(fields) == src && (ihl != 16 ==> DstPort(fields, ihl) == port)
    requires OnlyChanged(fields, header, 10) && OnlyChanged(header, q, ihl + 16)
    requires ihl >= 12 ==> OnesSum(header[..ihl]) == 0xFFFF
    requires ihl < 12 ==> U16(header[10], header[11]) == 0xFFFF - OnesSum(header[..ihl])
    requires TcpSum(src, SMOL_IP, q[ihl..]) == 0xFFFF
    ensures Redirects(p, q, ihl, port)
  {
    SameHeader(header, q, ihl);
    if ihl == 8 { SameHeader(p, header, 8); }
  }

  /** At most the word at `at` differs. */
  predicate OnlyChanged(p: seq<Byte>, q: seq<Byte>, at: nat)
    requires |p| == |q|
  {
    forall k :: 0 <= k < |p| && k != at && k != at + 1 ==> q[k] == p[k]
  }

  /** The packet keeps its sender and reaches the session's socket with good checksums. */
  predicate Delivered(p: seq<Byte>, q: seq<Byte>, ihl: nat, port: Port)
    requires 20 <= |p| == |q| <= 0xFFFF && ihl + 18 <= |p|
  {
    SrcIp(q) == SrcIp(p) && DstIp(q) == SMOL_IP && DstPort(q, ihl) == port && ChecksOut(q, ihl)
  }

  /** Redirecting works for every IPv4 header; on a header claiming less than 20 bytes
      it overwrites itself, and works only where that happens to change nothing. */
  lemma RedirectDelivers(p: seq<Byte>, q: seq<Byte>, ihl: nat, port: Port)
    requires 20 <= |p| <= 0xFFFF && ihl % 4 == 0 && ihl + 18 <= |p| && port >= 2
    requires Redirects(p, q, ihl, port)
    ensures Delivered(p, q, ihl, port) <==>
            || ihl >= 20
            || (ihl == 4 && OnesSum(p[..4]) == 0xFFFF)
            || (ihl == 12 && U16(p[14], p[15]) == port)
  {
    if ihl >= 20 {
      RedirectWhole(p, q, ihl, port);
    } else if ihl == 0 {
      NoHeader(q);
    } else if ihl == 4 {
      Redirect4(p, q, port);
    } else if ihl == 8 {
      Redirect8(p, q, port);
    } else if ihl == 12 {
      Redirect12(p, q, port);
    } else {
      assert ihl == 16 && DstPort(q, 16) == 1;
    }
  }

  lemma RedirectWhole(p: seq<Byte>, q: seq<Byte>, ihl: nat, port: Port)
    requires 20 <= ihl && ihl + 18 <= |p| <= 0xFFFF && Redirects(p, q, ihl, port)
    ensures Delivered(p, q, ihl, port)
  {
  }

  lemma NoHeader(q: seq<Byte>)
    requires 20 <= |q| <= 0xFFFF
    ensures !ChecksOut(q, 0)
  {
    assert q[..0] == [];
  }

  lemma Redirect4(p: seq<Byte>, q: seq<Byte>, port: Port)
    requires 22 <= |p| <= 0xFFFF && Redirects(p, q, 4, port)
    ensures Delivered(p, q, 4, port) <==> OnesSum(p[..4]) == 0xFFFF
  {
    SameHeader(p, q, 4);
  }

  lemma Redirect8(p: seq<Byte>, q: seq<Byte>, port: Port)
    requires 26 <= |p| <= 0xFFFF && Redirects(p, q, 8, port) && port != 0
    ensures !Delivered(p, q, 8, port)
  {
    SameHeader(p, q, 8);
  }

  lemma Redirect12(p: seq<Byte>, q: seq<Byte>, port: Port)
    requires 30 <= |p| <= 0xFFFF && Redirects(p, q, 12, port)
    ensures Delivered(p, q, 12, port) <==> U16(p[14], p[15]) == port
  {
    SameWord(q[14], q[15], p[14], p[15]);
  }

  /** On a header claiming 16 bytes the inner stack's address overwrites the port: the packet goes to port 1. */
  lemma ShortHeaderMisses(p: seq<Byte>, q: seq<Byte>, port: Port)
    requires 34 <= |p| <= 0xFFFF && port >= 2 && Redirects(p, q, 16, port)
    ensures DstPort(q, 16) == 1 && !Delivered(p, q, 16, port)
  {
    RedirectDelivers(p, q, 16, port);
  }

  lemma SameWord(a: Byte, b: Byte, c: Byte, d: Byte)
    ensures U16(a, b) == U16(c, d) <==> a == c && b == d
  {
  }

  // ---- Back to the device ----

  /** `q` is `p` made to come from `from`, in the order of the code. */
  predicate Restores(p: seq<Byte>, q: seq<Byte>, ihl: nat, from: Endpoint)
    requires 20 <= |p| <= 0xFFFF && ihl + 18 <= |p|
  {
    && |q| == |p|
    && (forall k :: 0 <= k < |p| && k !in {10, 11, 12, 13, 14, 15, ihl, ihl + 1, ihl + 16, ihl + 17} ==> q[k] == p[k])
    && (if ihl == 12 then q[14] == from.ip.c && q[15] == from.ip.d else SrcIp(q) == from.ip)
    && SrcPort(q, ihl) == from.port
    && (ihl >= 12 ==> OnesSum(q[..ihl]) == 0xFFFF)
    && TcpSum(from.ip, if ihl == 0 then DstIp(p) else DstIp(q), q[ihl..]) == 0xFFFF
  }

  method RewriteSource(pkt: array<Byte>, ihl: nat, from: Endpoint) returns (crashed: bool)
    requires 20 <= pkt.Length <= 0xFFFF && ihl % 4 == 0 && ihl + 4 <= pkt.Length
    modifies pkt
    ensures crashed <==> pkt.Length < ihl + 18
    ensures !crashed ==> Restores(old(pkt[..]), pkt[..], ihl, from)
  {
    ghost var p := pkt[..];
    pkt[12], pkt[13], pkt[14], pkt[15] := from.ip.a, from.ip.b, from.ip.c, from.ip.d;
    pkt[ihl] := from.port / 256;
    pkt[ihl + 1] := from.port % 256;
    ghost var fields := pkt[..];
    StoreIpChecksum(pkt, ihl);
    ghost var header := pkt[..];
    assert header[..ihl] == pkt[..ihl];
    var dst := Ip(pkt[16], pkt[17], pkt[18], pkt[19]);
    crashed := TcpChecksumUpdate(pkt, ihl, from.ip, dst);
    assert pkt[..][ihl..] == pkt[ihl..];
    if !crashed { RestoreParts(p, fields, header, pkt[..], ihl, from); }
  }

  lemma RestoreParts(p: seq<Byte>, fields: seq<Byte>, header: seq<Byte>, q: seq<Byte>, ihl: nat, from: Endpoint)
    requires 20 <= |p| <= 0xFFFF && ihl % 4 == 0 && ihl + 18 <= |p| == |fields| == |header| == |q|
    requires forall k :: 0 <= k < |p| && k !in {12, 13, 14, 15, ihl, ihl + 1} ==> fields[k] == p[k]
    requires fields[14] == from.ip.c && fields[15] == from.ip.d && (ihl != 12 ==> SrcIp(fields) == from.ip)
    requires SrcPort(fields, ihl) == from.port
    requires OnlyChanged(fields, header, 10) && OnlyChanged(header, q, ihl + 16)
    requires ihl >= 12 ==> OnesSum(header[..ihl]) == 0xFFFF
    requires TcpSum(from.ip, DstIp(header), q[ihl..]) == 0xFFFF
    ensures Restores(p, q, ihl, from)
  {
    SameHeader(header, q, ihl);
  }

  /** The packet keeps its addressee and comes from `from` as TCP with good checksums. */
  predicate Returned(p: seq<Byte>, q: seq<Byte>, ihl: nat, from: Endpoint)
    requires 20 <= |p| == |q| <= 0xFFFF && ihl + 18 <= |p|
  {
    && DstIp(q) == DstIp(p) && q[9] == 6
    && SrcIp(q) == from.ip && SrcPort(q, ihl) == from.port && ChecksOut(q, ihl)
  }

  /** Restoring works for every IPv4 header; on a shorter one only where the overlapping
      fields happen to agree. */
  lemma RestoreReturns(p: seq<Byte>, q: seq<Byte>, ihl: nat, from: Endpoint)
    requires 20 <= |p| <= 0xFFFF && ihl % 4 == 0 && ihl + 18 <= |p| && p[9] == 6
    requires Restores(p, q, ihl, from)
    ensures Returned(p, q, ihl, from) <==>
            || ihl >= 20
            || (ihl == 4 && OnesSum(p[..4]) == 0xFFFF)
            || (ihl == 8 && OnesSum(p[..8]) == 0xFFFF && from.port % 256 == 6)
            || (ihl == 12 && U16(from.ip.a, from.ip.b) == from.port)
            || (ihl == 16 && U16(p[16], p[17]) == from.port)
  {
    if ihl >= 20 {
      RestoreWhole(p, q, ihl, from);
    } else if ihl == 0 {
      NoHeader(q);
    } else if ihl == 4 {
      Restore4(p, q, from);
    } else if ihl == 8 {
      Restore8(p, q, from);
    } else if ihl == 12 {
      Restore12(p, q, from);
    } else {
      Restore16(p, q, from);
    }
  }

  lemma RestoreWhole(p: seq<Byte>, q: seq<Byte>, ihl: nat, from: Endpoint)
    requires 20 <= ihl && ihl + 18 <= |p| <= 0xFFFF && p[9] == 6 && Restores(p, q, ihl, from)
    ensures Returned(p, q, ihl, from)
  {
  }

  lemma Restore4(p: seq<Byte>, q: seq<Byte>, from: Endpoint)
    requires 22 <= |p| <= 0xFFFF && p[9] == 6 && Restores(p, q, 4, from)
    ensures Returned(p, q, 4, from) <==> OnesSum(p[..4]) == 0xFFFF
  {
    SameHeader(p, q, 4);
  }

  lemma Restore8(p: seq<Byte>, q: seq<Byte>, from: Endpoint)
    requires 26 <= |p| <= 0xFFFF && Restores(p, q, 8, from)
    ensures Returned(p, q, 8, from) <==> OnesSum(p[..8]) == 0xFFFF && from.port % 256 == 6
  {
    SameHeader(p, q, 8);
    LowByte(q[8], q[9]);
  }

  lemma LowByte(hi: Byte, lo: Byte)
    ensures U16(hi, lo) % 256 == lo
  {
  }

  lemma Restore12(p: seq<Byte>, q: seq<Byte>, from: Endpoint)
    requires 30 <= |p| <= 0xFFFF && p[9] == 6 && Restores(p, q, 12, from)
    ensures Returned(p, q, 12, from) <==> U16(from.ip.a, from.ip.b) == from.port
  {
    SameWord(q[12], q[13], from.ip.a, from.ip.b);
  }

  lemma Restore16(p: seq<Byte>, q: seq<Byte>, from: Endpoint)
    requires 34 <= |p| <= 0xFFFF && p[9] == 6 && Restores(p, q, 16, from)
    ensures Returned(p, q, 16, from) <==> U16(p[16], p[17]) == from.port
  {
    SameWord(q[16], q[17], p[16], p[17]);
  }
}
