/** DNS messages: the query the client sends, the question the fake resolver
    parses, the answer it builds, and the A record the client reads back
    (sections 4.1.1 to 4.1.4 of RFC 1035). */
module DnsWire {
  import opened Prelude
  import opened FakeDns

  const DOT: Byte := 46
  const MAX_DOMAIN_LEN := 255

  // ---- Names as labels ----

  /** `domain.split('.')`. */
  function Split(d: Name): seq<Name> {
    SplitOn(d, DOT)
  }

  /** `labels.join(".")`. */
  function Join(labels: seq<Name>): Name {
    JoinWith(labels, DOT)
  }

  /** Well-formed UTF-8, as `std::str::from_utf8` accepts it. */
  predicate ValidUtf8(s: seq<Byte>) {
    s == [] || (0 < CharLength(s) && ValidUtf8(s[CharLength(s)..]))
  }

  /** Length of the first character's encoding, 0 when it is malformed. */
  function CharLength(s: seq<Byte>): (n: nat)
    requires s != []
    ensures n <= |s|
  {
    var b := s[0];
    if b < 0x80 then 1
    else if 0xC2 <= b <= 0xDF && |s| >= 2 && Continues(s[1]) then 2
    else if 0xE0 <= b <= 0xEF && |s| >= 3 && Continues(s[1]) && Continues(s[2])
      && (b == 0xE0 ==> s[1] >= 0xA0) && (b == 0xED ==> s[1] < 0xA0) then 3
    else if 0xF0 <= b <= 0xF4 && |s| >= 4 && Continues(s[1]) && Continues(s[2]) && Continues(s[3])
      && (b == 0xF0 ==> s[1] >= 0x90) && (b == 0xF4 ==> s[1] < 0x90) then 4
    else 0
  }

  predicate Continues(b: Byte) {
    0x80 <= b < 0xC0
  }

  /** A code point that is no surrogate. */
  predicate Scalar(c: nat) {
    c < 0xD800 || 0xE000 <= c < 0x11_0000
  }

  /** One character in UTF-8 (section 3 of RFC 3629). */
  function EncodeChar(c: nat): (r: seq<Byte>)
    requires Scalar(c)
    ensures 1 <= |r| <= 4
  {
    if c < 0x80 then [c]
    else if c < 0x800 then [0xC0 + c / 0x40, 0x80 + c % 0x40]
    else if c < 0x1_0000 then [0xE0 + c / 0x1000, 0x80 + c / 0x40 % 0x40, 0x80 + c % 0x40]
    else [0xF0 + c / 0x4_0000, 0x80 + c / 0x1000 % 0x40, 0x80 + c / 0x40 % 0x40, 0x80 + c % 0x40]
  }

  predicate Scalars(text: seq<nat>) {
    forall i :: 0 <= i < |text| ==> Scalar(text[i])
  }

  function EncodeText(text: seq<nat>): seq<Byte>
    requires Scalars(text)
  {
    if text == [] then [] else EncodeChar(text[0]) + EncodeText(text[1..])
  }

  /** The length is that of a whole character, read off its first octet and what follows. */
  lemma CharEncoded(c: nat, rest: seq<Byte>)
    requires Scalar(c)
    ensures CharLength(EncodeChar(c) + rest) == |EncodeChar(c)|
  {
    var s := EncodeChar(c) + rest;
    assert forall i :: 0 <= i < |EncodeChar(c)| ==> s[i] == EncodeChar(c)[i];
    if 0x800 <= c < 0x1_0000 {
      assert c / 0x40 == 0x40 * (c / 0x1000) + c / 0x40 % 0x40;
    } else if c >= 0x1_0000 {
      assert c / 0x1000 == 0x40 * (c / 0x4_0000) + c / 0x1000 % 0x40;
    }
  }

  lemma CharDecoded(s: seq<Byte>) returns (c: nat)
    requires s != [] && CharLength(s) > 0
    ensures Scalar(c) && s[..CharLength(s)] == EncodeChar(c)
  {
    var n, b := CharLength(s), s[0] as int;
    if n == 1 {
      c := b;
    } else if n == 2 {
      c := TwoOctets(b - 0xC0, s[1] as int - 0x80);
    } else if n == 3 {
      c := ThreeOctets(b - 0xE0, s[1] as int - 0x80, s[2] as int - 0x80);
    } else {
      c := FourOctets(b - 0xF0, s[1] as int - 0x80, s[2] as int - 0x80, s[3] as int - 0x80);
    }
  }

  lemma TwoOctets(h: int, x: int) returns (c: nat)
    requires 2 <= h < 32 && 0 <= x < 0x40
    ensures Scalar(c) && EncodeChar(c) == [0xC0 + h, 0x80 + x]
  {
    c := 0x40 * h + x;
  }

  lemma ThreeOctets(h: int, x: int, y: int) returns (c: nat)
    requires 0 <= h < 16 && 0 <= x < 0x40 && 0 <= y < 0x40 && (h == 0 ==> x >= 32) && (h == 13 ==> x < 32)
    ensures Scalar(c) && EncodeChar(c) == [0xE0 + h, 0x80 + x, 0x80 + y]
  {
    c := 0x1000 * h + 0x40 * x + y;
    assert c / 0x40 == 0x40 * h + x;
  }

  lemma FourOctets(h: int, x: int, y: int, z: int) returns (c: nat)
    requires 0 <= h < 5 && 0 <= x < 0x40 && 0 <= y < 0x40 && 0 <= z < 0x40 && (h == 0 ==> x >= 16)
             && (h == 4 ==> x < 16)
    ensures Scalar(c) && EncodeChar(c) == [0xF0 + h, 0x80 + x, 0x80 + y, 0x80 + z]
  {
    c := 0x4_0000 * h + 0x1000 * x + 0x40 * y + z;
    assert c / 0x40 == 0x1000 * h + 0x40 * x + y;
    assert c / 0x1000 == 0x40 * h + x;
  }

  /** An octet string passes as UTF-8 if and only if it encodes some text, character by character. */
  lemma Utf8Exactly(s: seq<Byte>)
    ensures ValidUtf8(s) <==> exists text: seq<nat> :: Scalars(text) && s == EncodeText(text)
  {
    if ValidUtf8(s) { var text := Utf8Decoded(s); }
    if text: seq<nat> :| Scalars(text) && s == EncodeText(text) { TextIsUtf8(text); }
  }

  lemma {:induction false} Utf8Decoded(s: seq<Byte>) returns (text: seq<nat>)
    requires ValidUtf8(s)
    ensures Scalars(text) && s == EncodeText(text)
  {
    if s == [] {
      text := [];
    } else {
      var n := CharLength(s);
      var c := CharDecoded(s);
      var rest := Utf8Decoded(s[n..]);
      text := [c] + rest;
      assert text[1..] == rest;
      assert s == s[..n] + s[n..];
    }
  }

  lemma {:induction false} TextIsUtf8(text: seq<nat>)
    requires Scalars(text)
    ensures ValidUtf8(EncodeText(text))
  {
    if text != [] {
      TextIsUtf8(text[1..]);
      var c, rest := EncodeChar(text[0]), EncodeText(text[1..]);
      CharEncoded(text[0], rest);
      assert (c + rest)[|c|..] == rest;
    }
  }

  // ---- Building the query ----

  function EncodeLabels(labels: seq<Name>): (r: seq<Byte>)
    ensures labels == [] ==> r == []
  {
    if labels == [] then [] else [|labels[0]| % 256] + labels[0] + EncodeLabels(labels[1..])
  }

  const QUERY_HEADER: seq<Byte> := [0xAB, 0xCD, 0x01, 0x00, 0x00, 0x01, 0x00, 0x00, 0x00, 0x00, 0x00, 0x00]

  function Question(d: Name): seq<Byte> {
    EncodeLabels(Split(d)) + [0] + [0, 1, 0, 1]
  }

  function QueryBytes(d: Name): seq<Byte> {
    QUERY_HEADER + Question(d)
  }

  lemma {:induction false} EncodeSnoc(labels: seq<Name>, last: Name)
    ensures EncodeLabels(labels + [last]) == EncodeLabels(labels) + [|last| % 256] + last
  {
    if labels == [] {
      Unit([last]);
      Unit([|last| % 256] + last);
    } else {
      EncodeSnoc(labels[1..], last);
      HeadTail(labels, [last]);
      Grouping([|labels[0]| % 256] + labels[0], EncodeLabels(labels[1..]) + [|last| % 256], last);
      Grouping([|labels[0]| % 256] + labels[0], EncodeLabels(labels[1..]), [|last| % 256]);
    }
  }

  method BuildQuery(domain: Name) returns (buf: seq<Byte>)
    ensures buf == QueryBytes(domain)
  {
    buf := [0xAB, 0xCD, 0x01, 0x00] + [0x00, 0x01, 0x00, 0x00, 0x00, 0x00, 0x00, 0x00];
    var labels := Split(domain);
    for i := 0 to |labels|
      invariant buf == QUERY_HEADER + EncodeLabels(labels[..i])
    {
      EncodeSnoc(labels[..i], labels[i]);
      assert labels[..i + 1] == labels[..i] + [labels[i]];
      buf := buf + [|labels[i]| % 256] + labels[i];
    }
    assert labels[..|labels|] == labels;
    buf := buf + [0] + [0, 1] + [0, 1];
  }

  // ---- Parsing the question ----

  /** Labels from `pos` up to the root label, and the position behind it. */
  function ParseLabels(data: seq<Byte>, pos: nat): (r: Option<(seq<Name>, nat)>)
    ensures r.Some? ==> pos < r.value.1 <= |data|
    decreases |data| - pos
  {
    if pos >= |data| then None
    else
      var len := data[pos];
      if len == 0 then Some(([], pos + 1))
      else if pos + 1 + len > |data| then None
      else
        var part := data[pos + 1..pos + 1 + len];
        if !ValidUtf8(part) then None
        else
          var rest := ParseLabels(data, pos + 1 + len);
          if rest.None? then None else Some(([part] + rest.value.0, rest.value.1))
  }

  /** Domain, type, class and length of the first question. */
  function ParsedQuestion(data: seq<Byte>): (r: Option<(Name, nat, nat, nat)>)
    ensures r.Some? ==> r.value.3 <= |data| && |r.value.0| <= MAX_DOMAIN_LEN
  {
    var labels := ParseLabels(data, 0);
    if labels.None? then None
    else
      var (parts, pos) := labels.value;
      if pos + 4 > |data| || |Join(parts)| > MAX_DOMAIN_LEN then None
      else Some((Join(parts), U16(data[pos], data[pos + 1]), U16(data[pos + 2], data[pos + 3]), pos + 4))
  }

  method ReadLabels(data: seq<Byte>) returns (r: Option<(seq<Name>, nat)>)
    ensures r == ParseLabels(data, 0)
  {
    var pos := 0;
    var parts: seq<Name> := [];
    ghost var whole := ParseLabels(data, 0);
    assert whole.Some? ==> parts + whole.value.0 == whole.value.0;
    while true
      invariant 0 <= pos
      invariant var rest := ParseLabels(data, pos);
                whole == if rest.None? then None else Some((parts + rest.value.0, rest.value.1))
      decreases |data| - pos
    {
      if pos >= |data| { return None; }
      var len := data[pos];
      if len == 0 {
        assert parts + [] == parts;
        return Some((parts, pos + 1));
      }
      if pos + 1 + len > |data| { return None; }
      var part := data[pos + 1..pos + 1 + len];
      if !ValidUtf8(part) { return None; }
      ghost var rest := ParseLabels(data, pos + 1 + len);
      assert rest.Some? ==> parts + ([part] + rest.value.0) == parts + [part] + rest.value.0;
      parts := parts + [part];
      pos := pos + 1 + len;
    }
  }

  method ParseQuestion(data: seq<Byte>) returns (r: Option<(Name, nat, nat, nat)>)
    ensures r == ParsedQuestion(data)
  {
    var labels := ReadLabels(data);
    if labels.None? { return None; }
    var (parts, pos) := labels.value;
    if pos + 4 > |data| { return None; }
    var domain := Join(parts);
    if |domain| > MAX_DOMAIN_LEN { return None; }
    r := Some((domain, U16(data[pos], data[pos + 1]), U16(data[pos + 2], data[pos + 3]), pos + 4));
  }

  // ---- Answering ----

  function Octets(ip: nat): (o: seq<Byte>)
    ensures |o| == 4
  {
    [ip / 0x100_0000 % 256, ip / 0x1_0000 % 256, ip / 0x100 % 256, ip % 256]
  }

  function FromOctets(a: Byte, b: Byte, c: Byte, d: Byte): nat {
    0x100_0000 * a + 0x1_0000 * b + 0x100 * c + d
  }

  function ResponseHeader(id: nat): (h: seq<Byte>)
    ensures |h| == 12
  {
    [id / 256 % 256, id % 256, 0x81, 0x80, 0, 1, 0, 1, 0, 0, 0, 0]
  }

  /** Pointer to offset 12, type A, class IN, 60 seconds, four octets of data. */
  const ANSWER_RECORD: seq<Byte> := [0xC0, 0x0C, 0, 1, 0, 1, 0, 0, 0, 60, 0, 4]

  /** Header, copied question, and one A record naming the question by a pointer to offset 12. */
  function ResponseBytes(id: nat, question: seq<Byte>, ip: nat): seq<Byte> {
    ResponseHeader(id) + question + ANSWER_RECORD + Octets(ip)
  }

  /** Id, domain and question length of a query the resolver answers. */
  function Accepted(query: seq<Byte>): (r: Option<(nat, Name, nat)>)
    ensures r.Some? ==> 12 + r.value.2 <= |query|
  {
    if |query| < 12 || U16(query[2], query[3]) >= 0x0800 || U16(query[4], query[5]) == 0 then None
    else
      var q := ParsedQuestion(query[12..]);
      if q.None? || q.value.1 != 1 || q.value.2 != 1 then None
      else Some((U16(query[0], query[1]), q.value.0, q.value.3))
  }

  /** Answers an A query with an address for its domain; anything else is left to others, untouched. */
  method HandleQuery(resolver: Resolver, query: seq<Byte>, clock: Clock) returns (answer: Option<(seq<Byte>, nat)>)
    requires Inv(resolver.View(), clock.first) && Runs(clock, resolver.View())
    modifies resolver
    ensures var a := Accepted(query);
            if a.None? then answer == None && resolver.View() == old(resolver.View())
            else
              && answer.Some?
              && var (response, ip) := answer.value;
                 var (id, domain, qlen) := a.value;
                 && Allocates(old(resolver.View()), Lower(domain), clock, resolver.View(), ip)
                 && response == ResponseBytes(id, query[12..12 + qlen], ip)
  {
    if |query| < 12 { return None; }
    var id := U16(query[0], query[1]);
    var flags := U16(query[2], query[3]);
    // QR and OPCODE are the top five bits.
    if flags >= 0x0800 { return None; }
    if U16(query[4], query[5]) == 0 { return None; }
    var parsed := ParseQuestion(query[12..]);
    if parsed.None? { return None; }
    var (domain, qtype, qclass, qend) := parsed.value;
    if qtype != 1 || qclass != 1 { return None; }
    var ip, _ := resolver.Allocate(domain, clock);
    answer := Some((ResponseBytes(id, query[12..qend + 12], ip), ip));
  }

  // ---- Reading the answer back ----

  function SkippedName(data: seq<Byte>, pos: nat): (r: nat)
    ensures pos <= r
    ensures pos < |data| ==> pos < r
    decreases |data| - pos
  {
    if pos >= |data| then pos
    else if data[pos] == 0 then pos + 1
    else if data[pos] >= 0xC0 then pos + 2
    else SkippedName(data, pos + data[pos] + 1)
  }

  method SkipName(data: seq<Byte>, start: nat) returns (pos: nat)
    ensures pos == SkippedName(data, start)
  {
    pos := start;
    while pos < |data|
      invariant SkippedName(data, pos) == SkippedName(data, start)
    {
      var b := data[pos];
      if b == 0 { return pos + 1; }
      if b >= 0xC0 { return pos + 2; }
      pos := pos + b + 1;
    }
  }

  /** First A record among the next `count` records from `pos`. */
  function FirstA(data: seq<Byte>, pos: nat, count: nat): Option<nat>
    decreases count
  {
    if count == 0 || pos >= |data| then None
    else
      var p := SkippedName(data, pos);
      if p + 10 > |data| then None
      else
        var rtype, rdlength := U16(data[p], data[p + 1]), U16(data[p + 8], data[p + 9]);
        if rtype == 1 && rdlength == 4 && p + 14 <= |data| then
          Some(FromOctets(data[p + 10], data[p + 11], data[p + 12], data[p + 13]))
        else FirstA(data, p + 10 + rdlength, count - 1)
  }

  function ReadA(data: seq<Byte>): Option<nat> {
    if |data| < 12 || U16(data[6], data[7]) == 0 then None
    else FirstA(data, SkippedName(data, 12) + 4, U16(data[6], data[7]))
  }

  method ParseARecord(data: seq<Byte>) returns (ip: Option<nat>)
    ensures ip == ReadA(data)
  {
    if |data| < 12 { return None; }
    var ancount := U16(data[6], data[7]);
    if ancount == 0 { return None; }
    var pos := SkipName(data, 12);
    pos := pos + 4;
    for k := 0 to ancount
      invariant 0 <= pos
      invariant FirstA(data, pos, ancount - k) == ReadA(data)
    {
      if pos >= |data| { return None; }
      pos := SkipName(data, pos);
      if pos + 10 > |data| { return None; }
      var rtype, rdlength := U16(data[pos], data[pos + 1]), U16(data[pos + 8], data[pos + 9]);
      pos := pos + 10;
      if rtype == 1 && rdlength == 4 && pos + 4 <= |data| {
        return Some(FromOctets(data[pos], data[pos + 1], data[pos + 2], data[pos + 3]));
      }
      pos := pos + rdlength;
    }
    ip := None;
  }

  // ---- Round trip ----

  predicate Encodable(labels: seq<Name>) {
    forall l :: l in labels ==> 1 <= |l| <= 255 && ValidUtf8(l)
  }

  /** The wire form of a name at `pos`: each label behind its length octet, then the root label. */
  predicate NameAt(data: seq<Byte>, pos: nat, labels: seq<Name>)
    decreases labels
  {
    if labels == [] then pos < |data| && data[pos] == 0
    else
      var next := pos + 1 + |labels[0]|;
      next <= |data| && data[pos] == |labels[0]| && data[pos + 1..next] == labels[0] && NameAt(data, next, labels[1..])
  }

  lemma EncodeHead(labels: seq<Name>)
    requires labels != [] && |labels[0]| <= 255
    ensures EncodeLabels(labels) == [|labels[0]|] + labels[0] + EncodeLabels(labels[1..])
  {
    assert |labels[0]| % 256 == |labels[0]|;
  }

  /** Where the parts of a message stand. */
  lemma Regroup(pre: seq<Byte>, n: seq<Byte>, l: seq<Byte>, rest: seq<Byte>, post: seq<Byte>)
    requires |n| == 1
    ensures var data := pre + (n + l + rest) + post;
            && data == pre + (n + l) + rest + post
            && data[|pre|] == n[0] && data[|pre| + 1..|pre| + 1 + |l|] == l
  {
  }

  lemma NameStep(data: seq<Byte>, pos: nat, labels: seq<Name>, next: nat)
    requires labels != [] && next == pos + 1 + |labels[0]| <= |data|
    requires data[pos] == |labels[0]| && data[pos + 1..next] == labels[0] && NameAt(data, next, labels[1..])
    ensures NameAt(data, pos, labels)
  {
  }

  lemma RootAt(data: seq<Byte>, pre: seq<Byte>, post: seq<Byte>)
    requires data == pre + [] + ([0] + post)
    ensures NameAt(data, |pre|, [])
  {
  }

  lemma {:induction false} EncodesName(data: seq<Byte>, pre: seq<Byte>, labels: seq<Name>, post: seq<Byte>)
    requires forall l :: l in labels ==> |l| <= 255
    requires data == pre + EncodeLabels(labels) + ([0] + post)
    ensures NameAt(data, |pre|, labels)
    decreases labels
  {
    if labels == [] {
      RootAt(data, pre, post);
    } else {
      var l, rest := labels[0], EncodeLabels(labels[1..]);
      var pre' := pre + ([|l|] + l);
      EncodeHead(labels);
      Regroup(pre, [|l|], l, rest, [0] + post);
      EncodesName(data, pre', labels[1..], post);
      NameStep(data, |pre|, labels, |pre'|);
    }
  }

  /** One label of a name parses to that label and whatever the rest parses to. */
  lemma ParseStep(data: seq<Byte>, pos: nat, l: Name, more: seq<Name>, end: nat)
    requires l != [] && ValidUtf8(l)
    requires pos + 1 + |l| <= |data| && data[pos] == |l| && data[pos + 1..pos + 1 + |l|] == l
    requires ParseLabels(data, pos + 1 + |l|) == Some((more, end))
    ensures ParseLabels(data, pos) == Some(([l] + more, end))
  {
  }

  lemma EncodedSize(labels: seq<Name>)
    requires labels != []
    ensures |EncodeLabels(labels)| == 1 + |labels[0]| + |EncodeLabels(labels[1..])|
  {
  }

  lemma {:induction false} ParseName(data: seq<Byte>, pos: nat, labels: seq<Name>, end: nat)
    requires Encodable(labels) && NameAt(data, pos, labels) && end == pos + |EncodeLabels(labels)| + 1
    ensures ParseLabels(data, pos) == Some((labels, end))
    decreases labels
  {
    if labels != [] {
      var l, rest := labels[0], labels[1..];
      assert l in labels;
      EncodedSize(labels);
      ParseName(data, pos + 1 + |l|, rest, end);
      ParseStep(data, pos, l, rest, end);
      assert [l] + rest == labels;
    }
  }

  lemma {:induction false} SkipLabels(data: seq<Byte>, pos: nat, labels: seq<Name>, end: nat)
    requires forall l :: l in labels ==> 1 <= |l| < 192
    requires NameAt(data, pos, labels) && end == pos + |EncodeLabels(labels)| + 1
    ensures SkippedName(data, pos) == end
    decreases labels
  {
    if labels != [] {
      assert labels[0] in labels;
      EncodedSize(labels);
      SkipLabels(data, pos + 1 + |labels[0]|, labels[1..], end);
    }
  }

  lemma {:induction false} LabelFits(labels: seq<Name>, l: Name)
    requires l in labels
    ensures |l| <= |Join(labels)|
  {
    if |labels| > 1 && l != labels[0] { LabelFits(labels[1..], l); }
  }

  /** A domain string with no empty label, within the length limit. */
  ghost predicate QueryableName(d: Name) {
    |d| <= MAX_DOMAIN_LEN && forall l :: l in Split(d) ==> l != [] && ValidUtf8(l)
  }

  /** The resolver recovers exactly the name that was queried. */
  lemma QueryRoundTrip(d: Name)
    requires QueryableName(d)
    ensures Accepted(QueryBytes(d)) == Some((0xABCD, d, |Question(d)|))
    ensures QueryBytes(d)[12..12 + |Question(d)|] == Question(d)
  {
    assert QueryBytes(d)[12..] == Question(d);
    QuestionRoundTrip(d);
  }

  lemma ParsePrefix(data: seq<Byte>, labels: seq<Name>, tail: seq<Byte>, n: nat)
    requires Encodable(labels) && data == EncodeLabels(labels) + ([0] + tail) && n == |EncodeLabels(labels)| + 1
    ensures ParseLabels(data, 0) == Some((labels, n))
  {
    assert [] + EncodeLabels(labels) == EncodeLabels(labels);
    EncodesName(data, [], labels, tail);
    ParseName(data, 0, labels, n);
  }

  lemma LabelsEncode(d: Name)
    requires QueryableName(d)
    ensures Encodable(Split(d))
  {
    JoinSplit(d, DOT);
    forall l | l in Split(d) ensures 1 <= |l| <= 255 && ValidUtf8(l) { LabelFits(Split(d), l); }
  }

  lemma QuestionName(d: Name, n: nat)
    requires QueryableName(d) && n == |EncodeLabels(Split(d))| + 1
    ensures ParseLabels(Question(d), 0) == Some((Split(d), n))
  {
    LabelsEncode(d);
    Grouping(EncodeLabels(Split(d)), [0], [0, 1, 0, 1]);
    ParsePrefix(Question(d), Split(d), [0, 1, 0, 1], n);
  }

  lemma QuestionRoundTrip(d: Name)
    requires QueryableName(d)
    ensures ParsedQuestion(Question(d)) == Some((d, 1, 1, |Question(d)|))
  {
    var n := |EncodeLabels(Split(d))| + 1;
    QuestionName(d, n);
    JoinSplit(d, DOT);
    assert Question(d)[n..] == [0, 1, 0, 1];
    ParsedAs(Question(d), Split(d), n);
  }

  lemma ParsedAs(data: seq<Byte>, parts: seq<Name>, n: nat)
    requires ParseLabels(data, 0) == Some((parts, n)) && |Join(parts)| <= MAX_DOMAIN_LEN
    requires n <= |data| && data[n..] == [0, 1, 0, 1]
    ensures ParsedQuestion(data) == Some((Join(parts), 1, 1, |data|))
  {
    LastFour(data, n);
  }

  lemma LastFour(data: seq<Byte>, n: nat)
    requires n <= |data| && data[n..] == [0, 1, 0, 1]
    ensures |data| == n + 4 && data[n] == 0 && data[n + 1] == 1 && data[n + 2] == 0 && data[n + 3] == 1
  {
    var tail := data[n..];
    assert data[n] == tail[0] && data[n + 1] == tail[1] && data[n + 2] == tail[2] && data[n + 3] == tail[3];
  }

  lemma {:induction false} EncodeConcat(a: seq<Name>, b: seq<Name>)
    ensures EncodeLabels(a + b) == EncodeLabels(a) + EncodeLabels(b)
  {
    if a == [] {
      Unit(b);
      Unit(EncodeLabels(b));
    } else {
      EncodeConcat(a[1..], b);
      HeadTail(a, b);
      Grouping([|a[0]| % 256] + a[0], EncodeLabels(a[1..]), EncodeLabels(b));
    }
  }

  lemma {:induction false} FirstEmpty(labels: seq<Name>) returns (k: nat)
    requires [] in labels
    ensures k < |labels| && labels[k] == [] && [] !in labels[..k]
  {
    if labels[0] == [] {
      k := 0;
    } else {
      k := FirstEmpty(labels[1..]);
      assert labels[..k + 1] == [labels[0]] + labels[1..][..k];
      k := k + 1;
    }
  }

  lemma {:induction false} JoinShorter(labels: seq<Name>, k: nat)
    requires 0 < k < |labels|
    ensures |Join(labels[..k])| < |Join(labels)|
  {
    if k > 1 {
      JoinShorter(labels[1..], k - 1);
      assert labels[..k][1..] == labels[1..][..k - 1];
    }
  }

  lemma EncodeAround(labels: seq<Name>, k: nat)
    requires k < |labels| && labels[k] == []
    ensures EncodeLabels(labels) == EncodeLabels(labels[..k]) + ([0] + EncodeLabels(labels[k + 1..]))
  {
    var rest := labels[k..];
    assert labels == labels[..k] + rest;
    EncodeConcat(labels[..k], rest);
    EncodeHead(rest);
    assert rest[1..] == labels[k + 1..];
    assert [0] + rest[0] == [0];
  }

  /** Encoded labels parse only up to the first empty one. */
  lemma CutName(data: seq<Byte>, labels: seq<Name>, suffix: seq<Byte>, k: nat, n: nat)
    requires data == EncodeLabels(labels) + suffix
    requires forall l :: l in labels ==> ValidUtf8(l) && |l| <= 255
    requires k < |labels| && labels[k] == [] && [] !in labels[..k] && n == |EncodeLabels(labels[..k])| + 1
    ensures ParseLabels(data, 0) == Some((labels[..k], n))
  {
    EncodeAround(labels, k);
    var tail := EncodeLabels(labels[k + 1..]) + suffix;
    Associate(EncodeLabels(labels[..k]), [0], EncodeLabels(labels[k + 1..]), suffix);
    ParsePrefix(data, labels[..k], tail, n);
  }

  lemma Associate(a: seq<Byte>, b: seq<Byte>, c: seq<Byte>, d: seq<Byte>)
    ensures a + (b + c) + d == a + (b + (c + d))
  {
  }

  lemma AcceptedName(query: seq<Byte>, parts: seq<Name>, n: nat)
    requires |query| >= 12 && ParseLabels(query[12..], 0) == Some((parts, n))
    ensures Accepted(query).Some? ==> Accepted(query).value.1 == Join(parts)
  {
  }

  lemma EmptyNameRefused()
    ensures Accepted(QueryBytes([])) == None
  {
    var data := Question([]);
    assert data == [0, 0, 0, 1, 0, 1];
    assert ParseLabels(data, 0) == Some(([], 1));
    assert QueryBytes([])[12..] == data;
  }

  lemma ShortLabels(d: Name)
    requires |d| <= MAX_DOMAIN_LEN
    ensures forall l :: l in Split(d) ==> |l| <= 255
  {
    JoinSplit(d, DOT);
    forall l | l in Split(d) ensures |l| <= 255 { LabelFits(Split(d), l); }
  }

  lemma CutQuery(d: Name, k: nat) returns (parts: seq<Name>, n: nat)
    requires |d| <= MAX_DOMAIN_LEN && forall l :: l in Split(d) ==> ValidUtf8(l)
    requires k < |Split(d)| && Split(d)[k] == [] && [] !in Split(d)[..k]
    ensures parts == Split(d)[..k] && ParseLabels(QueryBytes(d)[12..], 0) == Some((parts, n))
  {
    ShortLabels(d);
    parts := Split(d)[..k];
    n := |EncodeLabels(parts)| + 1;
    assert QueryBytes(d)[12..] == EncodeLabels(Split(d)) + ([0] + [0, 1, 0, 1]);
    CutName(QueryBytes(d)[12..], Split(d), [0] + [0, 1, 0, 1], k, n);
  }

  /** An empty label ends the name early on the wire, so another question arrives. */
  lemma EmptyLabelLost(d: Name)
    requires |d| <= MAX_DOMAIN_LEN && [] in Split(d) && forall l :: l in Split(d) ==> ValidUtf8(l)
    ensures Accepted(QueryBytes(d)).Some? ==> Accepted(QueryBytes(d)).value.1 != d
  {
    if d == [] {
      EmptyNameRefused();
    } else {
      var k := FirstEmpty(Split(d));
      var parts, n := CutQuery(d, k);
      JoinSplit(d, DOT);
      AcceptedName(QueryBytes(d), parts, n);
      if k > 0 { JoinShorter(Split(d), k); }
    }
  }

  /** A queried name comes back unchanged if and only if it is within the length limit and
      has no empty label. */
  lemma QueryRecovers(d: Name)
    requires forall l :: l in Split(d) ==> ValidUtf8(l)
    ensures (Accepted(QueryBytes(d)).Some? && Accepted(QueryBytes(d)).value.1 == d) <==>
            |d| <= MAX_DOMAIN_LEN && [] !in Split(d)
  {
    if |d| <= MAX_DOMAIN_LEN {
      if [] in Split(d) { EmptyLabelLost(d); } else { QueryRoundTrip(d); }
    }
  }

  lemma OctetsRoundTrip(ip: nat)
    requires ip < 0x1_0000_0000
    ensures var o := Octets(ip); FromOctets(o[0], o[1], o[2], o[3]) == ip
  {
    assert ip / 0x100 == 256 * (ip / 0x1_0000) + ip / 0x100 % 256;
    assert ip / 0x1_0000 == 256 * (ip / 0x100_0000) + ip / 0x1_0000 % 256;
  }

  lemma LaidOut(h: seq<Byte>, e: seq<Byte>, z: seq<Byte>, t: seq<Byte>, r: seq<Byte>, o: seq<Byte>)
    ensures var data := h + (e + z + t) + r + o;
            && data == h + e + (z + (t + (r + o)))
            && data[|h| + |e| + |z| + |t|..] == r + o
            && (forall i :: 0 <= i < |h| ==> data[i] == h[i])
  {
  }

  /** Where the answer record stands, and that skipping the question leads there. */
  lemma AnswerLayout(h: seq<Byte>, d: Name, r: seq<Byte>, o: seq<Byte>, data: seq<Byte>, n: nat)
    requires |h| == 12 && data == h + Question(d) + r + o && n == 12 + |EncodeLabels(Split(d))| + 1
    requires forall l :: l in Split(d) ==> 1 <= |l| < 192
    ensures SkippedName(data, 12) == n
    ensures n + 4 <= |data| && data[n + 4..] == r + o
    ensures data[6] == h[6] && data[7] == h[7]
  {
    var post := [0, 1, 0, 1] + (r + o);
    LaidOut(h, EncodeLabels(Split(d)), [0], [0, 1, 0, 1], r, o);
    EncodesName(data, h, Split(d), post);
    SkipLabels(data, 12, Split(d), n);
  }

  /** A label of 192 octets or more is taken for a pointer, and the skipping stops inside the name. */
  lemma {:induction false} SkipStops(data: seq<Byte>, pos: nat, labels: seq<Name>, end: nat)
    requires (forall l :: l in labels ==> 1 <= |l| <= 255) && (exists l :: l in labels && |l| >= 192)
    requires NameAt(data, pos, labels) && end == pos + |EncodeLabels(labels)| + 1
    ensures SkippedName(data, pos) < end
    decreases labels
  {
    assert labels[0] in labels;
    EncodedSize(labels);
    if |labels[0]| < 192 {
      var l :| l in labels && |l| >= 192;
      assert l in labels[1..];
      SkipStops(data, pos + 1 + |labels[0]|, labels[1..], end);
    }
  }

  /** The client finds the end of the question, if and only if no label has 192 octets or more. */
  lemma SkipExactly(h: seq<Byte>, d: Name, r: seq<Byte>, o: seq<Byte>, data: seq<Byte>, n: nat)
    requires |h| == 12 && data == h + Question(d) + r + o && n == 12 + |EncodeLabels(Split(d))| + 1
    requires QueryableName(d)
    ensures SkippedName(data, 12) == n <==> forall l :: l in Split(d) ==> |l| < 192
  {
    LabelsEncode(d);
    LaidOut(h, EncodeLabels(Split(d)), [0], [0, 1, 0, 1], r, o);
    EncodesName(data, h, Split(d), [0, 1, 0, 1] + (r + o));
    if forall l :: l in Split(d) ==> |l| < 192 {
      SkipLabels(data, 12, Split(d), n);
    } else {
      SkipStops(data, 12, Split(d), n);
    }
  }

  function LongLabel(): Name {
    seq(192, _ => 97)
  }

  lemma LongQuestion()
    ensures Question(LongLabel()) == [192] + LongLabel() + [0] + [0, 1, 0, 1]
  {
    var d := LongLabel();
    SplitWhole(d, DOT);
    var one: seq<Name> := [d];
    assert one[1..] == [];
    Unit([192] + d);
    EncodeHead(one);
  }

  lemma LongLayout(h: seq<Byte>, d: seq<Byte>, r: seq<Byte>, o: seq<Byte>)
    requires |h| == 12 && |d| == 192 && d[5] == 97 && d[103] == 97 && |r| == 12 && |o| == 4
    ensures var data := h + ([192] + d + [0] + [0, 1, 0, 1]) + r + o;
            && |data| == 226 && data[6] == h[6] && data[7] == h[7]
            && data[12] == 192 && data[18] == 97 && data[116] == 97
            && data[214] == r[4] && data[215] == r[5] && data[216] == r[6]
  {
  }

  lemma LongLabelBytes(id: nat, ip: nat)
    ensures var data := ResponseBytes(id, Question(LongLabel()), ip);
            && |data| == 226 && data[6] == 0 && data[7] == 1
            && data[12] == 192 && data[18] == 97 && data[116] == 97
            && data[214] == 0 && data[215] == 1 && data[216] == 0
  {
    LongQuestion();
    LongLayout(ResponseHeader(id), LongLabel(), ANSWER_RECORD, Octets(ip));
  }

  /** A name of one such label is queried, answered, and its answer not understood. */
  lemma LongLabelUnread(id: nat, ip: nat)
    ensures Accepted(QueryBytes(LongLabel())) == Some((0xABCD, LongLabel(), |Question(LongLabel())|))
    ensures ReadA(ResponseBytes(id, Question(LongLabel()), ip)) == None
  {
    var data := ResponseBytes(id, Question(LongLabel()), ip);
    LongLabelBytes(id, ip);
    assert SkippedName(data, 12) == 14;
    assert SkippedName(data, 214) == 215;
    assert SkippedName(data, 116) == SkippedName(data, 214);
    assert SkippedName(data, 18) == SkippedName(data, 116);
    assert FirstA(data, 18, 1) == None;
    AsciiIsUtf8(LongLabel());
    SplitWhole(LongLabel(), DOT);
    QueryRoundTrip(LongLabel());
  }

  lemma {:induction false} AsciiIsUtf8(s: seq<Byte>)
    requires forall i :: 0 <= i < |s| ==> s[i] < 0x80
    ensures ValidUtf8(s)
  {
    if s != [] { AsciiIsUtf8(s[1..]); }
  }

  /** The client reads out of the answer the address the resolver put in. */
  lemma AnswerRoundTrip(id: nat, d: Name, ip: nat)
    requires forall l :: l in Split(d) ==> 1 <= |l| < 192
    requires ip < 0x1_0000_0000
    ensures ReadA(ResponseBytes(id, Question(d), ip)) == Some(ip)
  {
    AnswerReads(ResponseHeader(id), d, ip);
  }

  lemma AnswerReads(h: seq<Byte>, d: Name, ip: nat)
    requires |h| == 12 && h[6] == 0 && h[7] == 1
    requires forall l :: l in Split(d) ==> 1 <= |l| < 192
    requires ip < 0x1_0000_0000
    ensures ReadA(h + Question(d) + ANSWER_RECORD + Octets(ip)) == Some(ip)
  {
    var data, n := h + Question(d) + ANSWER_RECORD + Octets(ip), 12 + |EncodeLabels(Split(d))| + 1;
    AnswerLayout(h, d, ANSWER_RECORD, Octets(ip), data, n);
    ReadAnswer(data, n, ip);
  }

  lemma ReadAnswer(data: seq<Byte>, n: nat, ip: nat)
    requires |data| >= 12 && data[6] == 0 && data[7] == 1
    requires SkippedName(data, 12) == n && n + 4 <= |data| && data[n + 4..] == ANSWER_RECORD + Octets(ip)
    requires ip < 0x1_0000_0000
    ensures ReadA(data) == Some(ip)
  {
    ReadRecord(data, n + 4, ip);
  }

  lemma ReadRecord(data: seq<Byte>, p: nat, ip: nat)
    requires p <= |data| && data[p..] == ANSWER_RECORD + Octets(ip)
    requires ip < 0x1_0000_0000
    ensures FirstA(data, p, 1) == Some(ip)
  {
    var r := data[p..];
    assert |r| == 16;
    assert forall k :: 0 <= k < 16 ==> data[p + k] == r[k];
    assert data[p] == r[0] == 0xC0;
    OctetsRoundTrip(ip);
  }

  /** From the name through query, question, allocation, answer and A record back
      to the name: asking for `d` yields the address now allocated to it, which
      looks up to lower-case `d` until its entry expires. */
  lemma DnsRoundTrip(s: State, d: Name, clock: Clock, s': State, ip: nat, later: nat)
    requires QueryableName(d) && forall l :: l in Split(d) ==> |l| < 192
    requires Inv(s, clock.first) && Runs(clock, s) && Allocates(s, Lower(d), clock, s', ip) && clock.last <= later
    ensures Accepted(QueryBytes(d)) == Some((0xABCD, d, |Question(d)|))
    ensures ReadA(ResponseBytes(0xABCD, QueryBytes(d)[12..12 + |Question(d)|], ip)) == Some(ip)
    ensures ip in s'.entries
    ensures later - s'.entries[ip].created < s'.ttl ==> LookedUp(s', ip, later).1 == Some(Lower(d))
  {
    QueryRoundTrip(d);
    AllocatesInv(s, Lower(d), clock, s', ip);
    AnswerRoundTrip(0xABCD, d, ip);
    LookupAfterAllocate(s, Lower(d), clock, s', ip, later);
  }

  // ---- Every query ----

  /** Labels parse to what stands on the wire, and only to that. */
  lemma ParsesExactly(data: seq<Byte>, pos: nat, labels: seq<Name>, end: nat)
    ensures ParseLabels(data, pos) == Some((labels, end)) <==>
            Encodable(labels) && NameAt(data, pos, labels) && end == pos + |EncodeLabels(labels)| + 1
  {
    if Encodable(labels) && NameAt(data, pos, labels) {
      ParseName(data, pos, labels, pos + |EncodeLabels(labels)| + 1);
    } else if ParseLabels(data, pos) == Some((labels, end)) {
      ParsedIsThere(data, pos, labels, end);
    }
  }

  lemma {:induction false} ParsedIsThere(data: seq<Byte>, pos: nat, labels: seq<Name>, end: nat)
    requires ParseLabels(data, pos) == Some((labels, end))
    ensures Encodable(labels) && NameAt(data, pos, labels) && end == pos + |EncodeLabels(labels)| + 1
    decreases labels
  {
    if labels != [] {
      var next := pos + 1 + |labels[0]|;
      ParsedHead(data, pos, labels, end);
      ParsedIsThere(data, next, labels[1..], end);
      EncodableCons(labels);
      EncodedSize(labels);
      NameStep(data, pos, labels, next);
    }
  }

  lemma EncodableCons(labels: seq<Name>)
    requires labels != [] && 1 <= |labels[0]| <= 255 && ValidUtf8(labels[0]) && Encodable(labels[1..])
    ensures Encodable(labels)
  {
    forall l | l in labels ensures 1 <= |l| <= 255 && ValidUtf8(l) {
      if l != labels[0] { assert l in labels[1..]; }
    }
  }

  lemma ParsedHead(data: seq<Byte>, pos: nat, labels: seq<Name>, end: nat)
    requires labels != [] && ParseLabels(data, pos) == Some((labels, end))
    ensures 1 <= |labels[0]| <= 255 && ValidUtf8(labels[0])
    ensures var next := pos + 1 + |labels[0]|;
            && next <= |data| && data[pos] == |labels[0]| && data[pos + 1..next] == labels[0]
            && ParseLabels(data, next) == Some((labels[1..], end))
  {
    var part := data[pos + 1..pos + 1 + data[pos]];
    var rest := ParseLabels(data, pos + 1 + data[pos]);
    assert ([part] + rest.value.0)[1..] == rest.value.0;
  }

  /** The octets are a question for an address of the domain with those labels: class IN, type A. */
  predicate AsksFor(question: seq<Byte>, labels: seq<Name>) {
    var n := |EncodeLabels(labels)| + 1;
    && Encodable(labels) && |Join(labels)| <= MAX_DOMAIN_LEN && NameAt(question, 0, labels)
    && n + 4 <= |question| && question[n..n + 4] == [0, 1, 0, 1]
  }

  lemma QuestionOf(data: seq<Byte>, d: Name, qlen: nat) returns (labels: seq<Name>, end: nat)
    requires ParsedQuestion(data) == Some((d, 1, 1, qlen))
    ensures ParseLabels(data, 0) == Some((labels, end)) && qlen == end + 4 <= |data|
    ensures d == Join(labels) && |d| <= MAX_DOMAIN_LEN
    ensures data[end..end + 4] == [0, 1, 0, 1]
  {
    labels, end := ParseLabels(data, 0).value.0, ParseLabels(data, 0).value.1;
    Words(data, end);
  }

  lemma QuestionThere(data: seq<Byte>, d: Name, qlen: nat) returns (labels: seq<Name>)
    requires ParsedQuestion(data) == Some((d, 1, 1, qlen))
    ensures AsksFor(data, labels) && d == Join(labels) && qlen == |EncodeLabels(labels)| + 5
  {
    var end;
    labels, end := QuestionOf(data, d, qlen);
    ParsedIsThere(data, 0, labels, end);
  }

  lemma QuestionParses(data: seq<Byte>, labels: seq<Name>)
    requires AsksFor(data, labels)
    ensures ParsedQuestion(data) == Some((Join(labels), 1, 1, |EncodeLabels(labels)| + 5))
  {
    var end := |EncodeLabels(labels)| + 1;
    ParsesExactly(data, 0, labels, end);
    Words(data, end);
  }

  /** A header that is answered: QR and OPCODE zero, and at least one question. */
  predicate QueryHeader(query: seq<Byte>, id: int) {
    && |query| >= 12 && id == 256 * (query[0] as int) + query[1] as int
    && query[2] < 8 && (query[4] != 0 || query[5] != 0)
  }

  lemma AcceptedBy(query: seq<Byte>, id: nat, d: Name, qlen: nat)
    ensures Accepted(query) == Some((id, d, qlen)) <==>
            QueryHeader(query, id) && ParsedQuestion(query[12..]) == Some((d, 1, 1, qlen))
  {
  }

  /** Of all octet strings exactly these are answered: a header, whose first word is the id,
      with QR and OPCODE zero and at least one question, and the first question one for an
      address; whatever comes behind it is ignored. */
  lemma AcceptedExactly(query: seq<Byte>, id: nat, d: Name, qlen: nat)
    ensures Accepted(query) == Some((id, d, qlen)) <==>
            QueryHeader(query, id) &&
            exists labels :: AsksFor(query[12..], labels) && d == Join(labels) && qlen == |EncodeLabels(labels)| + 5
  {
    AcceptedBy(query, id, d, qlen);
    if QueryHeader(query, id) {
      if ParsedQuestion(query[12..]) == Some((d, 1, 1, qlen)) {
        var labels := QuestionThere(query[12..], d, qlen);
      }
      if labels :| AsksFor(query[12..], labels) && d == Join(labels) && qlen == |EncodeLabels(labels)| + 5 {
        QuestionParses(query[12..], labels);
      }
    }
  }

  lemma Words(data: seq<Byte>, n: nat)
    requires n + 4 <= |data|
    ensures data[n..n + 4] == [0, 1, 0, 1] <==>
            U16(data[n], data[n + 1]) == 1 && U16(data[n + 2], data[n + 3]) == 1
  {
    var w := data[n..n + 4];
    assert w[0] == data[n] && w[1] == data[n + 1] && w[2] == data[n + 2] && w[3] == data[n + 3];
  }

  /** Four octets as an address, most significant first. */
  function AddressIn(o: seq<Byte>): (ip: nat)
    requires |o| == 4
    ensures ip < 0x1_0000_0000
  {
    0x100_0000 * (o[0] as int) + 0x1_0000 * (o[1] as int) + 0x100 * (o[2] as int) + o[3] as int
  }

  /** The answer carries the query's own id and question, one answer that points to the name
      of that question, and the address, most significant octet first. */
  lemma AnswerMirrors(query: seq<Byte>, id: nat, d: Name, qlen: nat, ip: nat)
    requires Accepted(query) == Some((id, d, qlen)) && ip < 0x1_0000_0000
    ensures var response, n := ResponseBytes(id, query[12..12 + qlen], ip), 12 + qlen + 12;
            && |response| == n + 4
            && response[..n] == query[..2] + [0x81, 0x80, 0, 1, 0, 1, 0, 0, 0, 0] + query[12..12 + qlen] +
                                [0xC0, 0x0C, 0, 1, 0, 1, 0, 0, 0, 60, 0, 4]
            && ip == AddressIn(response[n..])
  {
    OctetsRoundTrip(ip);
    assert ResponseHeader(id) == query[..2] + [0x81, 0x80, 0, 1, 0, 1, 0, 0, 0, 0];
    AcceptedBy(query, id, d, qlen);
    var front := ResponseHeader(id) + query[12..12 + qlen] + ANSWER_RECORD;
    Front(front, Octets(ip));
    assert (front + Octets(ip))[|front|..] == Octets(ip);
  }

  lemma Front(a: seq<Byte>, b: seq<Byte>)
    ensures (a + b)[..|a|] == a && forall i :: 0 <= i < |b| ==> (a + b)[|a| + i] == b[i]
  {
  }

  // ---- Every answer ----

  /** A name in a message: labels, then the root label or a pointer. */
  datatype WireName = Root | Compressed(hi: Byte, lo: Byte) | Labelled(first: Name, rest: WireName)

  predicate WellFormed(n: WireName) {
    match n
    case Root => true
    case Compressed(hi, _) => hi >= 0xC0
    case Labelled(l, rest) => 1 <= |l| < 192 && WellFormed(rest)
  }

  function NameBytes(n: WireName): (r: seq<Byte>)
    requires WellFormed(n)
    ensures r != []
  {
    match n
    case Root => [0]
    case Compressed(hi, lo) => [hi, lo]
    case Labelled(l, rest) => [|l|] + l + NameBytes(rest)
  }

  /** A resource record: its name, type, class and time to live, and its data. */
  datatype Record = Record(name: WireName, rtype: nat, rest: seq<Byte>, data: seq<Byte>)

  predicate ProperRecord(r: Record) {
    WellFormed(r.name) && r.rtype < 0x1_0000 && |r.rest| == 6 && |r.data| < 0x1_0000
  }

  function Word(w: nat): (r: seq<Byte>)
    requires w < 0x1_0000
    ensures |r| == 2 && U16(r[0], r[1]) == w
  {
    [w / 256, w % 256]
  }

  function RecordBytes(r: Record): (b: seq<Byte>)
    requires ProperRecord(r)
    ensures |b| >= 10
  {
    NameBytes(r.name) + (Word(r.rtype) + r.rest + Word(|r.data|) + r.data)
  }

  predicate ProperRecords(records: seq<Record>) {
    records == [] || (ProperRecord(records[0]) && ProperRecords(records[1..]))
  }

  function AllBytes(records: seq<Record>): seq<Byte>
    requires ProperRecords(records)
  {
    if records == [] then [] else RecordBytes(records[0]) + AllBytes(records[1..])
  }

  predicate IsAddress(r: Record) {
    r.rtype == 1 && |r.data| == 4
  }

  lemma {:induction false} SkipsName(data: seq<Byte>, pos: nat, n: WireName, post: seq<Byte>)
    requires WellFormed(n) && pos <= |data| && data[pos..] == NameBytes(n) + post
    ensures SkippedName(data, pos) == pos + |NameBytes(n)|
    decreases n
  {
    var here := data[pos..];
    assert here[0] == data[pos];
    if n.Labelled? {
      var next := pos + 1 + |n.first|;
      Grouping([|n.first|] + n.first, NameBytes(n.rest), post);
      Behind(data, pos, [|n.first|] + n.first, NameBytes(n.rest) + post);
      SkipsName(data, next, n.rest, post);
    }
  }

  lemma Behind(data: seq<Byte>, pos: nat, a: seq<Byte>, b: seq<Byte>)
    requires pos <= |data| && data[pos..] == a + b
    ensures pos + |a| <= |data| && data[pos + |a|..] == b
    ensures forall i :: 0 <= i < |a| ==> data[pos + i] == a[i]
  {
    assert data[pos..][|a|..] == b;
    forall i | 0 <= i < |a| ensures data[pos + i] == a[i] { assert data[pos..][i] == (a + b)[i]; }
  }

  lemma RecordFields(data: seq<Byte>, p: nat, r: Record, post: seq<Byte>)
    requires ProperRecord(r) && p <= |data|
    requires data[p..] == Word(r.rtype) + r.rest + Word(|r.data|) + r.data + post
    ensures p + 10 + |r.data| <= |data| && data[p + 10 + |r.data|..] == post
    ensures U16(data[p], data[p + 1]) == r.rtype && U16(data[p + 8], data[p + 9]) == |r.data|
    ensures forall i :: 0 <= i < |r.data| ==> data[p + 10 + i] == r.data[i]
  {
    var head := Word(r.rtype) + r.rest + Word(|r.data|);
    Grouping(head, r.data, post);
    Behind(data, p, head, r.data + post);
    assert head[0] == Word(r.rtype)[0] && head[1] == Word(r.rtype)[1];
    assert head[8] == Word(|r.data|)[0] && head[9] == Word(|r.data|)[1];
    Behind(data, p + 10, r.data, post);
  }

  /** Where a record stands, and what its fields say. */
  ghost predicate RecordAt(data: seq<Byte>, pos: nat, r: Record)
    requires WellFormed(r.name)
  {
    var p := pos + |NameBytes(r.name)|;
    && pos < |data| && SkippedName(data, pos) == p && p + 10 + |r.data| <= |data|
    && U16(data[p], data[p + 1]) == r.rtype && U16(data[p + 8], data[p + 9]) == |r.data|
    && forall i :: 0 <= i < |r.data| ==> data[p + 10 + i] == r.data[i]
  }

  lemma RecordStands(data: seq<Byte>, pos: nat, r: Record, post: seq<Byte>)
    requires ProperRecord(r) && pos <= |data| && data[pos..] == RecordBytes(r) + post
    ensures RecordAt(data, pos, r)
    ensures var next := pos + |RecordBytes(r)|; next <= |data| && data[next..] == post
  {
    var fields := Word(r.rtype) + r.rest + Word(|r.data|) + r.data;
    var p := pos + |NameBytes(r.name)|;
    Grouping(NameBytes(r.name), fields, post);
    SkipsName(data, pos, r.name, fields + post);
    Behind(data, pos, NameBytes(r.name), fields + post);
    RecordFields(data, p, r, post);
  }

  /** A record is read, or the next one is looked for behind it. */
  lemma RecordRead(data: seq<Byte>, pos: nat, r: Record, count: nat)
    requires count > 0 && ProperRecord(r) && RecordAt(data, pos, r)
    ensures FirstA(data, pos, count) ==
              if IsAddress(r) then Some(AddressIn(r.data)) else FirstA(data, pos + |RecordBytes(r)|, count - 1)
  {
    var p, o := pos + |NameBytes(r.name)|, r.data;
    assert p + 10 + |o| == pos + |RecordBytes(r)|;
    if IsAddress(r) {
      assert data[p + 10 + 0] == o[0] && data[p + 10 + 1] == o[1] && data[p + 10 + 2] == o[2]
      && data[p + 10 + 3] == o[3];
    }
  }

  ghost predicate RecordsAt(data: seq<Byte>, pos: nat, records: seq<Record>)
    requires ProperRecords(records)
    decreases records
  {
    records == [] ||
    (RecordAt(data, pos, records[0]) && RecordsAt(data, pos + |RecordBytes(records[0])|, records[1..]))
  }

  lemma {:induction false} RecordsStand(data: seq<Byte>, pos: nat, records: seq<Record>, post: seq<Byte>)
    requires ProperRecords(records) && pos <= |data| && data[pos..] == AllBytes(records) + post
    ensures RecordsAt(data, pos, records)
    decreases records
  {
    if records != [] {
      FirstStands(data, pos, records, post);
      RecordsStand(data, pos + |RecordBytes(records[0])|, records[1..], post);
    }
  }

  lemma FirstStands(data: seq<Byte>, pos: nat, records: seq<Record>, post: seq<Byte>)
    requires ProperRecords(records) && records != [] && pos <= |data| && data[pos..] == AllBytes(records) + post
    ensures RecordAt(data, pos, records[0])
    ensures var next := pos + |RecordBytes(records[0])|;
            next <= |data| && data[next..] == AllBytes(records[1..]) + post
  {
    RecordsApart(records, post);
    RecordStands(data, pos, records[0], AllBytes(records[1..]) + post);
  }

  /** The first of the first `count` records that is an address. */
  function FirstAddress(records: seq<Record>, count: nat): Option<nat> {
    if count == 0 || records == [] then None
    else if IsAddress(records[0]) then Some(AddressIn(records[0].data))
    else FirstAddress(records[1..], count - 1)
  }

  lemma {:induction false} FirstAddressAt(records: seq<Record>, count: nat, i: nat)
    requires i <= count <= |records| && forall k :: 0 <= k < i ==> !IsAddress(records[k])
    ensures i < count && IsAddress(records[i]) ==> FirstAddress(records, count) == Some(AddressIn(records[i].data))
    ensures i == count ==> FirstAddress(records, count) == None
    decreases records
  {
    if i > 0 {
      assert forall k :: 0 <= k < i - 1 ==> records[1..][k] == records[k + 1];
      FirstAddressAt(records[1..], count - 1, i - 1);
    }
  }

  lemma {:induction false} ReadsRecords(data: seq<Byte>, pos: nat, records: seq<Record>, count: nat)
    requires ProperRecords(records) && count <= |records| && RecordsAt(data, pos, records)
    ensures FirstA(data, pos, count) == FirstAddress(records, count)
    decreases records
  {
    if count > 0 {
      RecordRead(data, pos, records[0], count);
      ReadsRecords(data, pos + |RecordBytes(records[0])|, records[1..], count - 1);
    }
  }

  lemma RecordsApart(records: seq<Record>, post: seq<Byte>)
    requires ProperRecords(records) && records != []
    ensures ProperRecord(records[0]) && ProperRecords(records[1..])
    ensures AllBytes(records) + post == RecordBytes(records[0]) + (AllBytes(records[1..]) + post)
  {
    Grouping(RecordBytes(records[0]), AllBytes(records[1..]), post);
  }

  /** The message: header, first question and records, and anything behind them. */
  function Message(h: seq<Byte>, name: WireName, kind: seq<Byte>, records: seq<Record>, post: seq<Byte>): seq<Byte>
    requires WellFormed(name) && ProperRecords(records)
  {
    h + (NameBytes(name) + (kind + (AllBytes(records) + post)))
  }

  lemma MessageRead(h: seq<Byte>, name: WireName, kind: seq<Byte>, records: seq<Record>, post: seq<Byte>)
    requires |h| == 12 && WellFormed(name) && |kind| == 4 && ProperRecords(records)
    requires 0 < U16(h[6], h[7]) <= |records|
    ensures ReadA(Message(h, name, kind, records, post)) == FirstAddress(records, U16(h[6], h[7]))
  {
    var data, n := Message(h, name, kind, records, post), 12 + |NameBytes(name)|;
    var rest := AllBytes(records) + post;
    RecordsStart(data, h, name, kind, rest);
    StandingRead(data, n, records, rest, post, U16(h[6], h[7]));
  }

  lemma StandingRead(data: seq<Byte>, n: nat, records: seq<Record>, rest: seq<Byte>, post: seq<Byte>, count: nat)
    requires ProperRecords(records) && rest == AllBytes(records) + post && 0 < count <= |records|
    requires |data| >= 12 && U16(data[6], data[7]) == count && SkippedName(data, 12) == n
    requires n + 4 <= |data| && data[n + 4..] == rest
    ensures ReadA(data) == FirstAddress(records, count)
  {
    RecordsStand(data, n + 4, records, post);
    ReadsRecords(data, n + 4, records, count);
    ReadFrom(data, n, count);
  }

  lemma ReadFrom(data: seq<Byte>, n: nat, count: nat)
    requires |data| >= 12 && U16(data[6], data[7]) == count > 0 && SkippedName(data, 12) == n
    ensures ReadA(data) == FirstA(data, n + 4, count)
  {
  }

  lemma RecordsStart(data: seq<Byte>, h: seq<Byte>, name: WireName, kind: seq<Byte>, rest: seq<Byte>)
    requires |h| == 12 && WellFormed(name) && |kind| == 4 && data == h + (NameBytes(name) + (kind + rest))
    ensures var n := 12 + |NameBytes(name)|;
            && n + 4 <= |data| && SkippedName(data, 12) == n && data[n + 4..] == rest
            && data[6] == h[6] && data[7] == h[7]
  {
    assert data[0..] == data;
    Behind(data, 0, h, NameBytes(name) + (kind + rest));
    assert data[0 + 6] == h[6] && data[0 + 7] == h[7];
    SkipsName(data, 12, name, kind + rest);
    Behind(data, 12, NameBytes(name), kind + rest);
    Behind(data, 12 + |NameBytes(name)|, kind, rest);
  }

  /** In an answer with any records, such as aliases before the addresses, the client reads
      the first of the announced ones that is of type A with four octets; and no other. */
  lemma ReadsFirstAddress(h: seq<Byte>, name: WireName, kind: seq<Byte>, records: seq<Record>, post: seq<Byte>, i: nat)
    requires |h| == 12 && WellFormed(name) && |kind| == 4 && ProperRecords(records)
    requires var count := 256 * (h[6] as int) + h[7] as int;
             0 < count <= |records| && i <= count && forall k :: 0 <= k < i ==> !IsAddress(records[k])
    ensures var data, count := Message(h, name, kind, records, post), 256 * (h[6] as int) + h[7] as int;
            && (i < count && IsAddress(records[i]) ==> ReadA(data) == Some(AddressIn(records[i].data)))
            && (i == count ==> ReadA(data) == None)
  {
    MessageRead(h, name, kind, records, post);
    FirstAddressAt(records, U16(h[6], h[7]), i);
  }
}
