/** Downloading one file through a resumable partial: published only when complete
    and, if the manifest names a hash, only with that hash. */
module Download {
  import opened Prelude
  import opened SyncPaths
  import opened Digests

  /** What is on disk for one entry: the partial and the published file. */
  datatype Local = Local(part: Option<Content>, dest: Option<Content>)

  /** How the body of an answer ends: read to its end, cancelled or cut before the
      chunk with that number is written, or failing to write it after some bytes. */
  datatype Stop = Finished | Cancelled(at: nat) | Cut(at: nat) | WriteFails(at: nat, written: nat)

  datatype Reply = NoReply | Refused | Answer(ranged: bool, chunks: seq<Content>, stop: Stop)

  /** The bytes that reach the partial from chunk `i` on, and whether the body was read to its end. */
  function Landed(chunks: seq<Content>, stop: Stop, i: nat): (Content, bool)
    requires i <= |chunks|
    decreases |chunks| - i
  {
    if stop == Cut(i) then ([], false)
    else if i == |chunks| then ([], true)
    else if stop == Cancelled(i) then ([], false)
    else if stop.WriteFails? && stop.at == i then
      (chunks[i][..if stop.written < |chunks[i]| then stop.written else |chunks[i]|], false)
    else
      var (rest, done) := Landed(chunks, stop, i + 1);
      (chunks[i] + rest, done)
  }

  /** The partial worth resuming: neither empty nor already as long as the file should be. */
  function Resumable(e: Entry, s: Local): Option<Content> {
    if s.part.Some? && 0 < |s.part.value| < e.size then s.part else None
  }

  function ResumeFrom(e: Entry, s: Local): nat {
    if Resumable(e, s).Some? then |Resumable(e, s).value| else 0
  }

  /** Whether each call on the local disk that can fail works in one attempt: creating the
      folder, removing a partial, opening one, and the final rename. */
  datatype Io = Io(makesDir: bool, removes: bool, opens: bool, renames: bool)

  predicate Clean(io: Io) {
    io.makesDir && io.removes && io.opens && io.renames
  }

  datatype Attempt = Attempt(reply: Reply, io: Io)

  /** What is left of the partial before anything is requested. */
  function Prepared(e: Entry, s: Local, io: Io): Option<Content> {
    if Resumable(e, s).Some? || io.removes then Resumable(e, s) else s.part
  }

  /** What one attempt leaves on disk, and whether it succeeded. */
  function Attempted(sha: Content -> string, e: Entry, s: Local, a: Attempt): (Local, bool) {
    if Destination(e.path).None? || !a.io.makesDir then (s, false)
    else
      var ready, r := s.(part := Prepared(e, s, a.io)), a.reply;
      if !r.Answer? || !a.io.opens then (ready, false)
      else
        var (bytes, done) := Landed(r.chunks, r.stop, 0);
        var file := Start(e, s, r) + bytes;
        if !done then (s.(part := Some(file)), false)
        else if e.sha256 != "" && !SameHex(sha(file), e.sha256) then
          (s.(part := if a.io.removes then None else Some(file)), false)
        else if !a.io.renames then (s.(part := Some(file)), false)
        else (Local(None, Some(file)), true)
  }

  method DownloadEntry(sha: Content -> string, e: Entry, s: Local, a: Attempt) returns (s': Local, ok: bool)
    ensures (s', ok) == Attempted(sha, e, s, a)
  {
    s' := s;
    var dest := SafeDestination(e.path);
    if dest.None? || !a.io.makesDir { return s', false; }
    var resumeFrom := 0;
    if s'.part.Some? {
      var n := |s'.part.value|;
      if n > 0 && n < e.size {
        resumeFrom := n;
      } else if a.io.removes {
        s' := s'.(part := None);
      }
    }
    var r := a.reply;
    if !r.Answer? { return s', false; }
    var appending := resumeFrom > 0 && r.ranged;
    if !a.io.opens { return s', false; }
    var hashed: Content := [];
    if appending {
      hashed := s'.part.value;
    } else {
      s' := s'.(part := Some([]));
    }
    var done;
    s', hashed, done := ReadBody(r, s', hashed);
    if !done { return s', false; }
    var got := sha(hashed);
    if e.sha256 != "" && !SameHex(got, e.sha256) {
      if a.io.removes { s' := s'.(part := None); }
      return s', false;
    }
    if !a.io.renames { return s', false; }
    return Local(None, s'.part), true;
  }

  /** The chunk loop: what is hashed is what is in the partial, until a write fails. */
  method ReadBody(r: Reply, s: Local, start: Content) returns (s': Local, hashed: Content, done: bool)
    requires r.Answer? && s.part == Some(start)
    ensures var (bytes, finished) := Landed(r.chunks, r.stop, 0);
            s' == s.(part := Some(start + bytes)) && done == finished && (done ==> hashed == start + bytes)
  {
    s', hashed := s, start;
    var i := 0;
    while true
      invariant 0 <= i <= |r.chunks|
      invariant s' == s.(part := Some(hashed))
      invariant (var (rest, done) := Landed(r.chunks, r.stop, i); (hashed + rest, done)) ==
                (var (all, done) := Landed(r.chunks, r.stop, 0); (start + all, done))
      decreases |r.chunks| - i
    {
      if r.stop == Cut(i) {
        assert hashed + [] == hashed;
        return s', hashed, false;
      }
      if i == |r.chunks| {
        assert hashed + [] == hashed;
        return s', hashed, true;
      }
      var chunk := r.chunks[i];
      if r.stop == Cancelled(i) {
        assert hashed + [] == hashed;
        return s', hashed, false;
      }
      if r.stop.WriteFails? && r.stop.at == i {
        s' := s'.(part := Some(s'.part.value + chunk[..if r.stop.written < |chunk| then r.stop.written else |chunk|]));
        return s', hashed + chunk, false;
      }
      ghost var rest := Landed(r.chunks, r.stop, i + 1).0;
      assert hashed + (chunk + rest) == hashed + chunk + rest;
      hashed := hashed + chunk;
      s' := s'.(part := Some(s'.part.value + chunk));
      i := i + 1;
    }
  }

  // ---- Whatever the agent answers ----

  /** A success publishes content verified against the entry; a failure leaves the published file alone. */
  lemma PublishedIsVerified(sha: Content -> string, e: Entry, s: Local, a: Attempt)
    ensures var (s', ok) := Attempted(sha, e, s, a);
            if ok then s'.dest.Some? && Verified(sha, e, s'.dest.value) && s'.part == None else s'.dest == s.dest
  {
  }

  function Attempts(sha: Content -> string, e: Entry, s: Local, attempts: seq<Attempt>): Local
    decreases attempts
  {
    if attempts == [] then s else Attempts(sha, e, Attempted(sha, e, s, attempts[0]).0, attempts[1..])
  }

  /** After any sequence of attempts, against any agents, cancelled, cut or failing anywhere:
      if the entry names the hash of `c`, the published file is `c` or the old one. */
  lemma {:induction false} OnlyNamedContentAppears(sha: Content -> string, e: Entry, s: Local, attempts: seq<Attempt>,
                                                   c: Content)
    requires IsDigest(sha) && e.sha256 != "" && SameHex(e.sha256, sha(c))
    ensures Attempts(sha, e, s, attempts).dest == s.dest || Attempts(sha, e, s, attempts).dest == Some(c)
    decreases attempts
  {
    if attempts != [] {
      var (s', ok) := Attempted(sha, e, s, attempts[0]);
      PublishedIsVerified(sha, e, s, attempts[0]);
      if ok { assert sha(s'.dest.value) == sha(c); }
      OnlyNamedContentAppears(sha, e, s', attempts[1..], c);
    }
  }

  // ---- Against an agent that serves one content ----

  lemma {:induction false} FlattenSplit(chunks: seq<Content>, i: nat)
    requires i < |chunks|
    ensures Flatten(chunks[i..]) == chunks[i] + Flatten(chunks[i + 1..])
  {
    assert chunks[i..][1..] == chunks[i + 1..];
  }

  /** What lands is a prefix of the body, and all of it once the body was read to its end. */
  lemma {:induction false} LandedIsPrefix(chunks: seq<Content>, stop: Stop, i: nat)
    requires i <= |chunks|
    ensures var (bytes, done) := Landed(chunks, stop, i);
            bytes <= Flatten(chunks[i..]) && (done ==> bytes == Flatten(chunks[i..]))
    decreases |chunks| - i
  {
    if i < |chunks| {
      FlattenSplit(chunks, i);
      LandedIsPrefix(chunks, stop, i + 1);
    }
  }

  /** The agent serves `c`: whole, or from the requested offset on if it honours the range. */
  predicate Serves(c: Content, resumeFrom: nat, r: Reply) {
    r.Answer? ==>
      && (r.ranged ==> 0 < resumeFrom <= |c|)
      && var body := if r.ranged then c[resumeFrom..] else c;
         Flatten(r.chunks) <= body && (Landed(r.chunks, r.stop, 0).1 ==> Flatten(r.chunks) == body)
  }

  predicate PrefixHeld(s: Local, c: Content) {
    s.part.Some? ==> s.part.value <= c
  }

  /** The bytes the attempt starts from. */
  function Start(e: Entry, s: Local, r: Reply): Content
    requires r.Answer?
  {
    var part := Resumable(e, s);
    if part.Some? && r.ranged then part.value else []
  }

  lemma ServedFile(e: Entry, s: Local, r: Reply, c: Content)
    requires PrefixHeld(s, c) && r.Answer? && Serves(c, ResumeFrom(e, s), r)
    ensures var (bytes, done) := Landed(r.chunks, r.stop, 0);
            Start(e, s, r) + bytes <= c && (done ==> Start(e, s, r) + bytes == c)
  {
    LandedIsPrefix(r.chunks, r.stop, 0);
    assert r.chunks[0..] == r.chunks;
    var bytes, from := Landed(r.chunks, r.stop, 0).0, ResumeFrom(e, s);
    if r.ranged {
      assert s.part.value == c[..from];
      PrefixPlus(c, from, bytes);
    } else {
      assert [] + bytes == bytes;
    }
  }

  lemma PrefixPlus(c: Content, from: nat, bytes: Content)
    requires from <= |c| && bytes <= c[from..]
    ensures c[..from] + bytes <= c && (bytes == c[from..] ==> c[..from] + bytes == c)
  {
  }

  lemma ServedAttempt(sha: Content -> string, e: Entry, s: Local, a: Attempt, c: Content)
    requires PrefixHeld(s, c) && Serves(c, ResumeFrom(e, s), a.reply)
    ensures var (s', ok) := Attempted(sha, e, s, a); PrefixHeld(s', c) && (ok ==> s'.dest == Some(c))
    ensures Destination(e.path).Some? && Completes(a) && Verified(sha, e, c) ==>
              Attempted(sha, e, s, a) == (Local(None, Some(c)), true)
  {
    if a.reply.Answer? { ServedFile(e, s, a.reply, c); }
  }

  /** The body is read to its end and nothing on the local disk fails. */
  predicate Completes(a: Attempt) {
    Clean(a.io) && a.reply.Answer? && Landed(a.reply.chunks, a.reply.stop, 0).1
  }

  /** Every reply of the run is served from `c`. */
  ghost predicate AllServe(sha: Content -> string, e: Entry, s: Local, attempts: seq<Attempt>, c: Content)
    decreases attempts
  {
    attempts == [] ||
    (Serves(c, ResumeFrom(e, s), attempts[0].reply) &&
     AllServe(sha, e, Attempted(sha, e, s, attempts[0]).0, attempts[1..], c))
  }

  /** Over any run of cancelled, cut, failing and restarted attempts the partial stays a
      prefix of the content and only the content is ever published; and one attempt that
      completes then publishes it. */
  lemma {:induction false} ResumeConverges(sha: Content -> string, e: Entry, s: Local, attempts: seq<Attempt>,
                                           c: Content)
    requires PrefixHeld(s, c) && AllServe(sha, e, s, attempts, c)
    ensures var s' := Attempts(sha, e, s, attempts);
            && PrefixHeld(s', c) && (s'.dest == s.dest || s'.dest == Some(c))
            && (Destination(e.path).Some? && Verified(sha, e, c) ==>
                  forall a: Attempt :: Serves(c, ResumeFrom(e, s'), a.reply) && Completes(a) ==>
                    Attempted(sha, e, s', a) == (Local(None, Some(c)), true))
    decreases attempts
  {
    if attempts == [] {
      forall a: Attempt | Serves(c, ResumeFrom(e, s), a.reply) { ServedAttempt(sha, e, s, a, c); }
    } else {
      ServedAttempt(sha, e, s, attempts[0], c);
      PublishedIsVerified(sha, e, s, attempts[0]);
      ResumeConverges(sha, e, Attempted(sha, e, s, attempts[0]).0, attempts[1..], c);
    }
  }

  // ---- What an interruption keeps ----

  /** The bytes that land, by the place where the body stops: all chunks before that one, and
      of a chunk whose write fails the part that was written. */
  lemma LandedExactly(chunks: seq<Content>, stop: Stop)
    ensures var landed := Landed(chunks, stop, 0);
            match stop
            case Finished => landed == (Flatten(chunks), true)
            case Cut(at) => landed == if at <= |chunks| then (Flatten(chunks[..at]), false) else (Flatten(chunks), true)
            case Cancelled(at) =>
              landed == if at < |chunks| then (Flatten(chunks[..at]), false) else (Flatten(chunks), true)
            case WriteFails(at, written) =>
              landed == if at < |chunks| then (Flatten(chunks[..at]) + Written(chunks[at], written), false)
                        else (Flatten(chunks), true)
  {
    LandedFrom(chunks, stop, 0);
    assert chunks[0..] == chunks;
    var at := StopsAt(chunks, stop);
    if at.Some? {
      assert chunks[0..at.value] == chunks[..at.value];
      Unit(Flatten(chunks[..at.value]));
    }
  }

  function Written(chunk: Content, written: nat): (r: Content)
    ensures r <= chunk && |r| == if written < |chunk| then written else |chunk|
  {
    chunk[..if written < |chunk| then written else |chunk|]
  }

  /** The number of the chunk before which the body stops. */
  function StopsAt(chunks: seq<Content>, stop: Stop): Option<nat> {
    match stop
    case Finished => None
    case Cut(at) => if at <= |chunks| then Some(at) else None
    case Cancelled(at) => if at < |chunks| then Some(at) else None
    case WriteFails(at, _) => if at < |chunks| then Some(at) else None
  }

  function LastPiece(chunks: seq<Content>, stop: Stop): Content {
    if stop.WriteFails? && stop.at < |chunks| then Written(chunks[stop.at], stop.written) else []
  }

  lemma {:induction false} LandedFrom(chunks: seq<Content>, stop: Stop, i: nat)
    requires i <= |chunks| && (StopsAt(chunks, stop).Some? ==> i <= StopsAt(chunks, stop).value)
    ensures var at := StopsAt(chunks, stop);
            Landed(chunks, stop, i) == if at.None? then (Flatten(chunks[i..]), true)
                                       else (Flatten(chunks[i..at.value]) + LastPiece(chunks, stop), false)
    decreases |chunks| - i
  {
    var at := StopsAt(chunks, stop);
    if at == Some(i) {
      assert chunks[i..i] == [];
      Unit(LastPiece(chunks, stop));
    } else if i < |chunks| {
      LandedFrom(chunks, stop, i + 1);
      var part := if at.None? then chunks[i..] else chunks[i..at.value];
      assert part[1..] == if at.None? then chunks[i + 1..] else chunks[i + 1..at.value];
      Grouping(chunks[i], Flatten(part[1..]), LastPiece(chunks, stop));
    }
  }

  /** The attempt gets as far as writing a body. */
  predicate Opened(e: Entry, a: Attempt) {
    Destination(e.path).Some? && a.io.makesDir && a.reply.Answer? && a.io.opens
  }

  /** An attempt whose body is broken off leaves the partial it resumed, if it was shorter
      than the file should be and the agent honoured the range, and behind it what landed. */
  lemma InterruptedKeeps(sha: Content -> string, e: Entry, s: Local, a: Attempt)
    requires Opened(e, a) && !Landed(a.reply.chunks, a.reply.stop, 0).1
    ensures var from := if a.reply.ranged && s.part.Some? && |s.part.value| < e.size then s.part.value else [];
            Attempted(sha, e, s, a) ==
            (Local(Some(from + Landed(a.reply.chunks, a.reply.stop, 0).0), s.dest), false)
  {
  }

  /** So it goes on from all of the partial, if and only if there was none, or one shorter than
      the file should be and an agent that honoured the range. */
  lemma ResumesExactly(sha: Content -> string, e: Entry, s: Local, a: Attempt)
    requires Opened(e, a) && !Landed(a.reply.chunks, a.reply.stop, 0).1
    ensures PartOf(Attempted(sha, e, s, a).0) == PartOf(s) + Landed(a.reply.chunks, a.reply.stop, 0).0 <==>
            PartOf(s) == [] || (a.reply.ranged && |PartOf(s)| < e.size)
  {
    InterruptedKeeps(sha, e, s, a);
    var bytes := Landed(a.reply.chunks, a.reply.stop, 0).0;
    Unit(bytes);
    assert PartOf(s) != [] ==> |PartOf(s) + bytes| != |[] + bytes|;
  }

  /** An attempt succeeds if and only if nothing fails and what is on disk at the end of the
      body, resumed and landed, has the hash that the entry names. */
  lemma SucceedsExactly(sha: Content -> string, e: Entry, s: Local, a: Attempt)
    ensures Attempted(sha, e, s, a).1 <==>
            Opened(e, a) && a.io.renames && Landed(a.reply.chunks, a.reply.stop, 0).1 &&
            var from := if a.reply.ranged && s.part.Some? && |s.part.value| < e.size then s.part.value else [];
            Verified(sha, e, from + Landed(a.reply.chunks, a.reply.stop, 0).0)
  {
  }

  /** A partial as long as the file should be, or longer, is thrown away: the attempt goes as
      it would without one. */
  lemma FullPartialDiscarded(sha: Content -> string, e: Entry, s: Local, a: Attempt)
    requires Destination(e.path).Some? && a.io.makesDir && a.io.removes
    requires s.part.Some? && |s.part.value| >= e.size
    ensures Attempted(sha, e, s, a) == Attempted(sha, e, Local(None, s.dest), a)
  {
  }

  /** A complete file with the wrong hash is thrown away. */
  lemma CorruptDiscarded(sha: Content -> string, e: Entry, s: Local, a: Attempt)
    requires Opened(e, a) && a.io.removes && Landed(a.reply.chunks, a.reply.stop, 0).1
    requires !Verified(sha, e, Start(e, s, a.reply) + Landed(a.reply.chunks, a.reply.stop, 0).0)
    ensures Attempted(sha, e, s, a) == (Local(None, s.dest), false)
  {
  }

  function PartOf(s: Local): Content {
    if s.part.Some? then s.part.value else []
  }

  /** What the attempt adds to the partial. */
  function Added(e: Entry, a: Attempt): Content {
    if Opened(e, a) then Landed(a.reply.chunks, a.reply.stop, 0).0 else []
  }

  function AllAdded(e: Entry, attempts: seq<Attempt>): Content
    decreases attempts
  {
    if attempts == [] then [] else Added(e, attempts[0]) + AllAdded(e, attempts[1..])
  }

  /** Every attempt is broken off before the end of a body, or before there is one, and an
      agent that is asked for a range answers with it. */
  ghost predicate AllInterrupted(sha: Content -> string, e: Entry, s: Local, attempts: seq<Attempt>)
    decreases attempts
  {
    attempts == [] ||
    var a := attempts[0];
    && (a.reply.Answer? ==> !Landed(a.reply.chunks, a.reply.stop, 0).1 && (0 < ResumeFrom(e, s) ==> a.reply.ranged))
    && AllInterrupted(sha, e, Attempted(sha, e, s, a).0, attempts[1..])
  }

  /** Over any run of interrupted attempts the partial only grows: it is what it was and then
      all that landed, in order, as long as that is shorter than the file. */
  lemma {:induction false} PartialGrows(sha: Content -> string, e: Entry, s: Local, attempts: seq<Attempt>)
    requires AllInterrupted(sha, e, s, attempts) && |PartOf(s)| + |AllAdded(e, attempts)| < e.size
    ensures var s' := Attempts(sha, e, s, attempts);
            PartOf(s') == PartOf(s) + AllAdded(e, attempts) && s'.dest == s.dest
    decreases attempts
  {
    if attempts == [] {
      Unit(PartOf(s));
    } else {
      var a := attempts[0];
      var s1 := Attempted(sha, e, s, a).0;
      OneGrows(sha, e, s, a);
      PartialGrows(sha, e, s1, attempts[1..]);
      Grouping(PartOf(s), Added(e, a), AllAdded(e, attempts[1..]));
    }
  }

  lemma OneGrows(sha: Content -> string, e: Entry, s: Local, a: Attempt)
    requires a.reply.Answer? ==>
               !Landed(a.reply.chunks, a.reply.stop, 0).1 && (0 < ResumeFrom(e, s) ==> a.reply.ranged)
    requires |PartOf(s)| < e.size
    ensures var s' := Attempted(sha, e, s, a).0; PartOf(s') == PartOf(s) + Added(e, a) && s'.dest == s.dest
  {
    Unit(PartOf(s));
    if Opened(e, a) { assert Start(e, s, a.reply) == PartOf(s); }
  }

  // ---- Across a change of the content ----

  /** The bytes a ranged answer is put behind begin the content it is cut from. */
  predicate StartsRight(e: Entry, s: Local, r: Reply, c: Content) {
    r.Answer? && r.ranged && Resumable(e, s).Some? ==> Resumable(e, s).value <= c
  }

  /** An attempt that succeeds against an agent now serving `c` publishes `c`, if and only if
      the partial it resumed, if any, was a prefix of `c`. */
  lemma PublishedIsServed(sha: Content -> string, e: Entry, s: Local, a: Attempt, c: Content)
    requires Serves(c, ResumeFrom(e, s), a.reply) && Attempted(sha, e, s, a).1
    ensures Attempted(sha, e, s, a).0.dest == Some(c) <==> StartsRight(e, s, a.reply, c)
  {
    var r := a.reply;
    LandedIsPrefix(r.chunks, r.stop, 0);
    assert r.chunks[0..] == r.chunks;
    var bytes := Landed(r.chunks, r.stop, 0).0;
    var part := Resumable(e, s);
    if r.ranged {
      assert part.Some? && bytes == c[|part.value|..];
      SplicedAt(part.value, c);
    } else {
      Unit(bytes);
    }
  }

  lemma SplicedAt(part: Content, c: Content)
    requires |part| <= |c|
    ensures part + c[|part|..] == c <==> part <= c
  {
    assert (part + c[|part|..])[..|part|] == part;
    if part <= c { assert part == c[..|part|]; }
  }

  /** With a named hash it is `c` in any case, if the hash is that of `c`. */
  lemma NamedIsServed(sha: Content -> string, e: Entry, s: Local, a: Attempt, c: Content)
    requires IsDigest(sha) && e.sha256 != "" && SameHex(e.sha256, sha(c)) && Attempted(sha, e, s, a).1
    ensures Attempted(sha, e, s, a).0.dest == Some(c)
  {
    PublishedIsVerified(sha, e, s, a);
    assert sha(Attempted(sha, e, s, a).0.dest.value) == sha(c);
  }

  /** Without one a splice can appear: half of [1, 1] is on disk, the agent now serves
      [2, 2] and sends its second half, and [1, 2] is published, which it never served. */
  lemma SplicePublished(sha: Content -> string)
    ensures var e, s := Entry("f", 2, ""), Local(Some([1]), None);
            var a := Attempt(Answer(true, [[2]], Finished), Io(true, true, true, true));
            && s.part.value <= [1, 1] && Serves([2, 2], ResumeFrom(e, s), a.reply)
            && Attempted(sha, e, s, a) == (Local(None, Some([1, 2])), true)
  {
    var e, s := Entry("f", 2, ""), Local(Some([1]), None);
    var r := Answer(true, [[2]], Finished);
    FileHasDestination();
    assert Landed(r.chunks, r.stop, 1) == ([], true);
    Unit(r.chunks[0]);
    assert Landed(r.chunks, r.stop, 0) == ([2], true);
    assert Flatten(r.chunks[1..]) == [] && Flatten(r.chunks) == [2];
    var served: Content := [2, 2];
    assert served[1..] == [2];
    assert Start(e, s, r) + [2] == [1, 2];
  }

  lemma FileHasDestination()
    ensures Destination("f") == Some("f")
  {
    SplitWhole("f", '/');
    KeptAll(["f"]);
    assert SafeDest("f") == Some(["f"]);
  }
}
