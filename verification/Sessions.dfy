/**
 Request after request on one connection. A kept connection is reset by `_init` and serves each request as a new
 one would, apart from the form left over and the users. A connection that is not kept is not reset, and goes on
 answering its first request.
 */
module Sessions {
  import opened Options
  import opened CText
  import opened Request
  import opened SplitIndependence
  import opened RequestRoundTrip
  import opened Routing
  import opened Response
  import opened VectoredWrite
  import opened Serving

  // ---- what a reset leaves behind makes no difference ----

  /** The same but for strings that `_init` keeps; a URL that has been read is the same. */
  predicate AlikeFields(f: Fields, g: Fields) {
    g == f.(url := g.url, version := g.version, host := g.host) && (f.phase != RequestLine ==> f.url == g.url)
  }

  predicate Alike(c: Conn, d: Conn) {
    d == c.(f := d.f) && AlikeFields(c.f, d.f)
  }

  lemma RequestLineAlike(f: Fields, g: Fields, line: string)
    requires AlikeFields(f, g)
    ensures ParseRequestLine(f, line).0 == ParseRequestLine(g, line).0
    ensures AlikeFields(ParseRequestLine(f, line).1, ParseRequestLine(g, line).1)
  {
    hide Tokens, EqNoCase, UrlOf;
  }

  lemma HeaderAlike(f: Fields, g: Fields, line: string)
    requires AlikeFields(f, g) && f.phase != RequestLine
    ensures ParseHeader(f, line).0 == ParseHeader(g, line).0
    ensures AlikeFields(ParseHeader(f, line).1, ParseHeader(g, line).1)
  {
    hide EqNoCase, Atoi, SkipBlanks;
  }

  lemma ScanAlike(c: Conn, d: Conn)
    requires Alike(c, d) && c.Valid() && d.Valid()
    ensures ParseLine(c).0 == ParseLine(d).0 && Alike(ParseLine(c).1, ParseLine(d).1)
  {
  }

  lemma StepAlike(c: Conn, d: Conn)
    requires Alike(c, d) && c.Valid() && d.Valid() && c.f.phase != Content
    ensures HeadStep(c).0 == HeadStep(d).0 && Alike(HeadStep(c).1, HeadStep(d).1)
  {
    hide CString, ParseRequestLine, ParseHeader, ParseLine;
    ScanAlike(c, d);
    var c1 := ParseLine(c).1;
    var line := CString(c1.data[c1.start..]);
    if c.f.phase == RequestLine { RequestLineAlike(c.f, d.f, line); } else { HeaderAlike(c.f, d.f, line); }
  }

  lemma {:induction false} HeadAlike(c: Conn, d: Conn)
    requires Alike(c, d) && c.Valid() && d.Valid()
    ensures Head(c).0 == Head(d).0 && Alike(Head(c).1, Head(d).1)
    decreases |c.data| - c.checked
  {
    hide HeadStep;
    if c.f.phase != Content {
      StepAlike(c, d);
      if HeadStep(c).0 == None { HeadAlike(HeadStep(c).1, HeadStep(d).1); }
    }
  }

  lemma {:induction false} BodyAlike(c: Conn, d: Conn, ok: bool)
    requires Alike(c, d) && c.Valid() && d.Valid() && c.f.phase == Content
    ensures Body(c, ok).0 == Body(d, ok).0 && Alike(Body(c, ok).1, Body(d, ok).1)
    decreases |c.data| - c.checked, ok
  {
    hide ParseLine, TakeBody;
    if !ok {
      ScanAlike(c, d);
      if ParseLine(c).0 == LineOk { BodyAlike(ParseLine(c).1, ParseLine(d).1, true); }
    } else {
      var c1, d1 := c.(start := c.checked), d.(start := d.checked);
      TakeAlike(c1, d1, c.start);
      if !SumOverflows(c1) && !BodyArrived(c1) { BodyAlike(c1, d1, false); }
    }
  }

  lemma TakeAlike(c: Conn, d: Conn, line: nat)
    requires Alike(c, d) && c.Valid() && d.Valid() && line <= c.start
    ensures TakeBody(c, line).0 == TakeBody(d, line).0 && Alike(TakeBody(c, line).1, TakeBody(d, line).1)
  {
    hide CString, Cells;
  }

  lemma {:induction false} FeedAlike(c: Conn, d: Conn, chunks: seq<string>)
    requires Alike(c, d) && c.Valid() && d.Valid() && |c.data| + |Flat(chunks)| <= READ_BUFFER
    ensures Feed(c, chunks).0 == Feed(d, chunks).0 && Alike(Feed(c, chunks).1, Feed(d, chunks).1)
    decreases |chunks|
  {
    hide Head, Body, Alike;
    if chunks != [] {
      var c0, d0 := c.Receive(chunks[0]), d.Receive(chunks[0]);
      AlikeParts(c, d, chunks[0]);
      HeadAlike(c0, d0);
      ContinueIsHeadThenBody(c0);
      ContinueIsHeadThenBody(d0);
      if Head(c0).0 == AtBody { BodyAlike(Head(c0).1, Head(d0).1, true); }
      if ReadProcess(c0).0 == Waiting { FeedAlike(ReadProcess(c0).1, ReadProcess(d0).1, chunks[1..]); }
    }
  }

  lemma AlikeParts(c: Conn, d: Conn, t: string)
    requires Alike(c, d)
    ensures Alike(c.Receive(t), d.Receive(t)) && c.data == d.data && c.start == d.start && c.checked == d.checked
  {
  }

  /** A complete request has a URL. */
  lemma {:induction false} CompleteHasUrl(c: Conn, chunks: seq<string>)
    requires c.Valid() && |c.data| + |Flat(chunks)| <= READ_BUFFER && (c.f.phase != RequestLine ==> Rooted(c.f.url))
    ensures var (o, c1) := Feed(c, chunks);
      && (o == Complete ==> c1.f.phase != RequestLine)
      && (c1.f.phase != RequestLine ==> Rooted(c1.f.url))
    decreases |chunks|
  {
    hide Head, Body, Rooted;
    if chunks != [] {
      var d := c.Receive(chunks[0]);
      HeadLeavesRootedUrl(d);
      ContinueIsHeadThenBody(d);
      if Head(d).0 == AtBody { BodyKeepsUrl(Head(d).1, true); }
      if ReadProcess(d).0 == Waiting { CompleteHasUrl(ReadProcess(d).1, chunks[1..]); }
    }
  }

  // ---- what is sent ----

  /** Ready for a new response; only the vectors may hold old values. */
  predicate Reset(o: Out) {
    o.text == [] && o.have == 0 && o.notSend == 0
  }

  /** The same but for a second vector that is not in use. */
  predicate AlikeOut(o: Out, r: Out) {
    r == o.(iov1 := r.iov1) && (o.iovCount == 2 ==> o.iov1 == r.iov1)
  }

  lemma WrittenAlike(o: Out, r: Out, code: HttpCode, size: nat, linger: bool)
    requires Reset(o) && Reset(r)
    ensures var (a, b) := (WriteProcess(o, code, size, linger), WriteProcess(r, code, size, linger));
      && a.0 == b.0
      && (a.0 ==> AlikeOut(a.1, b.1))
      && (!a.0 ==> Reset(a.1) && Reset(b.1))
  {
    hide StatusLine, HeaderText, ContentLengthLine, LingerLine, ErrorPage, EmptyPage, AddHeaders;
    if Answered(code) {
      if code != FILE_REQUEST {
        var p := ErrorPage(code);
        AppendsFit(o, p.status, p.title, |p.form|, linger);
        AppendsFit(r, p.status, p.title, |p.form|, linger);
      } else if size == 0 {
        AppendsFit(o, 200, "OK", |EmptyPage()|, linger);
        AppendsFit(r, 200, "OK", |EmptyPage()|, linger);
      } else {
        AppendsFit(o, 200, "OK", ToInt32(size), linger);
        AppendsFit(r, 200, "OK", ToInt32(size), linger);
      }
    }
  }

  lemma {:induction false} SendAlike(o: Out, r: Out, script: seq<KernelReply>)
    requires AlikeOut(o, r)
    ensures var p, q := Send(AsWritten, o, script), Send(AsWritten, r, script);
      p.end == q.end && p.sent == q.sent && AlikeOut(p.o, q.o)
    decreases |script|
  {
    hide Send, Pending, AfterShort;
    OneReply(AsWritten, o, script);
    OneReply(AsWritten, r, script);
    PendingAlike(o, r);
    if script != [] {
      var n := |Pending(o)|;
      var ret := if script[0].room < n then script[0].room else n;
      if ret > 0 {
        var o1 := o.(have := o.have + ret, notSend := o.notSend - ret);
        var r1 := r.(have := r.have + ret, notSend := r.notSend - ret);
        if o1.notSend > 0 && AssertHolds(AsWritten, o1) {
          ShortAlike(o1, r1);
          SendAlike(AfterShort(AsWritten, o1), AfterShort(AsWritten, r1), script[1..]);
        }
      } else if script[0].errno == Interrupted {
        SendAlike(o, r, script[1..]);
      }
    }
  }

  lemma PendingAlike(o: Out, r: Out)
    requires AlikeOut(o, r)
    ensures Pending(o) == Pending(r)
  {
  }

  lemma ShortAlike(o: Out, r: Out)
    requires AlikeOut(o, r) && o.notSend > 0 && AssertHolds(AsWritten, o)
    ensures AlikeOut(AfterShort(AsWritten, o), AfterShort(AsWritten, r))
  {
  }

  lemma {:induction false} CallsAlike(o: Out, r: Out, scripts: seq<seq<KernelReply>>)
    requires AlikeOut(o, r)
    ensures var p, q := Calls(AsWritten, o, scripts), Calls(AsWritten, r, scripts);
      p.end == q.end && p.sent == q.sent && AlikeOut(p.o, q.o)
    decreases |scripts|
  {
    hide Send, AlikeOut;
    SameNotSend(o, r);
    if scripts != [] {
      SendAlike(o, r, scripts[0]);
      var p, q := Write(AsWritten, o, scripts[0]), Write(AsWritten, r, scripts[0]);
      if p.end == Blocked { CallsAlike(p.o, q.o, scripts[1..]); }
    }
  }

  lemma SameNotSend(o: Out, r: Out)
    requires AlikeOut(o, r)
    ensures o.notSend == r.notSend
  {
  }

  // ---- a kept connection ----

  /** When there is nothing to send, `write` resets the object whether it is to be kept or not. */
  lemma NothingToSendResets(c: Conn, o: Out, script: seq<KernelReply>)
    requires o.notSend == 0
    ensures AfterWrite(c, Write(AsWritten, o, script)) ==
      (Fresh(c.f.url, c.f.version, c.f.host, c.f.body), Empty(o.iov0, o.iov1, o.iovCount))
  {
    hide Send;
  }

  function NewOut(): Out {
    Empty(Iov(OutBuffer, 0, 0), Iov(FileMap, 0, 0), 0)
  }

  /** One request and what the kernel replies while its response is sent. */
  datatype Exchange = Exchange(chunks: seq<string>, sqlOk: bool, scripts: seq<seq<KernelReply>>)

  /** What the client sees of it. */
  datatype Seen = Seen(effect: Effect, end: End, sent: seq<Place>)

  /** The calls of `write` for a response; none when there is no response. */
  function Sending(p: Processed, x: Exchange): Progress {
    if p.Done? && p.next == WantsOutput then Calls(AsWritten, p.o, x.scripts) else Progress(Nothing, NewOut(), [], 0)
  }

  function SeenOf(p: Processed, x: Exchange): Seen {
    Seen(EffectOf(p), Sending(p, x).end, Sending(p, x).sent)
  }

  /** The response has gone out and the connection is to be kept: `write` runs `_init`. */
  predicate Kept(p: Processed, x: Exchange) {
    p.Done? && p.next == WantsOutput && p.c.f.linger && Sending(p, x).end == Finished
  }

  predicate Fits(xs: seq<Exchange>) {
    forall i :: 0 <= i < |xs| ==> |Flat(xs[i].chunks)| <= READ_BUFFER
  }

  /** The requests of one connection, each after the one before has been answered and the connection kept. */
  function Session(c: Conn, o: Out, users: Users, site: Site, xs: seq<Exchange>): seq<Seen>
    requires c.Valid() && c.data == [] && Fits(xs)
    decreases |xs|
  {
    if xs == [] then []
    else
      var p := Serve(c, o, users, site, xs[0].sqlOk, xs[0].chunks);
      [SeenOf(p, xs[0])] +
      if Kept(p, xs[0]) then
        var (c1, o1) := AfterWrite(p.c, Sending(p, xs[0]));
        Session(c1, o1, p.users, site, xs[1..])
      else []
  }

  /** The same requests, each on a connection object of its own, which gets nothing but the left-over form. */
  function Separately(left: string, users: Users, site: Site, xs: seq<Exchange>): seq<Seen>
    requires Fits(xs)
    decreases |xs|
  {
    if xs == [] then []
    else
      var p := Serve(Fresh([], [], [], left), NewOut(), users, site, xs[0].sqlOk, xs[0].chunks);
      [SeenOf(p, xs[0])] + if Kept(p, xs[0]) then Separately(p.c.f.body, p.users, site, xs[1..]) else []
  }

  /** The same answer, up to what is not looked at. */
  predicate AlikeProcessed(p: Processed, q: Processed) {
    EffectOf(p) == EffectOf(q) &&
    (p.Done? ==> q.Done? && p.c.f.body == q.c.f.body && (p.next == WantsOutput ==> AlikeOut(p.o, q.o)))
  }

  lemma AnswersAlike(outcome: Outcome, c: Conn, d: Conn, o: Out, r: Out, users: Users, site: Site, sqlOk: bool)
    requires Alike(c, d) && Reset(o) && Reset(r) && (outcome == Complete ==> c.f.phase != RequestLine)
    ensures AlikeProcessed(Answer(outcome, c, o, users, site, sqlOk), Answer(outcome, d, r, users, site, sqlOk))
  {
    hide WriteProcess, DoRespone, SizeFor, Pending, Reset, AlikeOut;
    match outcome
    case Complete =>
      SameReply(c.f, d.f, users, site, sqlOk);
      var reply := DoRespone(c.f, users, site, sqlOk);
      if reply.Reply? {
        var c1, d1 := c.(f := c.f.(url := reply.url)), d.(f := d.f.(url := reply.url));
        RespondsAlike(c1, d1, o, r, reply.users, reply.code, SizeFor(reply.code, site.stat(reply.realFile)));
      }
    case Rejected =>
      RespondsAlike(c, d, o, r, users, BAD_REQUEST, 0);
    case _ =>
      ResetParts(o, r);
  }

  lemma ResetParts(o: Out, r: Out)
    requires Reset(o) && Reset(r)
    ensures o.text == r.text && o.have == r.have && o.notSend == r.notSend
  {
  }

  lemma RespondsAlike(c: Conn, d: Conn, o: Out, r: Out, users: Users, code: HttpCode, size: nat)
    requires Alike(c, d) && Reset(o) && Reset(r)
    ensures AlikeProcessed(Respond(c, o, users, code, size), Respond(d, r, users, code, size))
  {
    hide WriteProcess, Pending;
    WrittenAlike(o, r, code, size, c.f.linger);
    var (ok, o1) := WriteProcess(o, code, size, c.f.linger);
    if ok { PendingAlike(o1, WriteProcess(r, code, size, c.f.linger).1); }
  }

  lemma ServedAlike(c: Conn, d: Conn, o: Out, r: Out, users: Users, site: Site, x: Exchange)
    requires Alike(c, d) && c.Valid() && d.Valid() && c.f.phase == RequestLine
    requires |c.data| + |Flat(x.chunks)| <= READ_BUFFER && Reset(o) && Reset(r)
    ensures var p := Serve(c, o, users, site, x.sqlOk, x.chunks);
      var q := Serve(d, r, users, site, x.sqlOk, x.chunks);
      AlikeProcessed(p, q) && SeenOf(p, x) == SeenOf(q, x) && (Kept(p, x) <==> Kept(q, x))
  {
    hide Feed, Answer, Serve, Calls, EffectOf, Alike, Reset, AlikeOut;
    FeedAlike(c, d, x.chunks);
    CompleteHasUrl(c, x.chunks);
    ServeIsAnswer(c, o, users, site, x.sqlOk, x.chunks);
    AlikeParts(c, d, []);
    ServeIsAnswer(d, r, users, site, x.sqlOk, x.chunks);
    var (outcome, c1) := Feed(c, x.chunks);
    AnswersAlike(outcome, c1, Feed(d, x.chunks).1, o, r, users, site, x.sqlOk);
    SendingAlike(Serve(c, o, users, site, x.sqlOk, x.chunks), Serve(d, r, users, site, x.sqlOk, x.chunks), x);
  }

  lemma SendingAlike(p: Processed, q: Processed, x: Exchange)
    requires AlikeProcessed(p, q)
    ensures SeenOf(p, x) == SeenOf(q, x) && (Kept(p, x) <==> Kept(q, x))
  {
    hide Calls, Pending, AlikeOut;
    if p.Done? && p.next == WantsOutput { CallsAlike(p.o, q.o, x.scripts); }
  }

  /**
   Every request of a kept connection is served as it would be on a connection of its own, whatever came before
   it, apart from the form left over and the users. (`LeftOver.FormIsItsOwn` says when that form matters.)
   */
  lemma {:induction false} KeptIsFresh(c: Conn, o: Out, users: Users, site: Site, xs: seq<Exchange>)
    requires c == Fresh(c.f.url, c.f.version, c.f.host, c.f.body) && Reset(o) && Fits(xs)
    ensures Session(c, o, users, site, xs) == Separately(c.f.body, users, site, xs)
    decreases |xs|
  {
    hide Serve, SeenOf, Kept, Sending;
    if xs != [] {
      var x := xs[0];
      var d := Fresh([], [], [], c.f.body);
      ServedAlike(c, d, o, NewOut(), users, site, x);
      var p := Serve(c, o, users, site, x.sqlOk, x.chunks);
      if Kept(p, x) {
        KeptParts(p, x);
        var (c1, o1) := AfterWrite(p.c, Sending(p, x));
        KeptIsFresh(c1, o1, p.users, site, xs[1..]);
      }
    }
  }

  lemma KeptParts(p: Processed, x: Exchange)
    requires Kept(p, x)
    ensures p.Done?
    ensures var (c, o) := AfterWrite(p.c, Sending(p, x));
      && c == Fresh(p.c.f.url, p.c.f.version, p.c.f.host, p.c.f.body) && c.Valid() && c.data == []
      && c.f.body == p.c.f.body && Reset(o)
  {
  }
}
