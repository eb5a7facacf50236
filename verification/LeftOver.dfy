/**
 `_init` does not clear the form of an earlier request, which may have come from another client on the same
 descriptor. When does it matter what was left over?
 */
module LeftOver {
  import opened Options
  import opened CText
  import opened Request
  import opened SplitIndependence
  import opened RequestRoundTrip
  import opened Routing
  import opened Response
  import opened Serving

  /** The same connection with another text left over in the body field. */
  function WithBody(c: Conn, left: string): Conn {
    c.(f := c.f.(body := left))
  }

  /** The body field after a result: overwritten by a body that arrived, else as it was left. */
  function AfterOutcome(r: (Outcome, Conn), left: string): (Outcome, Conn) {
    if r.0 == Complete && r.1.f.phase == Content then r else (r.0, WithBody(r.1, left))
  }

  lemma StepIgnoresBody(c: Conn, left: string)
    requires c.Valid() && c.f.phase != Content
    ensures HeadStep(WithBody(c, left)) == (HeadStep(c).0, WithBody(HeadStep(c).1, left))
  {
    hide CString, ParseRequestLine, ParseHeader, ParseLine;
    var c1 := ParseLine(c).1;
    var line := CString(c1.data[c1.start..]);
    RequestLineIgnoresBody(c.f, line, left);
    HeaderIgnoresBody(c.f, line, left);
    ScanIgnoresBody(c, left);
  }

  lemma RequestLineIgnoresBody(f: Fields, line: string, left: string)
    ensures var (ok, g) := ParseRequestLine(f, line);
      ParseRequestLine(f.(body := left), line) == (ok, g.(body := left))
  {
    hide Tokens, EqNoCase, UrlOf;
  }

  lemma HeaderIgnoresBody(f: Fields, line: string, left: string)
    ensures var (done, g) := ParseHeader(f, line);
      ParseHeader(f.(body := left), line) == (done, g.(body := left))
  {
    hide EqNoCase, Atoi, SkipBlanks;
  }

  lemma {:induction false} HeadIgnoresBody(c: Conn, left: string)
    requires c.Valid()
    ensures Head(WithBody(c, left)) == (Head(c).0, WithBody(Head(c).1, left))
    decreases |c.data| - c.checked
  {
    hide HeadStep;
    if c.f.phase != Content {
      StepIgnoresBody(c, left);
      if HeadStep(c).0 == None { HeadIgnoresBody(HeadStep(c).1, left); }
    }
  }

  lemma ScanIgnoresBody(c: Conn, left: string)
    requires c.Valid()
    ensures ParseLine(WithBody(c, left)) == (ParseLine(c).0, WithBody(ParseLine(c).1, left))
  {
  }

  lemma TakeOverwrites(c: Conn, line: nat, left: string)
    requires c.Valid() && line <= c.start && c.f.phase == Content
    ensures TakeBody(WithBody(c, left), line) == AfterOutcome(TakeBody(c, line), left)
  {
    hide CString, Cells;
  }

  lemma {:induction false} BodyOverwrites(c: Conn, ok: bool, left: string)
    requires c.Valid() && c.f.phase == Content
    ensures Body(WithBody(c, left), ok) == AfterOutcome(Body(c, ok), left)
    decreases |c.data| - c.checked, ok
  {
    hide ParseLine, TakeBody;
    if !ok {
      ScanIgnoresBody(c, left);
      var (st, c1) := ParseLine(c);
      if st == LineOk { BodyOverwrites(c1, true, left); }
    } else {
      var c1 := c.(start := c.checked);
      TakeOverwrites(c1, c.start, left);
      if !SumOverflows(c1) && !BodyArrived(c1) { BodyOverwrites(c1, false, left); }
    }
  }

  lemma {:induction false} FeedOverwrites(c: Conn, chunks: seq<string>, left: string)
    requires c.Valid() && |c.data| + |Flat(chunks)| <= READ_BUFFER
    ensures Feed(WithBody(c, left), chunks) == AfterOutcome(Feed(c, chunks), left)
    decreases |chunks|
  {
    hide Head, Body;
    if chunks != [] {
      var d := c.Receive(chunks[0]);
      HeadIgnoresBody(d, left);
      ContinueIsHeadThenBody(d);
      ContinueIsHeadThenBody(WithBody(d, left));
      assert WithBody(c, left).Receive(chunks[0]) == WithBody(d, left);
      if Head(d).0 == AtBody { BodyOverwrites(Head(d).1, true, left); }
      if ReadProcess(d).0 == Waiting { FeedOverwrites(ReadProcess(d).1, chunks[1..], left); }
    }
  }

  // ---- a request that is complete carries a body exactly when its Content-Length is not 0 ----

  /** The body is only waited for when its length is not 0. */
  predicate Announced(c: Conn) {
    c.Valid() && (c.f.phase == Content ==> c.f.contentLength != 0)
  }

  lemma StepAnnounces(c: Conn)
    requires c.Valid() && c.f.phase != Content
    ensures Announced(HeadStep(c).1)
    ensures HeadStep(c).0 == Some(Complete) ==> HeadStep(c).1.f.contentLength == 0
  {
    hide CString, Tokens, EqNoCase, StartsNoCase, UrlOf;
  }

  lemma {:induction false} HeadAnnounces(c: Conn)
    requires Announced(c)
    ensures Announced(Head(c).1)
    ensures Head(c).0 == Stopped(Complete) ==> Head(c).1.f.contentLength == 0
    decreases |c.data| - c.checked
  {
    hide HeadStep;
    if c.f.phase != Content {
      StepAnnounces(c);
      if HeadStep(c).0 == None { HeadAnnounces(HeadStep(c).1); }
    }
  }

  lemma {:induction false} BodyKeepsLength(c: Conn, ok: bool)
    requires c.Valid() && c.f.phase == Content
    ensures var c1 := Body(c, ok).1; c1.f.contentLength == c.f.contentLength && c1.f.phase == Content
    decreases |c.data| - c.checked, ok
  {
    hide Scan, CString;
    if !ok {
      var (st, c1) := ParseLine(c);
      if st == LineOk { BodyKeepsLength(c1, true); }
    } else {
      var c1 := c.(start := c.checked);
      if !SumOverflows(c1) && !BodyArrived(c1) { BodyKeepsLength(c1, false); }
    }
  }

  lemma {:induction false} FeedAnnounces(c: Conn, chunks: seq<string>)
    requires Announced(c) && |c.data| + |Flat(chunks)| <= READ_BUFFER
    ensures var (o, c1) := Feed(c, chunks);
      o == Complete ==> (c1.f.phase == Content <==> c1.f.contentLength != 0)
    decreases |chunks|
  {
    hide Head, Body;
    if chunks != [] {
      var d := c.Receive(chunks[0]);
      HeadAnnounces(d);
      ContinueIsHeadThenBody(d);
      if Head(d).0 == AtBody { BodyKeepsLength(Head(d).1, true); }
      if ReadProcess(d).0 == Waiting { FeedAnnounces(ReadProcess(d).1, chunks[1..]); }
    }
  }

  /** The text left over makes no difference to what can be seen, whatever it is. */
  ghost predicate NoMatterWhat(c: Conn, o: Out, users: Users, site: Site, sqlOk: bool, chunks: seq<string>)
    requires c.Valid() && |c.data| + |Flat(chunks)| <= READ_BUFFER
  {
    forall left :: EffectOf(Serve(WithBody(c, left), o, users, site, sqlOk, chunks))
                == EffectOf(Serve(c, o, users, site, sqlOk, chunks))
  }

  /**
   Whatever a client sends, in whatever chunks: what was left over makes a difference that can be seen if and only
   if the request is complete, is a login or registration, and its Content-Length is 0.
   */
  lemma FormIsItsOwn(c: Conn, o: Out, users: Users, site: Site, sqlOk: bool, chunks: seq<string>)
    requires Announced(c) && |c.data| + |Flat(chunks)| <= READ_BUFFER
    ensures var (outcome, c1) := Feed(c, chunks);
      NoMatterWhat(c, o, users, site, sqlOk, chunks) <==>
      !(outcome == Complete && IsForm(c1.f) && c1.f.contentLength == 0)
  {
    hide Feed, Serve, Answer, Flag, EffectOf;
    FeedAnnounces(c, chunks);
    ServeIsAnswer(c, o, users, site, sqlOk, chunks);
    var (outcome, c1) := Feed(c, chunks);
    forall left: string
      ensures Serve(WithBody(c, left), o, users, site, sqlOk, chunks) ==
              Answer(outcome, AfterOutcome((outcome, c1), left).1, o, users, site, sqlOk)
    {
      FeedOverwrites(c, chunks, left);
      ServeIsAnswer(WithBody(c, left), o, users, site, sqlOk, chunks);
    }
    if outcome == Complete && IsForm(c1.f) && c1.f.contentLength == 0 {
      var none, some := WithBody(c, ""), WithBody(c, "user=");
      ShortFormsDiffer(c1, o, users, site, sqlOk);
      assert EffectOf(Serve(none, o, users, site, sqlOk, chunks)) !=
             EffectOf(Serve(some, o, users, site, sqlOk, chunks));
    } else {
      forall left: string
        ensures EffectOf(Serve(WithBody(c, left), o, users, site, sqlOk, chunks)) ==
                EffectOf(Serve(c, o, users, site, sqlOk, chunks))
      {
        if outcome != Complete || !IsForm(c1.f) { OthersIgnoreBody(outcome, c1, o, users, site, sqlOk, left); }
      }
    }
  }

  lemma OthersIgnoreBody(outcome: Outcome, c: Conn, o: Out, users: Users, site: Site, sqlOk: bool, left: string)
    requires outcome != Complete || !IsForm(c.f)
    ensures EffectOf(Answer(outcome, WithBody(c, left), o, users, site, sqlOk)) ==
            EffectOf(Answer(outcome, c, o, users, site, sqlOk))
  {
    hide Flag, WriteProcess, ServeFile, Pending, SizeFor;
  }

  lemma ShortFormsDiffer(c: Conn, o: Out, users: Users, site: Site, sqlOk: bool)
    requires IsForm(c.f)
    ensures EffectOf(Answer(Complete, WithBody(c, ""), o, users, site, sqlOk)) == Dies
    ensures EffectOf(Answer(Complete, WithBody(c, "user="), o, users, site, sqlOk)) != Dies
  {
    hide Flag, FormUser, FormPassword, WriteProcess, FileFor, UrlAfterForm, UsersOf;
    assert |"user="| == 5;
  }

  /** A login without a body on a new object: no form was left over, and the exception is not caught. */
  lemma LoginWithoutBodyExample(o: Out, users: Users, site: Site, sqlOk: bool)
    ensures Serve(Fresh([], [], [], []), o, users, site, sqlOk, ["POST /2 HTTP/1.1" + CRLF + CRLF]) == Died
  {
    hide HeadStep, Body, Feed, Serve, Scan;
    var c, s := Fresh([], [], [], []), "POST /2 HTTP/1.1" + CRLF + CRLF;
    FlatFirst([s]);
    assert Block([]) == [] && "POST" + " " + "/2" + " " + "HTTP/1.1" == "POST /2 HTTP/1.1";
    assert s == RequestText("POST", "/2", "HTTP/1.1", [], []);
    assert Acceptable("POST", "/2", "HTTP/1.1");
    assert StripScheme("/2") == "/2";
    LastIndexIs("/2", '/', 0);
    assert FormPost(c, [s], "/2", [], [], '2');
    LoginIsServed(c, o, [s], "/2", [], [], users, [], site, sqlOk);
    assert UsersAfter(users, []) == users;
  }
}
