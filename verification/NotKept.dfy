/**
 A connection that is not to be kept. `write` sends its response and does not run `_init`, but goes on waiting for
 input, so the parser is still where the first request left it: after a request without a body, among its header
 lines; after one with a body, at that body.
 */
module NotKept {
  import opened Options
  import opened CText
  import opened Request
  import opened SplitIndependence
  import opened RequestRoundTrip
  import opened Routing
  import opened Response
  import opened VectoredWrite
  import opened Serving

  // ---- after a request without a body ----

  /** Where a complete request without a body leaves the parser. */
  predicate AmongHeaders(c: Conn) {
    c.Valid() && c.start == c.checked == |c.data| && c.f.phase == Header && c.f.contentLength == 0
  }

  lemma {:induction false} FeedStaysIn(c: Conn, chunks: seq<string>)
    requires c.Valid() && |c.data| + |Flat(chunks)| <= READ_BUFFER
    ensures Feed(c, chunks).1.Valid() && |Feed(c, chunks).1.data| <= |c.data| + |Flat(chunks)|
    decreases |chunks|
  {
    hide ReadProcess;
    if chunks != [] {
      var d := c.Receive(chunks[0]);
      if ReadProcess(d).0 == Waiting { FeedStaysIn(ReadProcess(d).1, chunks[1..]); }
    }
  }

  /** That is where a request without a body leaves it. */
  lemma LeftAmongHeaders(c: Conn, chunks: seq<string>, m: string, t: string, v: string, hs: seq<HeaderLine>)
    requires c.Valid() && c.start == c.checked == |c.data| && c.f.phase == RequestLine
    requires chunks != [] && |c.data| + |Flat(chunks)| < READ_BUFFER
    requires WellFormedRequest(m, t, v, hs)
    requires Flat(chunks) == RequestText(m, t, v, hs, [])
    requires Meaning(c.f, m, t, v, hs).contentLength == 0
    ensures AmongHeaders(Feed(c, chunks).1) && |Feed(c, chunks).1.data| == |c.data| + |Flat(chunks)|
  {
    hide HeadStep, Body, RequestText, Feed, After, Acceptable;
    BodylessRequest(c, chunks, m, t, v, hs);
    FeedStaysIn(c, chunks);
    var all := c.Receive(Flat(chunks));
    assert all.data[all.checked..] == Flat(chunks);
    HeadReadsRequest(all, m, t, v, hs, []);
    ContinueIsHeadThenBody(all);
    SplitIndependent(c, chunks);
  }

  lemma FirstLetter(a: string, key: string)
    requires EqNoCase(a, key) && key != []
    ensures a != [] && Lower(a[0]) == Lower(key[0])
  {
  }

  /** To the header parser a request line is an unknown header. */
  lemma RequestLineIsNoHeader(f: Fields, m: string, t: string, v: string)
    requires Acceptable(m, t, v)
    ensures ParseHeader(f, m + " " + t + " " + v) == (false, f)
  {
    hide Atoi, SkipBlanks, StripScheme;
    var line := m + " " + t + " " + v;
    FirstLetter(m, if EqNoCase(m, "GET") then "GET" else "POST");
    assert line[0] == m[0];
    NotNamed(line, "Connection:");
    NotNamed(line, "Content-length:");
    NotNamed(line, "Host:");
  }

  lemma NotNamed(line: string, key: string)
    requires line != [] && key != [] && Lower(line[0]) != Lower(key[0])
    ensures !StartsNoCase(line, key)
  {
    if |line| >= |key| { assert line[..|key|][0] == line[0]; }
  }

  /** The request line of the next request changes nothing, its header lines are read, its blank line ends it. */
  lemma HeadIgnoresRequestLine(c: Conn, m: string, t: string, v: string, hs: seq<HeaderLine>)
    requires c.Valid() && c.start == c.checked && c.f.phase == Header
    requires WellFormedRequest(m, t, v, hs)
    requires c.data[c.checked..] == RequestText(m, t, v, hs, [])
    ensures var (end, b) := Head(c);
      var g := After(c.f, hs);
      g.contentLength == 0 ==>
        end == Stopped(Complete) && b.f == g && b.start == b.checked == |b.data| == |c.data|
  {
    hide HeadStep, After, AfterRequestLine, ParseRequestLine, ParseHeader, Acceptable, CString;
    var line := m + " " + t + " " + v;
    var more := Block(hs) + CRLF + [];
    assert c.data[c.checked..] == line + CRLF + more;
    RequestLineIsOneLine(m, t, v);
    WholeLine(line);
    StepOverLine(c, line, more);
    RequestLineIsNoHeader(c.f, m, t, v);
    var c1 := HeadStep(c).1;
    NoHeaders(c.f);
    assert [] + hs == hs;
    HeadReadsHeaders(c1, c.f, [], hs, []);
  }

  lemma NextIsHeaders(c: Conn, chunks: seq<string>, m: string, t: string, v: string, hs: seq<HeaderLine>)
    requires AmongHeaders(c) && chunks != [] && |c.data| + |Flat(chunks)| < READ_BUFFER
    requires WellFormedRequest(m, t, v, hs) && Flat(chunks) == RequestText(m, t, v, hs, [])
    requires After(c.f, hs).contentLength == 0
    ensures Feed(c, chunks).0 == Complete && Feed(c, chunks).1.f == After(c.f, hs)
  {
    hide HeadStep, Body, RequestText, Feed, After;
    var all := c.Receive(Flat(chunks));
    assert all.data[all.checked..] == Flat(chunks);
    HeadIgnoresRequestLine(all, m, t, v, hs);
    ContinueIsHeadThenBody(all);
    SplitIndependent(c, chunks);
  }

  lemma HeadersKeepText(o: Out, n: int, linger: bool)
    requires -0x8000_0000 <= n < 0x8000_0000
    ensures o.text <= AddHeaders(o, n, linger).1.text
  {
    hide AddResponse, ContentLengthLine, LingerLine;
  }

  lemma PageKeepsText(o: Out, status: nat, title: string, body: string, linger: bool)
    requires status < 1000 && |body| < 80
    ensures o.text <= SendText(o, status, title, body, linger).1.text
  {
    hide AddResponse, AddHeaders, StatusLine;
    HeadersKeepText(AddResponse(o, StatusLine(status, title)).1, |body|, linger);
  }

  lemma FileKeepsText(o: Out, size: nat, linger: bool)
    ensures o.text <= SendFile(o, size, linger).1.text
  {
    hide AddResponse, AddHeaders, StatusLine;
    HeadersKeepText(AddResponse(o, StatusLine(200, "OK")).1, ToInt32(size), linger);
  }

  /** Text that is already in the buffer stays in front of what is appended. */
  lemma OldTextStays(o: Out, code: HttpCode, size: nat, linger: bool)
    ensures o.text <= WriteProcess(o, code, size, linger).1.text
  {
    hide SendText, SendFile, ErrorPage, EmptyPage;
    if Answered(code) {
      if code != FILE_REQUEST {
        var p := ErrorPage(code);
        PageKeepsText(o, p.status, p.title, p.form, linger);
      } else if size == 0 {
        PageKeepsText(o, 200, "OK", EmptyPage(), linger);
      } else {
        FileKeepsText(o, size, linger);
      }
    }
  }

  /**
   The next request on the connection, whatever it asks for, is answered as the first one was asked: for the URL
   the object still has. The new response is put behind the old text, which is still in the buffer.
   */
  lemma AnsweredAgain(c: Conn, o: Out, users: Users, site: Site, sqlOk: bool, chunks: seq<string>,
                      m: string, t: string, v: string, hs: seq<HeaderLine>)
    requires AmongHeaders(c) && chunks != [] && |c.data| + |Flat(chunks)| < READ_BUFFER
    requires WellFormedRequest(m, t, v, hs) && Flat(chunks) == RequestText(m, t, v, hs, [])
    requires After(c.f, hs).contentLength == 0
    ensures var reply := DoRespone(c.f, users, site, sqlOk);
      var served := Serve(c, o, users, site, sqlOk, chunks);
      && (reply == Throws <==> served == Died)
      && (reply.Reply? ==>
            && served.Done? && served.users == reply.users && served.c.f.url == reply.url
            && (served.o.notSend, served.o.text) ==
               (var r := WriteProcess(o, reply.code, SizeFor(reply.code, site.stat(reply.realFile)),
                                      c.f.linger || KeepAlive(hs)).1;
                (r.notSend, r.text))
            && o.text <= served.o.text)
  {
    hide Feed, Serve, WriteProcess, KeepAlive, LastValue, Flag, FormUser, FormPassword, ServeFile, SizeFor;
    NextIsHeaders(c, chunks, m, t, v, hs);
    ServeIsAnswer(c, o, users, site, sqlOk, chunks);
    var g := After(c.f, hs);
    SameReply(c.f, g, users, site, sqlOk);
    var reply := DoRespone(c.f, users, site, sqlOk);
    if reply.Reply? {
      OldTextStays(o, reply.code, SizeFor(reply.code, site.stat(reply.realFile)), g.linger);
    }
  }

  /**
   Two requests on a connection that the first did not ask to keep: when its response has gone out, the second,
   whatever it asks for, is answered for the URL of the first.
   */
  lemma SecondRequestGetsTheFirst(c: Conn, o: Out, users: Users, site: Site, sqlOk: bool, chunks: seq<string>,
                                  t: string, hs: seq<HeaderLine>, scripts: seq<seq<KernelReply>>,
                                  next: seq<string>, m: string, u: string, v: string, ks: seq<HeaderLine>)
    requires c.Valid() && c.start == c.checked == |c.data| && c.f.phase == RequestLine && !c.f.enablePost
    requires chunks != [] && next != [] && |c.data| + |Flat(chunks)| + |Flat(next)| < READ_BUFFER
    requires WellFormedRequest("GET", t, "HTTP/1.1", hs) && WellFormedRequest(m, u, v, ks)
    requires Flat(chunks) == RequestText("GET", t, "HTTP/1.1", hs, []) && Flat(next) == RequestText(m, u, v, ks, [])
    requires Meaning(c.f, "GET", t, "HTTP/1.1", hs).contentLength == 0 && LengthOf(ks) == 0
    requires !c.f.linger && !KeepAlive(hs)
    ensures var first := Serve(c, o, users, site, sqlOk, chunks);
      && first.Done? && UrlOf(t) == Path(first.c.f.url) && AmongHeaders(first.c)
      && |first.c.data| + |Flat(next)| < READ_BUFFER
      && var p := Calls(AsWritten, first.o, scripts);
         p.end == Finished ==>
           var (c1, o1) := AfterWrite(first.c, p);
           var second := Serve(c1, o1, users, site, sqlOk, next);
           c1 == first.c && o1 == p.o && second.Done? && second.c.f.url == first.c.f.url
  {
    hide Feed, Serve, WriteProcess, KeepAlive, LastValue, Flag, SizeFor, Meaning, RequestText, WellFormedRequest, Calls;
    BodylessRequest(c, chunks, "GET", t, "HTTP/1.1", hs);
    LeftAmongHeaders(c, chunks, "GET", t, "HTTP/1.1", hs);
    MeaningOfGet(c.f, t, hs);
    ServeIsAnswer(c, o, users, site, sqlOk, chunks);
    var first := Serve(c, o, users, site, sqlOk, chunks);
    AnsweredAgain(first.c, Calls(AsWritten, first.o, scripts).o, users, site, sqlOk, next, m, u, v, ks);
  }

  // ---- after a request with a body ----

  /** Where a complete request with a body leaves the parser. */
  predicate AtItsBody(c: Conn) {
    && c.Valid() && c.start == c.checked && c.f.phase == Content && 0 < c.f.contentLength && BodyArrived(c)
    && c.f.body == CString(c.data[c.start..c.start + c.f.contentLength])
  }

  lemma LeftAtItsBody(b: Conn)
    requires Clean(b) && b.f.phase == Content && 0 < b.f.contentLength && BodyArrived(b) && |b.data| < READ_BUFFER
    ensures AtItsBody(Body(b, true).1)
  {
    hide CString, Body, TakeBody, ParseLine;
    BodyText(b);
    BodyIsTaken(b);
    TakenBytes(b);
    BodyKeepsUrl(b, true);
  }

  lemma TakenBytes(b: Conn)
    requires b.Valid() && 0 <= b.f.contentLength && b.start + b.f.contentLength <= |b.data| < READ_BUFFER
    ensures var i := b.start;
      var d := TakeBody(b, i).1.data;
      |d| == |b.data| && d[i..i + b.f.contentLength] == b.data[i..i + b.f.contentLength]
  {
    hide CString, Cells;
  }

  /** Whatever comes next, though it be a single byte, the same request with the same body is complete again. */
  lemma AnyByteRepeats(c: Conn, t: string)
    requires AtItsBody(c) && |c.data| + |t| < READ_BUFFER
    ensures ReadProcess(c.Receive(t)).0 == Complete && ReadProcess(c.Receive(t)).1.f == c.f
  {
    hide CString, Body;
    var d, i, n := c.Receive(t), c.start, c.f.contentLength;
    BodyText(d);
    assert d.data[i..i + n] == c.data[i..i + n];
    ContinueIsHeadThenBody(d);
  }

  /** So a form that was sent in a POST is dealt with again. */
  lemma FormDealtWithAgain(c: Conn, o: Out, users: Users, site: Site, sqlOk: bool, t: string)
    requires AtItsBody(c) && |c.data| + |t| < READ_BUFFER
    ensures var reply := DoRespone(c.f, users, site, sqlOk);
      var p := DoProcess(c.Receive(t), o, users, site, sqlOk);
      && (reply == Throws <==> p == Died)
      && (reply.Reply? ==> p.Done? && p.users == reply.users && p.c.f.url == reply.url)
  {
    hide ReadProcess, DoRespone, WriteProcess, SizeFor;
    AnyByteRepeats(c, t);
  }
}
