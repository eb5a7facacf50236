/**
 `do_process`: one pass from received bytes to a response in the buffers, and the whole way of a request
 through parser, router, printer and sender.
 */
module Serving {
  import opened Options
  import opened CText
  import opened Request
  import opened Routing
  import opened Response
  import opened SplitIndependence
  import opened RequestRoundTrip
  import opened VectoredWrite

  /** What `do_process` leaves the connection to do. */
  datatype Next = WantsInput | WantsOutput | Closed

  /** Died: undefined behaviour or an exception that is not caught. */
  datatype Processed = Done(next: Next, c: Conn, o: Out, users: Users) | Died

  function Respond(c: Conn, o: Out, users: Users, code: HttpCode, size: nat): Processed {
    var (ok, o1) := WriteProcess(o, code, size, c.f.linger);
    Done(if ok then WantsOutput else Closed, c, o1, users)
  }

  /** The size of the file that FILE_REQUEST is about; no other code looks at it. */
  function SizeFor(code: HttpCode, stat: FileStat): nat {
    if code == FILE_REQUEST && stat.Present? then stat.size else 0
  }

  lemma OnlyFilesHaveSize(o: Out, code: HttpCode, size: nat, linger: bool)
    ensures code != FILE_REQUEST ==> WriteProcess(o, code, size, linger) == WriteProcess(o, code, 0, linger)
  {
  }

  /** The rest of `do_process`, once `read_process` has gone as far as `do_respone`. */
  function Answer(outcome: Outcome, c: Conn, o: Out, users: Users, site: Site, sqlOk: bool): Processed {
    match outcome
    case Waiting => Done(WantsInput, c, o, users)
    case Rejected => Respond(c, o, users, BAD_REQUEST, 0)
    case Overrun => Died
    case Complete =>
      match DoRespone(c.f, users, site, sqlOk)
      case Throws => Died
      case Reply(code, url, file, users') =>
        Respond(c.(f := c.f.(url := url)), o, users', code, SizeFor(code, site.stat(file)))
  }

  function DoProcess(c: Conn, o: Out, users: Users, site: Site, sqlOk: bool): Processed
    requires c.Valid()
  {
    var (outcome, c1) := ReadProcess(c);
    Answer(outcome, c1, o, users, site, sqlOk)
  }

  /** `do_process` by what the parser and the router return. */
  lemma ProcessedAs(c: Conn, o: Out, users: Users, site: Site, sqlOk: bool)
    requires c.Valid()
    ensures var p := DoProcess(c, o, users, site, sqlOk);
      var (outcome, c1) := ReadProcess(c);
      && (outcome == Waiting ==> p == Done(WantsInput, c1, o, users))
      && (outcome == Rejected ==> p == Respond(c1, o, users, BAD_REQUEST, 0))
      && (outcome == Overrun ==> p == Died)
      && (outcome == Complete ==>
            var r := DoRespone(c1.f, users, site, sqlOk);
            && (r == Throws ==> p == Died)
            && (r.Reply? ==>
                  var size := SizeFor(r.code, site.stat(r.realFile));
                  p == Respond(c1.(f := c1.f.(url := r.url)), o, r.users, r.code, size)))
  {
    hide ReadProcess, DoRespone, Respond, SizeFor;
  }

  /** The object after a call of `write` that went like this: reset for the next request, or left as it is. */
  function AfterWrite(c: Conn, p: Progress): (Conn, Out) {
    if p.end == Nothing || (p.end == Finished && c.f.linger) then
      (Fresh(c.f.url, c.f.version, c.f.host, c.f.body), Empty(p.o.iov0, p.o.iov1, p.o.iovCount))
    else (c, p.o)
  }

  /** One `do_process` after each chunk, as long as it goes back to waiting for input. */
  function Serve(c: Conn, o: Out, users: Users, site: Site, sqlOk: bool, chunks: seq<string>): Processed
    requires c.Valid() && |c.data| + |Flat(chunks)| <= READ_BUFFER
    decreases |chunks|
  {
    if chunks == [] then Done(WantsInput, c, o, users)
    else
      var p := DoProcess(c.Receive(chunks[0]), o, users, site, sqlOk);
      if p.Done? && p.next == WantsInput then
        (StillWaiting(c.Receive(chunks[0]), o, users, site, sqlOk);
         Serve(p.c, p.o, p.users, site, sqlOk, chunks[1..]))
      else p
  }

  lemma StillWaiting(c: Conn, o: Out, users: Users, site: Site, sqlOk: bool)
    requires c.Valid()
    ensures var p := DoProcess(c, o, users, site, sqlOk);
      var (outcome, c1) := ReadProcess(c);
      && (p.Done? && p.next == WantsInput <==> outcome == Waiting)
      && (outcome == Waiting ==> p == Done(WantsInput, c1, o, users) && c1.Valid() && |c1.data| == |c.data|)
  {
    hide ReadProcess, WriteProcess, DoRespone;
  }

  /** `do_process` after each chunk answers what the parser has made of all of them. */
  lemma {:induction false} ServeIsAnswer(c: Conn, o: Out, users: Users, site: Site, sqlOk: bool, chunks: seq<string>)
    requires c.Valid() && |c.data| + |Flat(chunks)| <= READ_BUFFER
    ensures var (outcome, c1) := Feed(c, chunks);
      Serve(c, o, users, site, sqlOk, chunks) == Answer(outcome, c1, o, users, site, sqlOk)
    decreases |chunks|
  {
    hide ReadProcess, Answer;
    if chunks == [] {
      NoAnswer(c, o, users, site, sqlOk);
    } else {
      var d := c.Receive(chunks[0]);
      StillWaiting(d, o, users, site, sqlOk);
      if ReadProcess(d).0 == Waiting {
        ServeIsAnswer(ReadProcess(d).1, o, users, site, sqlOk, chunks[1..]);
      }
    }
  }

  lemma NoAnswer(c: Conn, o: Out, users: Users, site: Site, sqlOk: bool)
    ensures Answer(Waiting, c, o, users, site, sqlOk) == Done(WantsInput, c, o, users)
  {
  }

  /**
   What can be seen of a pass from outside the object: that the program died, or what the connection does next,
   the text and the places it is about to send and its counters, whether it is kept, the users, and the URL (none
   before a request line has been read).
   */
  datatype Effect =
    | Dies
    | Effect(next: Next, text: string, sending: seq<Place>, have: nat, notSend: int, linger: bool, users: Users,
             url: Option<string>)

  function EffectOf(p: Processed): Effect {
    match p
    case Died => Dies
    case Done(next, c, o, users) =>
      Effect(next, o.text, if next == WantsOutput then Pending(o) else [], o.have, o.notSend, c.f.linger, users,
             if c.f.phase == RequestLine then None else Some(c.f.url))
  }

  /** Two passes with the same effect cannot be told apart by the client, the kernel or later requests' users. */
  lemma SameEffect(p: Processed, q: Processed)
    requires EffectOf(p) == EffectOf(q)
    ensures p == Died <==> q == Died
    ensures p.Done? ==>
      && p.next == q.next && p.users == q.users && p.c.f.linger == q.c.f.linger
      && p.o.text == q.o.text && p.o.have == q.o.have && p.o.notSend == q.o.notSend
      && (p.next == WantsOutput ==> Pending(p.o) == Pending(q.o))
      && (p.c.f.phase == RequestLine <==> q.c.f.phase == RequestLine)
      && (p.c.f.phase != RequestLine ==> p.c.f.url == q.c.f.url)
  {
    hide Pending;
  }

  // ---- bytes on the wire ----

  /** These places lie in the text of the buffer and in the mapped file. */
  predicate InBounds(places: seq<Place>, text: string, file: string) {
    forall i :: 0 <= i < |places| ==>
      0 <= places[i].offset < if places[i].region == OutBuffer then |text| else |file|
  }

  /** The bytes at these places, the buffer holding `text` and the mapped file `file`. */
  function BytesAt(places: seq<Place>, text: string, file: string): (s: string)
    requires InBounds(places, text, file)
    ensures |s| == |places|
    ensures forall i :: 0 <= i < |places| ==>
      s[i] == if places[i].region == OutBuffer then text[places[i].offset] else file[places[i].offset]
  {
    seq(|places|, i requires 0 <= i < |places| =>
      if places[i].region == OutBuffer then text[places[i].offset] else file[places[i].offset])
  }

  lemma ExpectedBytes(text: string, file: string)
    ensures InBounds(Expected(|text|, |file|), text, file)
    ensures BytesAt(Expected(|text|, |file|), text, file) == text + file
  {
  }

  /** The response a client should get: status line, headers with the true length, blank line, content. */
  function ResponseText(code: HttpCode, linger: bool, content: string): string
    requires Answered(code) && |content| < 0x8000_0000
  {
    FirstLine(code) + HeaderText(|content|, linger) + content
  }

  /** The content sent for a code, when the file asked for (if it is served at all) holds `file`. */
  function ContentOf(code: HttpCode, file: string): string
    requires Answered(code)
  {
    if code == FILE_REQUEST && file != [] then file else InlineBody(code, |file|)
  }

  /**
   A file (or an error page) is delivered, whole and in order, if and only if the kernel's replies leave nothing
   over and make at most one write short. Of the runs that finish, those with at most one short write are the
   ones that send the right places of buffer and file; the bytes there are the response.
   */
  lemma Delivered(o: Out, code: HttpCode, linger: bool, file: string, scripts: seq<seq<KernelReply>>)
    requires o.text == [] && o.have == 0 && Answered(code)
    requires code != FILE_REQUEST ==> file == []
    requires |WriteProcess(o, code, |file|, linger).1.text| + |file| < 0x8000_0000
    ensures var r := WriteProcess(o, code, |file|, linger).1;
      var p, t := Calls(AsWritten, r, scripts), TakesAll(|r.text| + |file|, scripts);
      var due := Expected(|r.text|, |file|);
      && (p.end == Finished && p.sent == due <==> t.end == Finished && t.shorts <= 1)
      && (p.end == Finished ==> (p.sent == due <==> p.shorts <= 1))
      && InBounds(due, r.text, file)
      && BytesAt(due, r.text, file) == ResponseText(code, linger, ContentOf(code, file))
  {
    hide WriteProcess, Calls, TakesAll, Expected, BytesAt, HeaderText, StatusLine, ErrorPage, EmptyPage, InBounds;
    var r := WriteProcess(o, code, |file|, linger).1;
    var h := |r.text|;
    ResponseIsFramed(o, code, |file|, linger);
    AnsweredIsReady(o, code, |file|, linger);
    var f := BodyLength(code, |file|) - |InlineBody(code, |file|)|;
    assert f == |file|;
    AtMostOneShortWrite(r, scripts, h, f);
    RepliesDecide(r, scripts, h, f);
    ExpectedBytes(r.text, file);
    if code == FILE_REQUEST && file != [] {
      assert r.text + [] == r.text;
    } else {
      assert r.text + file == r.text;
    }
  }

  /** A request without a body is read as itself in any chunks whatever. */
  lemma BodylessRequest(c: Conn, chunks: seq<string>, m: string, t: string, v: string, hs: seq<HeaderLine>)
    requires c.Valid() && c.start == c.checked == |c.data| && c.f.phase == RequestLine
    requires chunks != [] && |c.data| + |Flat(chunks)| < READ_BUFFER
    requires WellFormedRequest(m, t, v, hs)
    requires Flat(chunks) == RequestText(m, t, v, hs, [])
    requires Meaning(c.f, m, t, v, hs).contentLength == 0
    ensures Feed(c, chunks).0 == Complete && Feed(c, chunks).1.f == Meaning(c.f, m, t, v, hs)
  {
    hide HeadStep, Body, Meaning, WellFormedRequest, RequestText;
    var all := c.Receive(Flat(chunks));
    assert all.data[all.checked..] == Flat(chunks);
    HeadReadsRequest(all, m, t, v, hs, []);
    assert Head(all).0 != AtBody;
    SplitIndependent(c, chunks);
    RoundTrip(all, m, t, v, hs, []);
  }

  /** The fields that matter for a GET answered with a file. */
  lemma MeaningOfGet(f: Fields, t: string, hs: seq<HeaderLine>)
    requires WellFormedRequest("GET", t, "HTTP/1.1", hs) && !f.enablePost
    ensures var g := Meaning(f, "GET", t, "HTTP/1.1", hs);
      && UrlOf(t) == Path(g.url) && Rooted(g.url)
      && g.linger == (f.linger || KeepAlive(hs)) && !g.enablePost && g.meth == GET
  {
    hide KeepAlive, LastValue;
    UntilShape(StripScheme(t), '/');
  }

  /** What `stat` says about the file that a request with this URL asks for. */
  function StatOf(site: Site, url: string): FileStat
    requires Flag(url).Some?
  {
    site.stat(FileFor(site.docRoot, url, Flag(url).value))
  }

  /** What is mapped for a file with this content: nothing unless it is served. */
  function Mapped(stat: FileStat, file: string): string {
    if CodeFor(stat) == FILE_REQUEST then file else []
  }

  /**
   A whole exchange: a GET in any chunks whatever, on a connection ready for it. After the last chunk `do_process`
   closes the connection if the file is absent; otherwise it has a response to send: the file or the page that
   `stat` asks for, with its length and the connection choice that was asked for. The client gets exactly that if
   and only if the kernel's replies leave nothing over and make at most one write short.
   */
  lemma GetIsServed(c: Conn, o: Out, users: Users, site: Site, sqlOk: bool, file: string,
                    chunks: seq<string>, t: string, hs: seq<HeaderLine>, scripts: seq<seq<KernelReply>>)
    requires c.Valid() && c.start == c.checked == |c.data| && c.f.phase == RequestLine && !c.f.enablePost
    requires o.text == [] && o.have == 0
    requires chunks != [] && |c.data| + |Flat(chunks)| < READ_BUFFER
    requires WellFormedRequest("GET", t, "HTTP/1.1", hs)
    requires Flat(chunks) == RequestText("GET", t, "HTTP/1.1", hs, [])
    requires Meaning(c.f, "GET", t, "HTTP/1.1", hs).contentLength == 0
    requires UrlOf(t).Path? && Flag(UrlOf(t).path).Some?
    requires StatOf(site, UrlOf(t).path).Present? ==> StatOf(site, UrlOf(t).path).size == |file|
    requires var code, shown := CodeFor(StatOf(site, UrlOf(t).path)), Mapped(StatOf(site, UrlOf(t).path), file);
      |WriteProcess(o, code, |shown|, c.f.linger || KeepAlive(hs)).1.text| + |shown| < 0x8000_0000
    ensures var linger, stat := c.f.linger || KeepAlive(hs), StatOf(site, UrlOf(t).path);
      var code, shown := CodeFor(stat), Mapped(stat, file);
      var served := Serve(c, o, users, site, sqlOk, chunks);
      && served.Done? && served.next == (if stat.Absent? then Closed else WantsOutput) && served.users == users
      && served.c.f.linger == linger && Path(served.c.f.url) == UrlOf(t)
      && (stat.Present? ==>
            var r := served.o;
            var p, k := Calls(AsWritten, r, scripts), TakesAll(|r.text| + |shown|, scripts);
            var due := Expected(|r.text|, |shown|);
            && (p.end == Finished && p.sent == due <==> k.end == Finished && k.shorts <= 1)
            && (p.end == Finished ==> (p.sent == due <==> p.shorts <= 1))
            && InBounds(due, r.text, shown)
            && BytesAt(due, r.text, shown) == ResponseText(code, linger, ContentOf(code, shown)))
  {
    hide Feed, Meaning, WellFormedRequest, KeepAlive, Flag, WriteProcess, Calls, TakesAll, BytesAt, FileFor;
    hide ResponseText, ContentOf, InBounds, Expected, Serve, UrlOf, BodyLength, InlineBody, FirstLine, HeaderText;
    var linger, stat := c.f.linger || KeepAlive(hs), StatOf(site, UrlOf(t).path);
    var code, shown := CodeFor(stat), Mapped(stat, file);
    BodylessRequest(c, chunks, "GET", t, "HTTP/1.1", hs);
    MeaningOfGet(c.f, t, hs);
    ServeIsAnswer(c, o, users, site, sqlOk, chunks);
    ResponseIsFramed(o, code, |shown|, linger);
    if stat.Present? { Delivered(o, code, linger, shown, scripts); }
  }

  /** A request line that is not acceptable: the connection is answered 404, as one that is not to be kept. */
  lemma MalformedIsRefused(c: Conn, o: Out, users: Users, site: Site, sqlOk: bool, line: string, rest: string)
    requires c.Valid() && c.start == c.checked == |c.data| && c.f.phase == RequestLine && !c.f.linger
    requires o.text == [] && o.have == 0
    requires OneLine(line) && |c.data| + |line + CRLF + rest| <= READ_BUFFER
    requires !exists m, t, v :: ThreeWords(line, m, t, v) && Acceptable(m, t, v)
    ensures var p := DoProcess(c.Receive(line + CRLF + rest), o, users, site, sqlOk);
      && p.Done? && p.next == WantsOutput && p.users == users && !p.c.f.linger
      && p.o.text == "HTTP/1.1 404 Not Found\r\n" + HeaderText(49, false)
                     + "The requested file was not found on this server.\n"
  {
    hide WriteProcess, HeaderText, HeadStep, ParseRequestLine, CString;
    var d := c.Receive(line + CRLF + rest);
    assert d.data[d.checked..] == line + CRLF + rest;
    WholeLine(line);
    StepOverLine(d, line, rest);
    RequestLineAccepted(d.f, line);
    RefusalKeepsLinger(d.f, line);
    ContinueIsHeadThenBody(d);
    ResponseIsFramed(o, BAD_REQUEST, 0, false);
    PagesAre(0);
    StatusLinesAre();
  }

  lemma RefusalKeepsLinger(f: Fields, line: string)
    ensures ParseRequestLine(f, line).1.linger == f.linger
  {
  }

  // ---- forms over the wire ----

  lemma MeaningOfPost(f: Fields, t: string, hs: seq<HeaderLine>)
    requires WellFormedRequest("POST", t, "HTTP/1.1", hs)
    ensures var g := Meaning(f, "POST", t, "HTTP/1.1", hs);
      UrlOf(t) == Path(g.url) && g.enablePost && g.meth == POST && g.body == f.body
  {
    hide KeepAlive, LastValue;
    UntilShape(StripScheme(t), '/');
    assert !EqNoCase("POST", "GET");
  }

  /** The form a POST is decided by: its body or, if it has none, whatever the body field still holds. */
  function FormUsed(c: Conn, body: string): string {
    if body == [] then c.f.body else body
  }

  /** A POST to the URL of a form, with this body, in these chunks, to a connection ready for it. */
  predicate FormPost(c: Conn, chunks: seq<string>, t: string, hs: seq<HeaderLine>, body: string, flag: char): (b: bool)
    ensures b ==> c.Valid() && |c.data| + |Flat(chunks)| < READ_BUFFER
  {
    && c.Valid() && c.start == c.checked == |c.data| && c.f.phase == RequestLine
    && chunks != [] && |c.data| + |Flat(chunks)| < READ_BUFFER
    && WellFormedRequest("POST", t, "HTTP/1.1", hs)
    && Flat(chunks) == RequestText("POST", t, "HTTP/1.1", hs, body)
    && Meaning(c.f, "POST", t, "HTTP/1.1", hs).contentLength == |body| && NUL !in body
    && UrlOf(t).Path? && Flag(UrlOf(t).path) == Some(flag)
    && forall k :: k in Cuts(|c.data|, chunks) ==> !Stalls(c, Flat(chunks), k)
  }

  lemma FormArrives(c: Conn, chunks: seq<string>, t: string, hs: seq<HeaderLine>, body: string, flag: char)
    requires FormPost(c, chunks, t, hs, body, flag)
    ensures var (outcome, c1) := Feed(c, chunks);
      outcome == Complete && c1.f.enablePost && Flag(c1.f.url) == Some(flag) && c1.f.body == FormUsed(c, body)
  {
    hide Feed, Meaning, WellFormedRequest, RequestText, Stalls, Cuts, Flag;
    RoundTripInChunks(c, chunks, "POST", t, "HTTP/1.1", hs, body);
    MeaningOfPost(c.f, t, hs);
  }

  /**
   A login over the wire, in chunks that do not stall, after any run of requests. The program dies if and only if
   the form used is shorter than five bytes; otherwise the welcome page is reached if and only if that form gives
   the password loaded for its name or, failing that, the first one registered for it.
   */
  lemma LoginIsServed(c: Conn, o: Out, chunks: seq<string>, t: string, hs: seq<HeaderLine>, body: string,
                      users: Users, run: seq<Arrival>, site: Site, sqlOk: bool)
    requires FormPost(c, chunks, t, hs, body, '2')
    ensures var form, now := FormUsed(c, body), UsersAfter(users, run);
      var served := Serve(c, o, now, site, sqlOk, chunks);
      && (served == Died <==> |form| < 5)
      && (|form| >= 5 ==>
            && served.Done? && served.users == now
            && served.c.f.url == (if PasswordOf(users, run, FormUser(form)) == Some(FormPassword(form))
                                  then "/welcome.html" else "/logError.html"))
  {
    hide Feed, FormPost, Flag, UsersAfter, PasswordOf, FormUser, FormPassword, Serve, WriteProcess, ServeFile;
    FormArrives(c, chunks, t, hs, body, '2');
    ServeIsAnswer(c, o, UsersAfter(users, run), site, sqlOk, chunks);
    var f := Feed(c, chunks).1.f;
    if |f.body| >= 5 {
      LoginIffPasswordMatches(users, run, site, Arrival(f, sqlOk));
    }
  }

  /** A registration over the wire: it enters the name of the form used, unless that name is taken. */
  lemma RegistrationIsServed(c: Conn, o: Out, chunks: seq<string>, t: string, hs: seq<HeaderLine>, body: string,
                             users: Users, site: Site, sqlOk: bool)
    requires FormPost(c, chunks, t, hs, body, '3')
    ensures var form := FormUsed(c, body);
      var served := Serve(c, o, users, site, sqlOk, chunks);
      && (served == Died <==> |form| < 5)
      && (|form| >= 5 ==>
            var name := FormUser(form);
            && served.Done?
            && served.users == (if name in users then users else users[name := FormPassword(form)])
            && served.c.f.url == (if name !in users && sqlOk then "/log.html" else "/registerError.html"))
  {
    hide Feed, FormPost, Flag, FormUser, FormPassword, Serve, WriteProcess;
    FormArrives(c, chunks, t, hs, body, '3');
    ServeIsAnswer(c, o, users, site, sqlOk, chunks);
  }

  /** With the form as its body, a login is decided by the name and password it was sent with. */
  lemma LoginWithForm(c: Conn, o: Out, chunks: seq<string>, t: string, hs: seq<HeaderLine>, name: string,
                      passwd: string, users: Users, run: seq<Arrival>, site: Site, sqlOk: bool)
    requires FormPost(c, chunks, t, hs, FormText(name, passwd), '2') && '&' !in name && '=' !in passwd
    ensures var served := Serve(c, o, UsersAfter(users, run), site, sqlOk, chunks);
      && served.Done? && served.users == UsersAfter(users, run)
      && served.c.f.url ==
         (if PasswordOf(users, run, name) == Some(passwd) then "/welcome.html" else "/logError.html")
  {
    hide FormPost, FormText, UsersAfter, PasswordOf, FormUser, FormPassword, Serve;
    FormRoundTrip(name, passwd);
    LoginIsServed(c, o, chunks, t, hs, FormText(name, passwd), users, run, site, sqlOk);
  }
}
