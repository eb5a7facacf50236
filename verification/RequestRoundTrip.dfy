/**
 Printing a request as RFC 9112 sections 3 and 5 lay it out and running `read_process` on the bytes
 recovers every part of it.
 */
module RequestRoundTrip {
  import opened Options
  import opened CText
  import opened Request
  import opened SplitIndependence
  import opened BodyScanning

  /** A field line `name ":" OWS value`. */
  datatype HeaderLine = HeaderLine(name: string, blanks: string, value: string) {
    function Text(): string {
      name + ":" + blanks + value
    }

    predicate WellFormed() {
      && OneLine(name) && ':' !in name
      && (forall i :: 0 <= i < |blanks| ==> blanks[i] == ' ' || blanks[i] == '\t')
      && OneLine(value) && (value == [] || (value[0] != ' ' && value[0] != '\t'))
    }

    predicate Named(key: string) {
      EqNoCase(name, key)
    }
  }

  predicate OneLine(s: string) {
    CR !in s && LF !in s && NUL !in s
  }

  function Block(hs: seq<HeaderLine>): string {
    if hs == [] then [] else hs[0].Text() + CRLF + Block(hs[1..])
  }

  // ---- what the header list means ----

  predicate KeepAlive(hs: seq<HeaderLine>) {
    exists i :: 0 <= i < |hs| && hs[i].Named("Connection") && EqNoCase(hs[i].value, "keep-alive")
  }

  /** The value of the last field line with this name. */
  function LastValue(hs: seq<HeaderLine>, key: string): Option<string> {
    if hs == [] then None
    else if hs[|hs| - 1].Named(key) then Some(hs[|hs| - 1].value)
    else LastValue(hs[..|hs| - 1], key)
  }

  function LengthOf(hs: seq<HeaderLine>): int {
    match LastValue(hs, "Content-length")
    case None => 0
    case Some(v) => Atoi(v)
  }

  function HostOf(hs: seq<HeaderLine>, before: string): string {
    match LastValue(hs, "Host")
    case None => before
    case Some(v) => v
  }

  /** The fields after the header list `hs`, when before it they were `f`. */
  function After(f: Fields, hs: seq<HeaderLine>): (g: Fields)
    ensures g.phase == f.phase
  {
    f.(linger := f.linger || KeepAlive(hs),
       host := HostOf(hs, f.host),
       contentLength := if LastValue(hs, "Content-length") == None then f.contentLength else LengthOf(hs))
  }

  // ---- one header line ----

  lemma LowerColon(a: char)
    ensures Lower(a) == ':' <==> a == ':'
  {
  }

  lemma NameMatches(name: string, rest: string, key: string)
    requires ':' !in name && ':' !in key
    ensures StartsNoCase(name + ":" + rest, key + ":") <==> EqNoCase(name, key)
  {
    var line, p := name + ":" + rest, key + ":";
    if |name| < |key| {
      LowerColon(key[|name|]);
      assert line[|name|] == ':' && p[|name|] == key[|name|];
      assert |p| <= |line| ==> line[..|p|][|name|] == ':';
    } else if |name| > |key| {
      LowerColon(name[|key|]);
      assert line[..|p|][|key|] == name[|key|] && p[|key|] == ':';
    } else {
      assert line[..|p|] == name + ":";
      assert forall i :: 0 <= i < |name| ==> (name + ":")[i] == name[i] && p[i] == key[i];
    }
  }

  lemma ParseHeaderText(f: Fields, h: HeaderLine)
    requires h.WellFormed()
    ensures ParseHeader(f, h.Text()) == (false,
      if h.Named("Connection") then
        if EqNoCase(h.value, "keep-alive") then f.(linger := true) else f
      else if h.Named("Content-length") then f.(contentLength := Atoi(h.value))
      else if h.Named("Host") then f.(host := h.value)
      else f)
  {
    var rest := h.blanks + h.value;
    var line := h.Text();
    assert line == h.name + ":" + rest;
    assert line[|h.name| + 1..] == rest;
    NameMatches(h.name, rest, "Connection");
    NameMatches(h.name, rest, "Content-length");
    NameMatches(h.name, rest, "Host");
    assert "Connection" + ":" == "Connection:" && "Content-length" + ":" == "Content-length:";
    assert "Host" + ":" == "Host:";
    BlanksAreSkipped(h.blanks, h.value);
  }

  lemma BlankLine(f: Fields)
    ensures CString([]) == []
    ensures ParseHeader(f, []) == if f.contentLength != 0 then (false, f.(phase := Content)) else (true, f)
  {
  }

  lemma DifferentNames(h: HeaderLine)
    ensures h.Named("Connection") ==> !h.Named("Content-length") && !h.Named("Host")
    ensures h.Named("Content-length") ==> !h.Named("Host")
  {
  }

  /** Reading one more line after the list `hs` gives the meaning of the longer list. */
  lemma OneMoreHeader(f: Fields, hs: seq<HeaderLine>, h: HeaderLine)
    requires h.WellFormed()
    ensures ParseHeader(After(f, hs), h.Text()) == (false, After(f, hs + [h]))
  {
    ParseHeaderText(After(f, hs), h);
    DifferentNames(h);
    var longer := hs + [h];
    assert longer[..|hs|] == hs && longer[|hs|] == h;
    if KeepAlive(hs) {
      var i :| 0 <= i < |hs| && hs[i].Named("Connection") && EqNoCase(hs[i].value, "keep-alive");
      assert longer[i] == hs[i];
    }
    assert KeepAlive(longer) <==> KeepAlive(hs) || (h.Named("Connection") && EqNoCase(h.value, "keep-alive"));
  }

  /** Three header lines, letter by letter. */
  lemma HeaderLineExamples(f: Fields)
    ensures ParseHeader(f, "Connection: keep-alive") == (false, f.(linger := true))
    ensures ParseHeader(f, "connection:\tKeep-Alive") == (false, f.(linger := true))
    ensures ParseHeader(f, "Connection: close") == (false, f)
    ensures ParseHeader(f, "Host: x") == (false, f.(host := "x"))
    ensures ParseHeader(f, "Content-Length: 12") == (false, f.(contentLength := 12))
    ensures ParseHeader(f, "Accept: */*") == (false, f)
  {
    KeepAliveExamples(f);
    HostExample(f);
    LengthExample(f);
    UnknownExample(f);
  }

  lemma KeepAliveExamples(f: Fields)
    ensures ParseHeader(f, "Connection: keep-alive") == (false, f.(linger := true))
    ensures ParseHeader(f, "connection:\tKeep-Alive") == (false, f.(linger := true))
    ensures ParseHeader(f, "Connection: close") == (false, f)
  {
    hide EqNoCase, SkipBlanks;
    assert EqNoCase("Connection:", "Connection:") && EqNoCase("connection:", "Connection:") by { SameWord(); }
    assert EqNoCase("keep-alive", "keep-alive") && EqNoCase("Keep-Alive", "keep-alive") by { SameWord(); }
    assert !EqNoCase("close", "keep-alive") by { SameWord(); }
    var a, b, c := "Connection: keep-alive", "connection:\tKeep-Alive", "Connection: close";
    assert a[..11] == "Connection:" && b[..11] == "connection:" && c[..11] == "Connection:";
    assert a[11..] == " " + "keep-alive" && b[11..] == "\t" + "Keep-Alive" && c[11..] == " " + "close";
    BlanksAreSkipped(" ", "keep-alive");
    BlanksAreSkipped("\t", "Keep-Alive");
    BlanksAreSkipped(" ", "close");
  }

  lemma SameWord()
    ensures EqNoCase("Connection:", "Connection:") && EqNoCase("connection:", "Connection:")
    ensures EqNoCase("keep-alive", "keep-alive") && EqNoCase("Keep-Alive", "keep-alive")
    ensures !EqNoCase("close", "keep-alive")
  {
  }

  lemma HostExample(f: Fields)
    ensures ParseHeader(f, "Host: x") == (false, f.(host := "x"))
  {
    hide Atoi;
    var a := "Host: x";
    assert a[..5] == "Host:" && a[5..] == " " + "x";
    BlanksAreSkipped(" ", "x");
  }

  lemma LengthExample(f: Fields)
    ensures ParseHeader(f, "Content-Length: 12") == (false, f.(contentLength := 12))
  {
    hide Atoi;
    var a := "Content-Length: 12";
    assert a[..15] == "Content-Length:" && a[15..] == " " + "12";
    assert !StartsNoCase(a, "Connection:") by { assert a[..11][3] == 't' && "Connection:"[3] == 'n'; }
    BlanksAreSkipped(" ", "12");
    assert Decimal(12) == "12";
    AtoiDecimal(12);
  }

  lemma UnknownExample(f: Fields)
    ensures ParseHeader(f, "Accept: */*") == (false, f)
  {
    hide Atoi, SkipBlanks;
    var a := "Accept: */*";
    assert a[..11][0] == 'A' && a[..5][0] == 'A';
  }

  // ---- lines in the buffer ----

  lemma WholeLine(line: string)
    requires OneLine(line)
    ensures CString(line) == line
  {
    UntilAll(line, NUL);
  }

  lemma {:induction false} ScanFinds(s: string, i: nat, j: nat)
    requires i <= j && j + 1 < |s| && s[j] == CR && s[j + 1] == LF
    requires forall k :: i <= k < j ==> s[k] != CR && s[k] != LF
    ensures Scan(s, i) == (LineOk, j)
    decreases j - i
  {
    if i < j {
      ScanFinds(s, i + 1, j);
    }
  }

  /** The buffer holds `line` at the cursor, then CRLF, then `rest`. */
  predicate LineAhead(c: Conn, line: string, rest: string) {
    c.Valid() && c.start == c.checked && c.f.phase != Content &&
    CR !in line && LF !in line && c.data[c.checked..] == line + CRLF + rest
  }

  lemma LineBytes(data: string, at: nat, line: string, rest: string)
    requires at <= |data| && data[at..] == line + CRLF + rest
    ensures var j := at + |line|;
      && j + 1 < |data| && data[j] == CR && data[j + 1] == LF && data[at..j] == line
      && (forall k :: at <= k < j ==> data[k] == line[k - at])
      && data[j := NUL][j + 1 := NUL][at..] == (line + [NUL]) + ([NUL] + rest)
      && data[j := NUL][j + 1 := NUL][j + 2..] == rest
  {
    var ahead := data[at..];
    assert forall k :: at <= k < |data| ==> data[k] == ahead[k - at];
  }

  /** The line handed to the parser is the bytes before the CRLF (up to a NUL), and `rest` is next. */
  lemma StepOverLine(c: Conn, line: string, rest: string)
    requires LineAhead(c, line, rest)
    ensures var (end, c1) := HeadStep(c);
      var (flag, f) :=
        if c.f.phase == RequestLine then ParseRequestLine(c.f, CString(line)) else ParseHeader(c.f, CString(line));
      && c1.f == f && |c1.data| == |c.data| && c1.start == c1.checked == c.checked + |line| + 2
      && c1.data[c1.checked..] == rest
      && end == if c.f.phase == RequestLine then (if flag then None else Some(Rejected))
                else (if flag then Some(Complete) else None)
  {
    hide ParseRequestLine, ParseHeader, Until;
    var j := c.checked + |line|;
    LineBytes(c.data, c.checked, line, rest);
    ScanFinds(c.data, c.checked, j);
    UntilIgnoresTail(line + [NUL], [NUL] + rest, NUL);
    UntilTerminated(line);
  }

  // ---- the header list ----

  lemma {:induction false} HeadReadsHeaders(c: Conn, f: Fields, done: seq<HeaderLine>, hs: seq<HeaderLine>,
                                            rest: string)
    requires c.Valid() && c.start == c.checked && f.phase == Header && c.f == After(f, done)
    requires forall i :: 0 <= i < |hs| ==> hs[i].WellFormed()
    requires c.data[c.checked..] == Block(hs) + CRLF + rest
    ensures var (end, b) := Head(c);
      var g := After(f, done + hs);
      && |b.data| == |c.data| && b.start == b.checked == c.checked + |Block(hs)| + 2
      && b.data[b.checked..] == rest
      && end == (if g.contentLength != 0 then AtBody else Stopped(Complete))
      && b.f == (if g.contentLength != 0 then g.(phase := Content) else g)
    decreases |hs|
  {
    hide HeadStep, After, ParseHeader, ParseRequestLine, CString;
    if hs == [] {
      BlankLine(c.f);
      assert done + hs == done;
      assert c.data[c.checked..] == [] + CRLF + rest;
      StepOverLine(c, [], rest);
    } else {
      var line, more := hs[0].Text(), Block(hs[1..]) + CRLF + rest;
      assert c.data[c.checked..] == line + CRLF + more;
      TextIsOneLine(hs[0]);
      StepOverLine(c, line, more);
      WholeLine(line);
      OneMoreHeader(f, done, hs[0]);
      var c1 := HeadStep(c).1;
      assert (done + [hs[0]]) + hs[1..] == done + hs;
      HeadReadsHeaders(c1, f, done + [hs[0]], hs[1..], rest);
    }
  }

  lemma TextIsOneLine(h: HeaderLine)
    requires h.WellFormed()
    ensures OneLine(h.Text())
  {
    forall i | 0 <= i < |h.Text()|
      ensures h.Text()[i] != CR && h.Text()[i] != LF && h.Text()[i] != NUL
    {
      if i < |h.name| { assert h.Text()[i] == h.name[i]; }
      else if |h.name| < i < |h.name| + 1 + |h.blanks| { assert h.Text()[i] == h.blanks[i - |h.name| - 1]; }
      else if i >= |h.name| + 1 + |h.blanks| { assert h.Text()[i] == h.value[i - |h.name| - 1 - |h.blanks|]; }
    }
  }

  // ---- the request line ----

  lemma TokensStep(w: string, rest: string)
    requires ' ' !in w
    ensures Tokens(w + " " + rest) == [w] + Tokens(rest)
    ensures w != [] ==> Tokens(w) == [w]
  {
    var s := w + " " + rest;
    assert s[|w|] == ' ' && s[..|w|] == w && s[|w| + 1..] == rest;
    UntilStops(s, ' ', |w|);
    UntilAll(w, ' ');
  }

  /** `line` is made of these three words, one space between them and perhaps one more at the end. */
  predicate ThreeWords(line: string, m: string, t: string, v: string) {
    ' ' !in m && ' ' !in t && ' ' !in v &&
    (line == m + " " + t + " " + v || line == m + " " + t + " " + v + " ")
  }

  lemma TokensOfThree(line: string, m: string, t: string, v: string)
    requires ThreeWords(line, m, t, v) && v != []
    ensures Tokens(line) == [m, t, v]
  {
    var tail := if line == m + " " + t + " " + v then v else v + " " + [];
    assert line == m + " " + (t + " " + tail);
    TokensStep(m, t + " " + tail);
    TokensStep(t, tail);
    TokensStep(v, []);
  }

  lemma FirstOfSeveral(s: string) returns (rest: string)
    requires |Tokens(s)| > 1
    ensures ' ' !in Tokens(s)[0] && s == Tokens(s)[0] + " " + rest && Tokens(rest) == Tokens(s)[1..]
  {
    UntilShape(s, ' ');
    var w := Until(s, ' ');
    rest := s[|w| + 1..];
    assert s == w + [s[|w|]] + rest;
  }

  lemma LastOne(s: string)
    requires |Tokens(s)| == 1
    ensures ' ' !in Tokens(s)[0] && (s == Tokens(s)[0] || s == Tokens(s)[0] + " ")
  {
    UntilShape(s, ' ');
    var w := Until(s, ' ');
    if |w| < |s| {
      assert Tokens(s[|w| + 1..]) == [] && s[|w| + 1..] == [];
      assert s == w + [s[|w|]];
    }
  }

  lemma ThreeTokens(line: string)
    requires |Tokens(line)| == 3
    ensures ThreeWords(line, Tokens(line)[0], Tokens(line)[1], Tokens(line)[2])
  {
    hide Tokens;
    var words := Tokens(line);
    var rest := FirstOfSeveral(line);
    var last := FirstOfSeveral(rest);
    LastOne(last);
    assert Tokens(last) == [words[2]];
    var lead := words[0] + " " + words[1] + " ";
    assert line == lead + last;
    assert lead + (words[2] + " ") == lead + words[2] + " ";
  }

  /** A request line of section 3 of RFC 9112 that this server takes. */
  predicate Acceptable(m: string, t: string, v: string) {
    (EqNoCase(m, "GET") || EqNoCase(m, "POST")) && EqNoCase(v, "HTTP/1.1") && '/' in StripScheme(t)
  }

  /** The request-line parser accepts exactly the lines of three acceptable words. */
  lemma RequestLineAccepted(f: Fields, line: string)
    ensures ParseRequestLine(f, line).0 <==>
      exists m, t, v :: ThreeWords(line, m, t, v) && Acceptable(m, t, v)
  {
    if m, t, v :| ThreeWords(line, m, t, v) && Acceptable(m, t, v) {
      TokensOfThree(line, m, t, v);
      UntilShape(StripScheme(t), '/');
      assert ParseRequestLine(f, line).0;
    }
    if ParseRequestLine(f, line).0 {
      var words := Tokens(line);
      ThreeTokens(line);
      UntilShape(StripScheme(words[1]), '/');
      assert Acceptable(words[0], words[1], words[2]);
    }
  }

  /** The fields after an acceptable request line. */
  function AfterRequestLine(f: Fields, m: string, t: string, v: string): Fields
    requires Acceptable(m, t, v)
  {
    UntilShape(StripScheme(t), '/');
    f.(phase := Header,
       meth := if EqNoCase(m, "GET") then GET else POST,
       enablePost := f.enablePost || !EqNoCase(m, "GET"),
       version := v,
       url := UrlOf(t).path)
  }

  lemma RequestLineFields(f: Fields, line: string, m: string, t: string, v: string)
    requires ThreeWords(line, m, t, v) && Acceptable(m, t, v)
    ensures ParseRequestLine(f, line) == (true, AfterRequestLine(f, m, t, v))
  {
    TokensOfThree(line, m, t, v);
    UntilShape(StripScheme(t), '/');
  }

  /**
   Which fields stay set when a request line is refused: none if there are not three words or the method is neither;
   the method if the version is another; method and version if the target has no slash.
   */
  lemma RefusedLineFields(f: Fields, line: string)
    requires !ParseRequestLine(f, line).0
    ensures var g, words := ParseRequestLine(f, line).1, Tokens(line);
      if |words| != 3 || !(EqNoCase(words[0], "GET") || EqNoCase(words[0], "POST")) then g == f
      else
        var post, http11 := EqNoCase(words[0], "POST"), EqNoCase(words[2], "HTTP/1.1");
        && g.meth == (if post then POST else GET) && g.enablePost == (f.enablePost || post)
        && g.version == (if http11 then words[2] else f.version)
        && (http11 ==> '/' !in StripScheme(words[1]))
        && g == f.(meth := g.meth, enablePost := g.enablePost, version := g.version)
  {
    hide StripScheme;
    if |Tokens(line)| == 3 {
      UntilShape(StripScheme(Tokens(line)[1]), '/');
      assert EqNoCase(Tokens(line)[0], "GET") ==> |Tokens(line)[0]| == 3;
    }
  }

  // ---- target forms ----

  lemma SchemeIsStripped(scheme: string, rest: string)
    requires EqNoCase(scheme, "http://") || EqNoCase(scheme, "https://")
    ensures StripScheme(scheme + rest) == rest
  {
    var t := scheme + rest;
    assert t[..|scheme|] == scheme && t[|scheme|..] == rest;
    if |scheme| == 8 {
      assert t[..7][4] == scheme[4];
      assert Lower(scheme[4]) == Lower("https://"[4]) == 's' && Lower("http://"[4]) == ':';
    }
  }

  lemma NothingToStrip(path: string)
    requires path != [] && path[0] == '/'
    ensures StripScheme(path) == path
  {
    assert Lower(path[0]) == '/' != Lower("http://"[0]);
    assert |path| >= 7 ==> path[..7][0] == path[0];
    assert |path| >= 8 ==> path[..8][0] == path[0];
  }

  /** Origin-form and absolute-form (sections 3.2.1 and 3.2.2 of RFC 9112) of one path give one URL. */
  lemma TargetForms(scheme: string, host: string, path: string)
    requires EqNoCase(scheme, "http://") || EqNoCase(scheme, "https://")
    requires '/' !in host && path != [] && path[0] == '/'
    ensures UrlOf(scheme + host + path) == UrlOf(path)
    ensures UrlOf(path) == Path(if path == "/" then "/judge.html" else path)
  {
    hide StripScheme;
    var rest := host + path;
    assert scheme + host + path == scheme + rest;
    SchemeIsStripped(scheme, rest);
    NothingToStrip(path);
    assert rest[|host|] == '/' && rest[..|host|] == host && rest[|host|..] == path;
    UntilStops(rest, '/', |host|);
    UntilStops(path, '/', 0);
    assert path[0..] == path;
  }

  // ---- whole requests ----

  function RequestText(m: string, t: string, v: string, hs: seq<HeaderLine>, body: string): string {
    m + " " + t + " " + v + CRLF + Block(hs) + CRLF + body
  }

  predicate WellFormedRequest(m: string, t: string, v: string, hs: seq<HeaderLine>) {
    Acceptable(m, t, v) && OneLine(t) && ' ' !in t && forall i :: 0 <= i < |hs| ==> hs[i].WellFormed()
  }

  /** What the request line and the headers say, on a connection whose fields were `f`. */
  function Meaning(f: Fields, m: string, t: string, v: string, hs: seq<HeaderLine>): Fields
    requires Acceptable(m, t, v)
  {
    After(AfterRequestLine(f, m, t, v), hs)
  }

  /** On a connection that has just been reset nothing is presumed: not kept, no form, no body. */
  lemma MeaningAfterReset(url: string, version: string, host: string, left: string,
                          m: string, t: string, v: string, hs: seq<HeaderLine>)
    requires Acceptable(m, t, v)
    ensures UrlOf(t).Path? && Fresh(url, version, host, left).f.meth == GET
    ensures Meaning(Fresh(url, version, host, left).f, m, t, v, hs) ==
      Fields(Header, if EqNoCase(m, "GET") then GET else POST, EqNoCase(m, "POST"), UrlOf(t).path, v,
             HostOf(hs, host), if LastValue(hs, "Content-length") == None then 0 else LengthOf(hs), KeepAlive(hs), left)
  {
    hide StripScheme, KeepAlive, LastValue;
    UntilShape(StripScheme(t), '/');
    assert EqNoCase(m, "GET") ==> |m| == 3;
  }

  lemma EqNoCaseIsPlain(a: string, key: string)
    requires EqNoCase(a, key)
    requires forall i :: 0 <= i < |key| ==> Lower(key[i]) !in {CR, LF, NUL, ' '}
    ensures OneLine(a) && ' ' !in a
  {
  }

  lemma RequestLineIsOneLine(m: string, t: string, v: string)
    requires Acceptable(m, t, v) && OneLine(t) && ' ' !in t
    ensures OneLine(m + " " + t + " " + v) && ' ' !in m && ' ' !in v
  {
    EqNoCaseIsPlain(m, if EqNoCase(m, "GET") then "GET" else "POST");
    EqNoCaseIsPlain(v, "HTTP/1.1");
  }

  /** The first line is taken, the header list is taken, and the body (if any) is next. */
  lemma HeadReadsRequest(c: Conn, m: string, t: string, v: string, hs: seq<HeaderLine>, body: string)
    requires c.Valid() && c.start == c.checked && c.f.phase == RequestLine
    requires WellFormedRequest(m, t, v, hs)
    requires c.data[c.checked..] == RequestText(m, t, v, hs, body)
    ensures var (end, b) := Head(c);
      var g := Meaning(c.f, m, t, v, hs);
      && b.start == b.checked == |c.data| - |body| && b.data[b.checked..] == body && |b.data| == |c.data|
      && end == (if g.contentLength != 0 then AtBody else Stopped(Complete))
      && b.f == (if g.contentLength != 0 then g.(phase := Content) else g)
  {
    hide HeadStep, After, AfterRequestLine, ParseRequestLine, ParseHeader, Acceptable, CString;
    var line := m + " " + t + " " + v;
    var more := Block(hs) + CRLF + body;
    assert c.data[c.checked..] == line + CRLF + more;
    RequestLineIsOneLine(m, t, v);
    WholeLine(line);
    StepOverLine(c, line, more);
    RequestLineFields(c.f, line, m, t, v);
    var c1 := HeadStep(c).1;
    var f := AfterRequestLine(c.f, m, t, v);
    NoHeaders(f);
    assert [] + hs == hs;
    HeadReadsHeaders(c1, f, [], hs, body);
  }

  lemma NoHeaders(f: Fields)
    ensures After(f, []) == f
  {
  }

  lemma BodyIsRead(b: Conn, body: string)
    requires Clean(b) && b.f.phase == Content && b.data[b.checked..] == body
    requires 0 < b.f.contentLength <= |body| && |b.data| < READ_BUFFER
    ensures var n := b.f.contentLength;
      var (o, c1) := Body(b, true);
      o == Complete && c1.f == b.f.(body := CString(body[..n])) && (NUL !in body[..n] ==> c1.f.body == body[..n])
  {
    hide Body, CString;
    var n := b.f.contentLength;
    BodyText(b);
    assert b.data[b.start..b.start + n] == b.data[b.checked..][..n];
    if NUL !in body[..n] { WholeBody(body[..n]); }
  }

  /** `data` are the bytes as received. */
  lemma BodyIsShort(b: Conn, data: string)
    requires Clean(b) && b.f.phase == Content && |b.data| == |data| && b.data[b.checked..] == data[b.checked..]
    requires |data| < b.checked + b.f.contentLength
    ensures Body(b, true).0 ==
      if b.f.contentLength + LastLineEnd(data, b.checked) >= 0x8000_0000 then Overrun else Waiting
  {
    hide Body, LastLineEnd, ScanAll;
    BodyRuns(b);
    ScanAllSuffix(b.data, data, b.checked);
  }

  /**
   Round trip: the bytes of a request are read as the request. The answer is NO_REQUEST exactly while
   the announced body is not there in full, except that a length near the end of the `int` range overflows
   with the cursor at the end of some line in the body; a body without NULs is recovered whole.
   */
  lemma RoundTrip(c: Conn, m: string, t: string, v: string, hs: seq<HeaderLine>, body: string)
    requires c.Valid() && c.start == c.checked && c.f.phase == RequestLine
    requires WellFormedRequest(m, t, v, hs)
    requires c.data[c.checked..] == RequestText(m, t, v, hs, body)
    requires Meaning(c.f, m, t, v, hs).contentLength >= 0
    requires Meaning(c.f, m, t, v, hs).contentLength <= |body| ==> |c.data| < READ_BUFFER
    ensures var g := Meaning(c.f, m, t, v, hs);
      var n := g.contentLength;
      var (o, c1) := ReadProcess(c);
      && o == (if n <= |body| then Complete
               else if n + LastLineEnd(c.data, |c.data| - |body|) >= 0x8000_0000 then Overrun
               else Waiting)
      && (n == 0 ==> c1.f == g)
      && (0 < n <= |body| ==> c1.f == g.(phase := Content, body := CString(body[..n])))
      && (0 < n <= |body| && NUL !in body[..n] ==> c1.f.body == body[..n])
  {
    hide HeadStep, After, AfterRequestLine, RequestText, Body, LastLineEnd, Head, Acceptable;
    HeadReadsRequest(c, m, t, v, hs, body);
    ContinueIsHeadThenBody(c);
    HeadIsClean(c);
    var n := Meaning(c.f, m, t, v, hs).contentLength;
    if 0 < n <= |body| {
      BodyIsRead(Head(c).1, body);
    } else if n > 0 {
      BodyIsShort(Head(c).1, c.data);
    }
  }

  /** In any chunks that do not stall, the request is read as the request. */
  lemma RoundTripInChunks(c: Conn, chunks: seq<string>, m: string, t: string, v: string, hs: seq<HeaderLine>,
                          body: string)
    requires c.Valid() && c.start == c.checked == |c.data| && c.f.phase == RequestLine
    requires chunks != [] && |c.data| + |Flat(chunks)| < READ_BUFFER
    requires WellFormedRequest(m, t, v, hs)
    requires Flat(chunks) == RequestText(m, t, v, hs, body)
    requires Meaning(c.f, m, t, v, hs).contentLength == |body| && NUL !in body
    requires forall k :: k in Cuts(|c.data|, chunks) ==> !Stalls(c, Flat(chunks), k)
    ensures var g := Meaning(c.f, m, t, v, hs);
      var (o, c1) := Feed(c, chunks);
      o == Complete && c1.f == if body == [] then g else g.(phase := Content, body := body)
  {
    hide HeadStep, Body, Meaning;
    var all := c.Receive(Flat(chunks));
    assert all.data[all.checked..] == Flat(chunks);
    HeadReadsRequest(all, m, t, v, hs, body);
    SplitIndependent(c, chunks);
    RoundTrip(all, m, t, v, hs, body);
    assert body[..|body|] == body;
    WholeBody(body);
  }

  lemma WholeBody(body: string)
    requires NUL !in body
    ensures CString(body) == body
  {
    UntilAll(body, NUL);
  }

  // ---- a request cut inside its body ----

  /**
   A request whose body starts with neither CR nor LF, cut anywhere strictly inside that body, is never
   answered, although all of it has arrived and one `recv` of the same bytes would have completed it.
   */
  lemma CutInsideBodyIsNeverAnswered(c: Conn, m: string, t: string, v: string, hs: seq<HeaderLine>,
                                     body: string, k: nat)
    requires c.Valid() && c.start == c.checked == |c.data| && c.f.phase == RequestLine
    requires WellFormedRequest(m, t, v, hs) && Meaning(c.f, m, t, v, hs).contentLength == |body|
    requires 0 < k < |body| && body[0] != CR && body[0] != LF
    requires |c.data| + |RequestText(m, t, v, hs, body)| < READ_BUFFER
    ensures var s := RequestText(m, t, v, hs, body);
      var cut := |s| - |body| + k;
      Flat([s[..cut], s[cut..]]) == s
      && Feed(c, [s[..cut], s[cut..]]).0 == Waiting
      && ReadProcess(c.Receive(s)).0 == Complete
  {
    hide HeadStep, Body, Meaning, WellFormedRequest, RequestText, Feed, Scan;
    var s := RequestText(m, t, v, hs, body);
    assert s == RequestText(m, t, v, hs, []) + body by { TextEndsInBody(m, t, v, hs, body); }
    var cut := |s| - |body| + k;
    var u, w := s[..cut], s[cut..];
    var all := c.Receive(s);
    FlatTwo(u, w);
    assert u + w == s;
    assert all.data[all.checked..] == s;
    HeadReadsRequest(all, m, t, v, hs, body);
    var b := Head(all).1;
    assert b.data[b.checked..] == body;
    assert b.data[..|c.data| + cut][b.checked] == body[0];
    assert [u, w][0] == u;
    assert |c.data| + cut in Cuts(|c.data|, [u, w]);
    assert Stalls(c, s, |c.data| + cut);
    SplitExactly(c, [u, w]);
  }

  lemma TextEndsInBody(m: string, t: string, v: string, hs: seq<HeaderLine>, body: string)
    ensures RequestText(m, t, v, hs, body) == RequestText(m, t, v, hs, []) + body
  {
    var lead := m + " " + t + " " + v + CRLF + Block(hs) + CRLF;
    assert lead + [] == lead;
  }

  /** Such a request: two bytes of body, each in a chunk of its own. */
  lemma CutInsideBodyExample()
    ensures var c := Fresh([], [], [], []);
      var hs := [HeaderLine("Content-length", "", "2")];
      var s := RequestText("POST", "/", "HTTP/1.1", hs, "ab");
      0 < |s| < READ_BUFFER
      && Flat([s[..|s| - 1], s[|s| - 1..]]) == s
      && Feed(c, [s[..|s| - 1], s[|s| - 1..]]).0 == Waiting
      && ReadProcess(c.Receive(s)).0 == Complete
  {
    hide HeadStep, Body, Feed, Scan, Meaning, WellFormedRequest;
    var c := Fresh([], [], [], []);
    ExampleHeader("2", 2);
    CutInsideBodyIsNeverAnswered(c, "POST", "/", "HTTP/1.1", [HeaderLine("Content-length", "", "2")], "ab", 1);
  }

  predicate TwoExamples(value: string, n: int) {
    (value == "2" && n == 2) || (value == "-1" && n == -1)
  }

  lemma ExampleHeader(value: string, n: int)
    requires TwoExamples(value, n)
    ensures var hs := [HeaderLine("Content-length", "", value)];
      && WellFormedRequest("POST", "/", "HTTP/1.1", hs)
      && Meaning(Fresh([], [], [], []).f, "POST", "/", "HTTP/1.1", hs).contentLength == n
      && |RequestText("POST", "/", "HTTP/1.1", hs, "ab")| < 100
  {
    hide Atoi;
    var h := HeaderLine("Content-length", "", value);
    assert h.WellFormed() by {
      assert forall i :: 0 <= i < 14 ==> "Content-length"[i] !in {CR, LF, NUL, ':'};
    }
    NumberOf(value, n);
    assert [h][..0] == [] && LastValue([h], "Content-length") == Some(value);
    assert LengthOf([h]) == n;
    assert StripScheme("/") == "/";
    assert Acceptable("POST", "/", "HTTP/1.1");
    assert |Block([h])| == |h.Text()| + 2 by { assert [h][1..] == []; }
  }

  lemma NumberOf(value: string, n: int)
    requires TwoExamples(value, n)
    ensures Atoi(value) == n
  {
    assert Decimal(2) == "2";
    AtoiDecimal(2);
    assert "-1"[1..] == "1" && "1"[1..] == "";
    assert LeadingNumber("1", 0) == 1;
  }

  // ---- a cut inside the body that does no harm, because more follows ----

  predicate Plain(s: string) {
    CR !in s && LF !in s
  }

  lemma {:induction false} ScanPlain(s: string, i: nat)
    requires i <= |s| && Plain(s[i..])
    ensures Scan(s, i) == (LineOpen, |s|)
    decreases |s| - i
  {
    if i < |s| {
      assert s[i] == s[i..][0] && s[i + 1..] == s[i..][1..];
      ScanPlain(s, i + 1);
    }
  }

  /**
   A request whose body begins with `k` bytes that are neither CR nor LF, cut after them, so that the scanner
   moves. If at least `k` bytes follow the body in the second chunk, it is answered as it would be in one chunk.
   */
  lemma CutInsideBodyThenMore(c: Conn, m: string, t: string, v: string, hs: seq<HeaderLine>,
                              body: string, more: string, k: nat)
    requires c.Valid() && c.start == c.checked == |c.data| && c.f.phase == RequestLine
    requires WellFormedRequest(m, t, v, hs) && Meaning(c.f, m, t, v, hs).contentLength == |body|
    requires 0 < k < |body| && Plain(body[..k]) && NUL !in body && k <= |more|
    requires |c.data| + |RequestText(m, t, v, hs, body + more)| < READ_BUFFER
    ensures var s := RequestText(m, t, v, hs, body + more);
      var cut := |s| - |body + more| + k;
      && Flat([s[..cut], s[cut..]]) == s && Stalls(c, s, |c.data| + cut)
      && var twice, once := Feed(c, [s[..cut], s[cut..]]), ReadProcess(c.Receive(s));
         twice.0 == once.0 == Complete && twice.1.f == once.1.f && once.1.f.body == body
  {
    hide HeadStep, Body, Meaning, WellFormedRequest, RequestText, Feed, Scan, ScanAll, LastLineEnd, Head, Stalls;
    hide Stream.FirstEnough, Stream.TextAt, Stream.Stand, Stream.Enough;
    var all := body + more;
    var s := RequestText(m, t, v, hs, all);
    TextEndsInBody(m, t, v, hs, all);
    var cut := |s| - |all| + k;
    var chunks := [s[..cut], s[cut..]];
    FlatTwo(s[..cut], s[cut..]);
    assert s[..cut] + s[cut..] == s;
    var d := c.Receive(s);
    assert d.data[d.checked..] == s;
    HeadReadsRequest(d, m, t, v, hs, all);
    RoundTrip(d, m, t, v, hs, all);
    assert all[..|body|] == body;
    WholeBody(body);
    var b := Head(d).1;
    MovedInside(b.data, all, b.checked, k);
    CutMoves(c, s, b, |c.data| + cut);
    var w := StreamOf(c, chunks);
    assert w.ends == [|c.data|, |c.data| + cut, |c.data| + |s|];
    AnsweredExactlyWhen(c, chunks);
    SecondIsEnough(w, k);
    assert w.bytes[w.body..w.body + w.length] == body;
  }

  /** Two chunks, the first with `k` bytes of the body, over which the scanner runs. */
  lemma SecondIsEnough(w: Stream, k: nat)
    requires w.Valid() && |w.ends| == 3 && w.ends[1] == w.body + k && 0 < k < w.length
    requires w.body + k + w.length <= w.ends[2]
    requires ScanAll(w.bytes[..w.body + k], w.body) == w.body + k
    requires LastLineEnd(w.bytes[..w.body + k], w.body) == w.body
    ensures w.FirstEnough(0) == 1 && w.TextAt(1) == CString(w.bytes[w.body..w.body + w.length])
  {
    hide ScanAll, LastLineEnd, CString;
    assert !w.Enough(0) && w.Enough(1);
  }

  lemma MovedInside(data: string, all: string, h: nat, k: nat)
    requires h + |all| == |data| && data[h..] == all && 0 < k <= |all| && Plain(all[..k])
    ensures var now := data[..h + k];
      ScanAll(now, h) == h + k && LastLineEnd(now, h) == h && !Holds(now, h)
  {
    hide Scan;
    var now := data[..h + k];
    assert now[h..] == all[..k];
    assert now[h] == all[..k][0];
    ScanPlain(now, h);
  }

  lemma CutMoves(c: Conn, s: string, b: Conn, k: nat)
    requires c.Valid() && |c.data| + |s| <= READ_BUFFER && Head(c.Receive(s)) == (AtBody, b)
    requires b.checked < k < b.checked + b.f.contentLength && k <= |b.data| && !Holds(b.data[..k], b.checked)
    ensures Stalls(c, s, k)
  {
    hide Head, Holds;
  }

  /** For instance: "ab" cut after its first byte and followed by one more. */
  lemma CutThenMoreExample()
    ensures var c := Fresh([], [], [], []);
      var hs := [HeaderLine("Content-length", "", "2")];
      var s := RequestText("POST", "/", "HTTP/1.1", hs, "abc");
      && 2 < |s| < READ_BUFFER && Flat([s[..|s| - 2], s[|s| - 2..]]) == s && Stalls(c, s, |s| - 2)
      && var twice, once := Feed(c, [s[..|s| - 2], s[|s| - 2..]]), ReadProcess(c.Receive(s));
         twice.0 == once.0 == Complete && twice.1.f == once.1.f && once.1.f.body == "ab"
  {
    hide HeadStep, Body, Feed, Scan, Meaning, WellFormedRequest, Stalls;
    var c := Fresh([], [], [], []);
    ExampleHeader("2", 2);
    var hs := [HeaderLine("Content-length", "", "2")];
    assert "ab" + "c" == "abc" && "ab"[..1] == "a";
    TextEndsInBody("POST", "/", "HTTP/1.1", hs, "ab");
    TextEndsInBody("POST", "/", "HTTP/1.1", hs, "abc");
    CutInsideBodyThenMore(c, "POST", "/", "HTTP/1.1", hs, "ab", "c", 1);
  }

  // ---- a negative Content-Length ----

  /**
   With a negative Content-Length the same bytes give the whole of what follows the headers as body in one
   chunk, and only the part before the cut in two.
   */
  lemma NegativeLengthInTwoChunks(c: Conn, m: string, t: string, v: string, hs: seq<HeaderLine>,
                                  body: string, k: nat)
    requires c.Valid() && c.start == c.checked == |c.data| && c.f.phase == RequestLine
    requires WellFormedRequest(m, t, v, hs) && k <= |body| && NUL !in body
    requires Meaning(c.f, m, t, v, hs).contentLength < 0
    requires |c.data| + |RequestText(m, t, v, hs, [])| + Meaning(c.f, m, t, v, hs).contentLength >= 0
    requires |c.data| + |RequestText(m, t, v, hs, body)| < READ_BUFFER
    ensures var s := RequestText(m, t, v, hs, body);
      var cut := |s| - |body| + k;
      && cut <= |s| && Flat([s]) == s && Flat([s[..cut], s[cut..]]) == s
      && Feed(c, [s]).0 == Complete && Feed(c, [s]).1.f.body == body
      && Feed(c, [s[..cut], s[cut..]]).0 == Complete && Feed(c, [s[..cut], s[cut..]]).1.f.body == body[..k]
  {
    hide HeadStep, Body, Meaning, WellFormedRequest, RequestText, Feed, Scan;
    var s := RequestText(m, t, v, hs, body);
    TextEndsInBody(m, t, v, hs, body);
    var cut := |s| - |body| + k;
    var all := c.Receive(s);
    FlatFirst([s]);
    FlatTwo(s[..cut], s[cut..]);
    assert s[..cut] + s[cut..] == s;
    assert all.data[all.checked..] == s;
    HeadReadsRequest(all, m, t, v, hs, body);
    var b := Head(all).1;
    assert b.data[b.checked..|b.data|] == body && b.data[b.checked..|c.data| + cut] == body[..k];
    WholeBody(body);
    WholeBody(body[..k]);
    NegativeLengthTakesWhatArrived(c, [s]);
    assert FirstPast(|c.data|, [s], b.checked) == |b.data|;
    NegativeLengthTakesWhatArrived(c, [s[..cut], s[cut..]]);
    assert FirstPast(|c.data|, [s[..cut], s[cut..]], b.checked) == |c.data| + cut;
  }

  lemma NegativeLengthExample()
    ensures var c := Fresh([], [], [], []);
      var hs := [HeaderLine("Content-length", "", "-1")];
      var s := RequestText("POST", "/", "HTTP/1.1", hs, "ab");
      && 0 < |s| < READ_BUFFER && Flat([s]) == s && Flat([s[..|s| - 1], s[|s| - 1..]]) == s
      && Feed(c, [s]).1.f.body == "ab"
      && Feed(c, [s[..|s| - 1], s[|s| - 1..]]).1.f.body == "a"
  {
    hide HeadStep, Body, Feed, Scan, Meaning;
    var c := Fresh([], [], [], []);
    ExampleHeader("-1", -1);
    NegativeLengthInTwoChunks(c, "POST", "/", "HTTP/1.1", [HeaderLine("Content-length", "", "-1")], "ab", 1);
    assert "ab"[..1] == "a";
  }
}
