/**
 The request half of `HttpConn` as functions on values: what one call of the line scanner, of
 each field parser and of `read_process` does to the connection's fields.
 The class in HttpConn.dfy does the same in place, over `_in_buffer`.
 */
module Request {
  import opened Options
  import opened CText

  const READ_BUFFER: nat := 2048

  datatype Phase = RequestLine | Header | Content

  datatype Method = GET | POST

  datatype LineStatus = LineOk | LineBad | LineOpen

  /**
   Waiting: NO_REQUEST. Rejected: BAD_REQUEST. Complete: GET_REQUEST, so `do_respone` runs next.
   Overrun: the body's terminator would be stored, or the body read, outside `_in_buffer`, or the index of
   its end overflows an `int`; the C++ program has no defined behaviour from there on.
   */
  datatype Outcome = Waiting | Rejected | Complete | Overrun

  /** What the parser has found out about the request so far. */
  datatype Fields = Fields(
    phase: Phase,
    meth: Method,
    enablePost: bool,
    url: string,
    version: string,
    host: string,
    contentLength: int,
    linger: bool,
    body: string)
  {
    predicate Valid() {
      -0x8000_0000 <= contentLength < 0x8000_0000
    }
  }

  /** The fields and the cursors into the buffer; `data` is `_in_buffer[.._read_idx]`. */
  datatype Conn = Conn(data: string, start: nat, checked: nat, f: Fields)
  {
    predicate Valid() {
      start <= checked <= |data| <= READ_BUFFER && f.Valid()
    }

    /** The connection after `recv` stored the bytes `t`. */
    function Receive(t: string): Conn {
      this.(data := data + t)
    }

    /** Everything but the buffer's bytes: what the rest of the server can see of the request. */
    function Seen(): (nat, nat, Fields) {
      (start, checked, f)
    }
  }

  /** `_init`; the strings are not cleared there, so they keep whatever they held. */
  function Fresh(url: string, version: string, host: string, body: string): (c: Conn)
    ensures c.Valid()
  {
    Conn([], 0, 0, Fields(RequestLine, GET, false, url, version, host, 0, false, body))
  }

  // ---- the line scanner ----

  /** Where scanning from `i` stops, and why; for `LineOk` the index is that of the CR. */
  function Scan(s: string, i: nat): (r: (LineStatus, nat))
    requires i <= |s|
    ensures i <= r.1 <= |s|
    ensures r.0 == LineOk ==> r.1 + 1 < |s| && s[r.1] == CR && s[r.1 + 1] == LF
    ensures forall k :: i <= k < r.1 ==> s[k] != CR && s[k] != LF
    decreases |s| - i
  {
    if i == |s| then (LineOpen, i)
    else if s[i] == CR then
      if i + 1 == |s| then (LineOpen, i)
      else if s[i + 1] == LF then (LineOk, i)
      else (LineBad, i)
    else if s[i] == LF then (LineBad, i)
    else Scan(s, i + 1)
  }

  function ParseLine(c: Conn): (r: (LineStatus, Conn))
    requires c.Valid()
    ensures r.1.Valid() && |r.1.data| == |c.data|
    ensures r.1 == c.(data := r.1.data, checked := r.1.checked)
    ensures c.checked <= r.1.checked
    ensures r.0 == LineOk ==> c.checked + 2 <= r.1.checked
    ensures r.0 != LineOk ==> r.1.data == c.data
  {
    var (st, i) := Scan(c.data, c.checked);
    if st == LineOk then
      (LineOk, c.(data := c.data[i := NUL][i + 1 := NUL], checked := i + 2))
    else
      (st, c.(checked := i))
  }

  // ---- the field parsers ----

  /** What the `getline` loop leaves in `result`: split at spaces, an empty last piece dropped. */
  function Tokens(s: string): seq<string> {
    if s == [] then []
    else
      var w := Until(s, ' ');
      UntilShape(s, ' ');
      if |w| == |s| then [w] else [w] + Tokens(s[|w| + 1..])
  }

  lemma UntilShape(s: string, c: char)
    ensures |Until(s, c)| <= |s| && Until(s, c) == s[..|Until(s, c)|]
    ensures c !in Until(s, c)
    ensures |Until(s, c)| < |s| ==> s[|Until(s, c)|] == c
    ensures |Until(s, c)| == |s| <==> c !in s
  {
  }

  datatype Target = NoSlash | Path(path: string)

  function StripScheme(t: string): string {
    if StartsNoCase(t, "http://") then t[7..]
    else if StartsNoCase(t, "https://") then t[8..]
    else t
  }

  /** The `_url_` a request target stands for. */
  function UrlOf(t: string): (r: Target)
    ensures r.Path? ==> r.path != [] && r.path[0] == '/'
  {
    var rest := StripScheme(t);
    var before := Until(rest, '/');
    UntilShape(rest, '/');
    if |before| == |rest| then NoSlash
    else
      var path := rest[|before|..];
      Path(if path == "/" then "/judge.html" else path)
  }

  /** `false` stands for BAD_REQUEST; the fields set before the line was refused stay set. */
  function ParseRequestLine(f: Fields, line: string): (r: (bool, Fields))
    ensures f.Valid() ==> r.1.Valid()
    ensures r.1.phase == if r.0 then Header else f.phase
  {
    var words := Tokens(line);
    if |words| != 3 then (false, f)
    else if !EqNoCase(words[0], "GET") && !EqNoCase(words[0], "POST") then (false, f)
    else
      var f1 := if EqNoCase(words[0], "GET") then f.(meth := GET) else f.(meth := POST, enablePost := true);
      if !EqNoCase(words[2], "HTTP/1.1") then (false, f1)
      else
        var f2 := f1.(version := words[2]);
        match UrlOf(words[1])
        case NoSlash => (false, f2)
        case Path(path) => (true, f2.(url := path, phase := Header))
  }

  /** `true` stands for GET_REQUEST: the blank line of a request without a body. */
  function ParseHeader(f: Fields, line: string): (r: (bool, Fields))
    ensures f.Valid() ==> r.1.Valid()
    ensures r.0 || r.1.phase == Content || r.1.phase == f.phase
    ensures r.0 ==> r.1 == f
  {
    if line == [] then
      if f.contentLength != 0 then (false, f.(phase := Content)) else (true, f)
    else if StartsNoCase(line, "Connection:") then
      (false, if EqNoCase(SkipBlanks(line[11..]), "keep-alive") then f.(linger := true) else f)
    else if StartsNoCase(line, "Content-length:") then
      (false, f.(contentLength := Atoi(SkipBlanks(line[15..]))))
    else if StartsNoCase(line, "Host:") then
      (false, f.(host := SkipBlanks(line[5..])))
    else
      (false, f)
  }

  /** `_content_length + _checked_idx` does not fit in an `int`, which C++ leaves undefined. */
  predicate SumOverflows(c: Conn) {
    c.f.contentLength + c.checked >= 0x8000_0000
  }

  /** `_read_idx >= (_content_length + _checked_idx)` */
  predicate BodyArrived(c: Conn) {
    |c.data| >= c.f.contentLength + c.checked
  }

  /** The buffer from `i` on: the bytes received, then the zeros of cells not yet written. */
  function Cells(data: string, i: nat): string
    requires i <= |data|
  {
    data[i..] + if |data| < READ_BUFFER then [NUL] else []
  }

  /** The successful branch of `parse_content`, for the body that starts at index `line`. */
  function TakeBody(c: Conn, line: nat): (r: (Outcome, Conn))
    requires c.Valid() && line <= c.start
    ensures r.1.Valid() && |r.1.data| == |c.data|
    ensures r.0 == Complete || r.0 == Overrun
  {
    var end := line + c.f.contentLength;
    if end < 0 || end >= READ_BUFFER then (Overrun, c)
    else
      var c1 := if end < |c.data| then c.(data := c.data[end := NUL]) else c;
      var cells := Cells(c1.data, line);
      if NUL !in cells then (Overrun, c1) else (Complete, c1.(f := c1.f.(body := CString(cells))))
  }

  // ---- the main state machine ----

  /** Where the line-by-line part of `read_process` ends. */
  datatype HeadEnd = AtBody | Stopped(outcome: Outcome)

  /** One iteration before the body: scan a line, hand it to the parser of the current state. */
  function HeadStep(c: Conn): (r: (Option<Outcome>, Conn))
    requires c.Valid() && c.f.phase != Content
    ensures r.1.Valid() && |r.1.data| == |c.data| && c.checked <= r.1.checked
    ensures r.0 == None ==> c.checked < r.1.checked
    ensures r.0.Some? ==> r.1.f.phase != Content
  {
    var (st, c1) := ParseLine(c);
    if st != LineOk then (Some(Waiting), c1)
    else
      var line := CString(c1.data[c1.start..]);
      var c2 := c1.(start := c1.checked);
      if c.f.phase == RequestLine then
        var (ok, f) := ParseRequestLine(c2.f, line);
        (if ok then None else Some(Rejected), c2.(f := f))
      else
        var (done, f) := ParseHeader(c2.f, line);
        (if done then Some(Complete) else None, c2.(f := f))
  }

  /** The request line and the headers: lines until the body is reached or a result is known. */
  function Head(c: Conn): (r: (HeadEnd, Conn))
    requires c.Valid()
    ensures r.1.Valid() && |r.1.data| == |c.data| && c.checked <= r.1.checked
    ensures r.0 == AtBody <==> r.1.f.phase == Content
    decreases |c.data| - c.checked
  {
    if c.f.phase == Content then (AtBody, c)
    else
      match HeadStep(c)
      case (Some(outcome), c1) => (Stopped(outcome), c1)
      case (None, c1) => Head(c1)
  }

  /** The loop of `read_process` in the content state; `ok` is `line_status == LINE_OK`. */
  function Body(c: Conn, ok: bool): (r: (Outcome, Conn))
    requires c.Valid() && c.f.phase == Content
    ensures r.1.Valid() && |r.1.data| == |c.data| && c.checked <= r.1.checked
    decreases |c.data| - c.checked, ok
  {
    if !ok then
      var (st, c1) := ParseLine(c);
      if st != LineOk then (Waiting, c1) else Body(c1, true)
    else
      var c1 := c.(start := c.checked);
      if SumOverflows(c1) then (Overrun, c1)
      else if BodyArrived(c1) then TakeBody(c1, c.start)
      else Body(c1, false)
  }

  /** The loop of `read_process` from any of its iterations on. */
  function Continue(c: Conn, ok: bool): (r: (Outcome, Conn))
    requires c.Valid()
    ensures r.1.Valid() && |r.1.data| == |c.data| && c.checked <= r.1.checked
  {
    if c.f.phase == Content then Body(c, ok)
    else
      var (end, c1) := Head(c);
      if end == AtBody then Body(c1, true) else (end.outcome, c1)
  }

  /** One call of `read_process`, up to its call of `do_respone`. */
  function ReadProcess(c: Conn): (r: (Outcome, Conn))
    requires c.Valid()
    ensures r.1.Valid() && |r.1.data| == |c.data| && c.checked <= r.1.checked
  {
    Continue(c, true)
  }
}
