/**
 The response half of `HttpConn`: the bounded append buffer, the status line and headers, and the two
 I/O vectors that `write` sends.
 */
module Response {
  import opened CText
  import opened Routing

  const WRITE_BUFFER: nat := 1024

  datatype Region = OutBuffer | FileMap

  /** A byte to send, known by where it lies. */
  datatype Place = Place(region: Region, offset: int)

  datatype Iov = Iov(region: Region, base: int, len: nat) {
    function Places(): (s: seq<Place>)
      ensures |s| == len && forall i :: 0 <= i < len ==> s[i] == Place(region, base + i)
    {
      seq(len, i requires 0 <= i => Place(region, base + i))
    }
  }

  /** `text` is `_out_buffer[.._write_idx]`; `have` and `notSend` are the two byte counters of `write`. */
  datatype Out = Out(text: string, iov0: Iov, iov1: Iov, iovCount: int, have: nat, notSend: int)

  /** `_init` and construction: nothing appended, nothing to send. */
  function Empty(iov0: Iov, iov1: Iov, iovCount: int): Out {
    Out([], iov0, iov1, iovCount, 0, 0)
  }

  /** `add_response`, for text already formatted: all of it or nothing. */
  function AddResponse(o: Out, text: string): (r: (bool, Out))
    ensures r.0 ==> r.1 == o.(text := o.text + text)
    ensures !r.0 ==> r.1 == o
  {
    if |o.text| >= WRITE_BUFFER || |text| >= WRITE_BUFFER - 1 - |o.text| then (false, o)
    else (true, o.(text := o.text + text))
  }

  function StatusLine(status: nat, title: string): (s: string)
    requires status < 1000
    ensures 0 < |s| <= 15 + |title|
  {
    DecimalLength(status, 3, 1000);
    "HTTP/1.1 " + Decimal(status) + " " + title + CRLF
  }

  function ContentLengthLine(n: int): (s: string)
    requires -0x8000_0000 <= n < 0x8000_0000
    ensures |s| <= 28
  {
    DecimalLength(if n < 0 then -n else n, 10, 10_000_000_000);
    "Content-Length:" + DecimalInt(n) + CRLF
  }

  function LingerLine(linger: bool): (s: string)
    ensures |s| <= 23
  {
    "Connection:" + (if linger then "keep-alive" else "close") + CRLF
  }

  function HeaderText(n: int, linger: bool): (s: string)
    requires -0x8000_0000 <= n < 0x8000_0000
    ensures |s| <= 53
  {
    ContentLengthLine(n) + LingerLine(linger) + CRLF
  }

  /** `add_headers`: the three appends, stopping at the first that fails. */
  function AddHeaders(o: Out, n: int, linger: bool): (r: (bool, Out))
    requires -0x8000_0000 <= n < 0x8000_0000
  {
    var (ok1, o1) := AddResponse(o, ContentLengthLine(n));
    if !ok1 then (false, o1)
    else
      var (ok2, o2) := AddResponse(o1, LingerLine(linger));
      if !ok2 then (false, o2) else AddResponse(o2, CRLF)
  }

  datatype Page = Page(status: nat, title: string, form: string)

  /** The page sent for an error code; BAD_REQUEST is answered with status 404. */
  function ErrorPage(code: HttpCode): (p: Page)
    requires code in {INTERNAL_ERROR, BAD_REQUEST, FORBIDDEN_REQUEST}
    ensures p.status < 1000 && |p.title| < 20 && 0 < |p.form| < 80
  {
    if code == INTERNAL_ERROR then
      Page(500, "Internal Error", "There was an unusual problem serving the request file.\n")
    else if code == BAD_REQUEST then
      Page(404, "Not Found", "The requested file was not found on this server.\n")
    else
      Page(403, "Forbidden", "You do not have permission to get file form this server.\n")
  }

  /** The page sent for an empty file. */
  function EmptyPage(): (s: string)
    ensures 0 < |s| < 80
  {
    "<html><body></body></html>"
  }

  /** Only the appended content's own success counts; the first vector then covers the buffer. */
  function SendText(o: Out, status: nat, title: string, body: string, linger: bool): (bool, Out)
    requires status < 1000 && |body| < 80
  {
    var o1 := AddResponse(o, StatusLine(status, title)).1;
    var o2 := AddHeaders(o1, |body|, linger).1;
    var (ok, o3) := AddResponse(o2, body);
    if !ok then (false, o3)
    else (true, o3.(iov0 := Iov(OutBuffer, 0, |o3.text|), iovCount := 1, notSend := |o3.text|))
  }

  /** The header names the size and the second vector covers the mapped file. */
  function SendFile(o: Out, size: nat, linger: bool): (bool, Out) {
    var o1 := AddResponse(o, StatusLine(200, "OK")).1;
    var o2 := AddHeaders(o1, ToInt32(size), linger).1;
    (true, o2.(iov0 := Iov(OutBuffer, 0, |o2.text|), iov1 := Iov(FileMap, 0, size), iovCount := 2,
               notSend := ToInt32(|o2.text| + size)))
  }

  function WriteProcess(o: Out, code: HttpCode, size: nat, linger: bool): (bool, Out) {
    if code in {INTERNAL_ERROR, BAD_REQUEST, FORBIDDEN_REQUEST} then
      var p := ErrorPage(code);
      SendText(o, p.status, p.title, p.form, linger)
    else if code == FILE_REQUEST then
      if size != 0 then SendFile(o, size, linger) else SendText(o, 200, "OK", EmptyPage(), linger)
    else (false, o)
  }

  // ---- framing ----

  /** What the vectors describe, in the order in which they are sent. */
  function Pending(o: Out): seq<Place> {
    o.iov0.Places() + if o.iovCount == 2 then o.iov1.Places() else []
  }

  predicate Answered(code: HttpCode) {
    code in {INTERNAL_ERROR, BAD_REQUEST, FORBIDDEN_REQUEST, FILE_REQUEST}
  }

  /** The number of body bytes of the response. */
  function BodyLength(code: HttpCode, size: nat): nat
    requires Answered(code)
  {
    if code != FILE_REQUEST then |ErrorPage(code).form| else if size == 0 then |EmptyPage()| else size
  }

  /** The part of the body that lies in the buffer after the headers. */
  function InlineBody(code: HttpCode, size: nat): string
    requires Answered(code)
  {
    if code != FILE_REQUEST then ErrorPage(code).form else if size == 0 then EmptyPage() else []
  }

  function FirstLine(code: HttpCode): string
    requires Answered(code)
  {
    if code == FILE_REQUEST then StatusLine(200, "OK") else StatusLine(ErrorPage(code).status, ErrorPage(code).title)
  }

  lemma AppendsFit(o: Out, status: nat, title: string, n: int, linger: bool)
    requires o.text == [] && status < 1000 && |title| < 20 && -0x8000_0000 <= n < 0x8000_0000
    ensures var o1 := AddResponse(o, StatusLine(status, title)).1;
      var (ok, o2) := AddHeaders(o1, n, linger);
      ok && o2 == o.(text := StatusLine(status, title) + HeaderText(n, linger))
  {
    var s, l, k := StatusLine(status, title), ContentLengthLine(n), LingerLine(linger);
    assert [] + s == s;
    assert s + l + k + CRLF == s + (l + k + CRLF);
  }

  /**
   Every handled code is answered: the buffer holds the status line, the headers and the inline body, in
   that order and within bounds, and the vectors cover exactly that text and then the file.
   */
  lemma ResponseIsFramed(o: Out, code: HttpCode, size: nat, linger: bool)
    requires o.text == [] && o.have == 0
    ensures WriteProcess(o, code, size, linger).0 <==> Answered(code)
    ensures Answered(code) ==>
      var (ok, r) := WriteProcess(o, code, size, linger);
      var n := BodyLength(code, size);
      && r.text == FirstLine(code) + HeaderText(ToInt32(n), linger) + InlineBody(code, size)
      && 0 < |r.text| < WRITE_BUFFER - 1
      && Pending(r) == Iov(OutBuffer, 0, |r.text|).Places() + Iov(FileMap, 0, n - |InlineBody(code, size)|).Places()
      && r.have == 0
      && (r.notSend == |Pending(r)| <==> |Pending(r)| < 0x8000_0000)
  {
    hide StatusLine, HeaderText, ContentLengthLine, LingerLine, ErrorPage, EmptyPage, AddHeaders;
    if Answered(code) {
      if code != FILE_REQUEST {
        var p := ErrorPage(code);
        AppendsFit(o, p.status, p.title, |p.form|, linger);
      } else if size == 0 {
        AppendsFit(o, 200, "OK", |EmptyPage()|, linger);
      } else {
        AppendsFit(o, 200, "OK", ToInt32(size), linger);
      }
    }
  }

  /** The status lines, letter by letter; a request that is refused as bad is answered 404. */
  lemma StatusLinesAre()
    ensures FirstLine(FILE_REQUEST) == "HTTP/1.1 200 OK\r\n"
    ensures FirstLine(FORBIDDEN_REQUEST) == "HTTP/1.1 403 Forbidden\r\n"
    ensures FirstLine(BAD_REQUEST) == "HTTP/1.1 404 Not Found\r\n"
    ensures FirstLine(INTERNAL_ERROR) == "HTTP/1.1 500 Internal Error\r\n"
  {
    StatusNumbers();
    ErrorTitles();
    hide ErrorPage, Decimal, StatusLine;
    OneStatusLine(200, "200", "OK", "HTTP/1.1 200 OK\r\n");
    OneStatusLine(403, "403", "Forbidden", "HTTP/1.1 403 Forbidden\r\n");
    OneStatusLine(404, "404", "Not Found", "HTTP/1.1 404 Not Found\r\n");
    OneStatusLine(500, "500", "Internal Error", "HTTP/1.1 500 Internal Error\r\n");
  }

  lemma ErrorTitles()
    ensures ErrorPage(FORBIDDEN_REQUEST).status == 403 && ErrorPage(FORBIDDEN_REQUEST).title == "Forbidden"
    ensures ErrorPage(BAD_REQUEST).status == 404 && ErrorPage(BAD_REQUEST).title == "Not Found"
    ensures ErrorPage(INTERNAL_ERROR).status == 500 && ErrorPage(INTERNAL_ERROR).title == "Internal Error"
  {
  }

  lemma OneStatusLine(status: nat, digits: string, title: string, line: string)
    requires status < 1000 && Decimal(status) == digits
    requires line == "HTTP/1.1 " + digits + " " + title + "\r\n"
    ensures StatusLine(status, title) == line
  {
    hide Decimal;
  }

  /** The pages, letter by letter; a file that is not empty is sent from its mapping. */
  lemma PagesAre(size: nat)
    ensures InlineBody(FORBIDDEN_REQUEST, size) == "You do not have permission to get file form this server.\n"
    ensures InlineBody(BAD_REQUEST, size) == "The requested file was not found on this server.\n"
    ensures InlineBody(INTERNAL_ERROR, size) == "There was an unusual problem serving the request file.\n"
    ensures InlineBody(FILE_REQUEST, 0) == "<html><body></body></html>"
    ensures size > 0 ==> InlineBody(FILE_REQUEST, size) == ""
  {
    hide Decimal;
  }

  lemma StatusNumbers()
    ensures Decimal(200) == "200" && Decimal(403) == "403" && Decimal(404) == "404" && Decimal(500) == "500"
  {
    assert Decimal(20) == "20" && Decimal(40) == "40" && Decimal(50) == "50";
  }

  /** The two header lines and the blank line, letter by letter. */
  lemma HeadersAre(n: nat, linger: bool)
    requires n < 0x8000_0000
    ensures HeaderText(n, linger) ==
      "Content-Length:" + Decimal(n) + "\r\n" + (if linger then "Connection:keep-alive\r\n" else "Connection:close\r\n")
      + "\r\n"
  {
    hide Decimal;
    assert LingerLine(linger) == if linger then "Connection:keep-alive\r\n" else "Connection:close\r\n";
    assert "Content-Length:" + Decimal(n) + "\r\n" == ContentLengthLine(n);
    var a, b, c := ContentLengthLine(n), LingerLine(linger), "\r\n";
    assert a + b + c == (a + b) + c;
  }

  /** Text is appended if and only if it leaves room for the terminator `vsnprintf` writes and one cell more. */
  lemma AppendedExactlyWhen(o: Out, text: string)
    ensures AddResponse(o, text).0 <==> |o.text| + |text| < 1023
  {
  }

  /** Headers behind other text: line by line until one does not fit; the result is whether all did. */
  lemma HeadersAppended(o: Out, n: int, linger: bool)
    requires -0x8000_0000 <= n < 0x8000_0000
    ensures var (ok, r) := AddHeaders(o, n, linger);
      var a, b := ContentLengthLine(n), LingerLine(linger);
      var l := |o.text|;
      && (ok <==> l + |a| + |b| + 2 < 1023)
      && r == o.(text := if l + |a| >= 1023 then o.text
                         else if l + |a| + |b| >= 1023 then o.text + a
                         else if l + |a| + |b| + 2 >= 1023 then o.text + a + b
                         else o.text + a + b + "\r\n")
  {
    hide ContentLengthLine, LingerLine;
  }

  /** Codes that are not answered, and pages that do not fit, leave the vectors and the counter alone. */
  lemma NotAnswered(o: Out, code: HttpCode, size: nat, linger: bool)
    ensures !Answered(code) ==> WriteProcess(o, code, size, linger) == (false, o)
    ensures !WriteProcess(o, code, size, linger).0 ==>
      WriteProcess(o, code, size, linger).1 == o.(text := WriteProcess(o, code, size, linger).1.text)
  {
    hide StatusLine, ContentLengthLine, LingerLine, ErrorPage, EmptyPage;
  }

  /** A page behind other text: the result is whether the page itself fits behind what came before it. */
  lemma PageFits(o: Out, code: HttpCode, linger: bool)
    requires Answered(code)
    ensures var (ok, r) := WriteProcess(o, code, 0, linger);
      var page := InlineBody(code, 0);
      && (ok ==> |r.text| >= |page| && r.text[|r.text| - |page|..] == page && r.notSend == |r.text| && r.iovCount == 1)
      && (!ok ==> |r.text| + |page| >= 1023)
  {
    hide StatusLine, ContentLengthLine, LingerLine, ErrorPage, EmptyPage, AddHeaders;
  }

  /**
   RFC 9110, section 8.6: the Content-Length line carries the body's length in decimal if and only if
   that length fits in an `int`.
   */
  lemma ContentLengthIsTrue(n: nat)
    ensures ContentLengthLine(ToInt32(n)) == "Content-Length:" + Decimal(n) + CRLF <==> n < 0x8000_0000
  {
    var t := ToInt32(n);
    var line, name := ContentLengthLine(t), "Content-Length:";
    assert line[|name|..|line| - 2] == DecimalInt(t);
    var other := name + Decimal(n) + CRLF;
    assert other[|name|..|other| - 2] == Decimal(n);
    if t < 0 {
      assert DecimalInt(t)[0] == '-';
    } else {
      assert t <= n;
      if DecimalInt(t) == Decimal(n) {
        LeadingNumberAll(n);
        LeadingNumberAll(t);
      }
    }
  }

  /** For instance a file of 2^31 bytes: the length sent is negative, and so is the counter of bytes to send. */
  lemma TooLargeExample(o: Out, linger: bool)
    requires o.text == [] && o.have == 0
    ensures var r := WriteProcess(o, FILE_REQUEST, 0x8000_0000, linger).1;
      && r.text == FirstLine(FILE_REQUEST) + "Content-Length:-2147483648" + CRLF + LingerLine(linger) + CRLF
      && r.notSend < 0 < |Pending(r)|
  {
    hide StatusLine, LingerLine, ErrorPage, EmptyPage, HeaderText, AddHeaders, Decimal;
    ResponseIsFramed(o, FILE_REQUEST, 0x8000_0000, linger);
    HeaderOfTwoTo31(linger);
    var line, header := FirstLine(FILE_REQUEST), HeaderText(ToInt32(0x8000_0000), linger);
    assert line + header + [] == line + header;
    assert line + ("Content-Length:-2147483648" + CRLF + LingerLine(linger) + CRLF)
      == line + "Content-Length:-2147483648" + CRLF + LingerLine(linger) + CRLF;
  }

  lemma HeaderOfTwoTo31(linger: bool)
    ensures HeaderText(ToInt32(0x8000_0000), linger) ==
      "Content-Length:-2147483648" + CRLF + LingerLine(linger) + CRLF
  {
    hide LingerLine, Decimal;
    DecimalOfTwoTo31();
    assert DecimalInt(-2147483648) == "-2147483648";
    assert "Content-Length:" + "-2147483648" == "Content-Length:-2147483648";
  }

  lemma DecimalOfTwoTo31()
    ensures Decimal(2147483648) == "2147483648"
  {
    assert Decimal(214) == "214";
    assert Decimal(214748) == Decimal(214) + "748";
    assert Decimal(214748364) == Decimal(214748) + "364";
  }
}
