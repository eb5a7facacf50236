/**
 The server's own printer and parser agree: the bytes of `add_headers`, split by the line scanner and
 read by the header parser, give back the length and the connection choice that were printed.
 */
module PrinterParser {
  import opened Options
  import opened CText
  import opened Request
  import opened RequestRoundTrip
  import Response

  function PrintedHeaders(n: nat, linger: bool): seq<HeaderLine> {
    [HeaderLine("Content-Length", "", Decimal(n)),
     HeaderLine("Connection", "", if linger then "keep-alive" else "close")]
  }

  lemma DigitsAreOneLine(n: nat)
    ensures OneLine(Decimal(n)) && !IsBlank(Decimal(n)[0])
  {
    assert !IsDigit(CR) && !IsDigit(LF) && !IsDigit(NUL) && !IsDigit(' ') && !IsDigit('\t');
  }

  lemma FirstIsWellFormed(n: nat)
    ensures HeaderLine("Content-Length", "", Decimal(n)).WellFormed()
  {
    DigitsAreOneLine(n);
    assert forall i :: 0 <= i < 14 ==> "Content-Length"[i] !in {CR, LF, NUL, ':'};
  }

  lemma SecondIsWellFormed(linger: bool)
    ensures HeaderLine("Connection", "", if linger then "keep-alive" else "close").WellFormed()
  {
    assert forall i :: 0 <= i < 10 ==> "Connection"[i] !in {CR, LF, NUL, ':'};
    assert forall i :: 0 <= i < 10 ==> "keep-alive"[i] !in {CR, LF, NUL};
    assert forall i :: 0 <= i < 5 ==> "close"[i] !in {CR, LF, NUL};
  }

  lemma PrintedText(n: nat, linger: bool)
    requires n < 0x8000_0000
    ensures Response.HeaderText(n, linger) == Block(PrintedHeaders(n, linger)) + CRLF
  {
    var hs := PrintedHeaders(n, linger);
    var d, k := Decimal(n), if linger then "keep-alive" else "close";
    assert hs[0].Text() == "Content-Length:" + d by { assert "Content-Length" + ":" + "" + d == "Content-Length:" + d; }
    assert hs[1].Text() == "Connection:" + k by { assert "Connection" + ":" + "" + k == "Connection:" + k; }
    assert hs[1..] == [hs[1]] && hs[1..][1..] == [];
    assert Block(hs[1..]) == hs[1].Text() + CRLF + [] == hs[1].Text() + CRLF;
    assert Block(hs) == hs[0].Text() + CRLF + Block(hs[1..]);
    var a, b := hs[0].Text() + CRLF, hs[1].Text() + CRLF;
    assert a + b + CRLF == a + (b + CRLF);
  }

  lemma PrintedMeaning(f: Fields, n: nat, linger: bool)
    requires n < 0x8000_0000 && !f.linger
    ensures After(f, PrintedHeaders(n, linger)) == f.(contentLength := n, linger := linger)
  {
    var hs := PrintedHeaders(n, linger);
    AtoiDecimal(n);
    assert EqNoCase("Content-Length", "Content-length");
    assert !hs[1].Named("Content-length") && !hs[0].Named("Connection") && !hs[0].Named("Host") && !hs[1].Named("Host");
    assert hs[..1] == [hs[0]] && hs[..1][..0] == [];
    assert LastValue(hs[..1], "Content-length") == Some(hs[0].value);
    assert LastValue(hs, "Content-length") == Some(hs[0].value);
    assert LastValue(hs[..1], "Host") == None;
    assert hs[1].Named("Connection");
    assert EqNoCase(hs[1].value, "keep-alive") <==> linger;
  }

  /** Parsing what `add_headers` printed: exactly that length, that choice, and then the blank line. */
  lemma HeadersAgree(c: Conn, n: nat, linger: bool, rest: string)
    requires c.Valid() && c.start == c.checked && c.f.phase == Header && !c.f.linger
    requires n < 0x8000_0000
    requires c.data[c.checked..] == Response.HeaderText(n, linger) + rest
    ensures var (end, b) := Head(c);
      && b.f.contentLength == n && b.f.linger == linger && b.f.host == c.f.host
      && end == (if n != 0 then AtBody else Stopped(Complete))
      && b.checked == |c.data| - |rest| && b.data[b.checked..] == rest
  {
    hide HeadStep, After, Response.HeaderText, Block;
    PrintedText(n, linger);
    FirstIsWellFormed(n);
    SecondIsWellFormed(linger);
    PrintedMeaning(c.f, n, linger);
    NoHeaders(c.f);
    var hs := PrintedHeaders(n, linger);
    assert [] + hs == hs;
    HeadReadsHeaders(c, c.f, [], hs, rest);
  }
}
