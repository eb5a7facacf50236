/**
 The line scanner loses nothing: although each CRLF is overwritten with NULs, the lines it hands out,
 each followed by CRLF, are exactly the bytes consumed.
 */
module LineSplitting {
  import opened Options
  import opened CText
  import opened Request
  import opened SplitIndependence

  /** The bytes of each line taken by the line-by-line part of `read_process`. */
  function LinesTaken(c: Conn): seq<string>
    requires c.Valid()
    decreases |c.data| - c.checked
  {
    if c.f.phase == Content || ParseLine(c).0 != LineOk then []
    else
      [c.data[c.start..Scan(c.data, c.checked).1]] +
      match HeadStep(c) case (None, c1) => LinesTaken(c1) case (Some(_), _) => []
  }

  function WithCrlf(lines: seq<string>): string {
    if lines == [] then [] else lines[0] + CRLF + WithCrlf(lines[1..])
  }

  /** The part of the current line that has been scanned holds no line end. */
  predicate MidLine(c: Conn) {
    c.Valid() && forall k :: c.start <= k < c.checked ==> c.data[k] != CR && c.data[k] != LF
  }

  /** The C string handed to the parser is the line as it was received, up to a NUL in it. */
  lemma HandedOut(c: Conn)
    requires MidLine(c) && ParseLine(c).0 == LineOk
    ensures var c1 := ParseLine(c).1;
      var line := c.data[c.start..c1.checked - 2];
      CR !in line && LF !in line && CString(c1.data[c1.start..]) == CString(line)
  {
    var c1 := ParseLine(c).1;
    var i := c1.checked - 2;
    var line := c.data[c.start..i];
    assert forall k :: 0 <= k < |line| ==> line[k] == c.data[c.start + k];
    assert c1.data[c1.start..] == (line + [NUL]) + c1.data[i + 1..];
    UntilIgnoresTail(line + [NUL], c1.data[i + 1..], NUL);
    UntilTerminated(line);
  }

  lemma StepConsumes(c: Conn)
    requires MidLine(c) && c.f.phase != Content
    ensures var c1 := HeadStep(c).1;
      && MidLine(c1)
      && (ParseLine(c).0 != LineOk ==> c1.start == c.start && c1.data == c.data)
      && (ParseLine(c).0 == LineOk ==>
            c1.start == c1.checked == ParseLine(c).1.checked &&
            c.data[c.start..c1.start] == c.data[c.start..c1.start - 2] + CRLF &&
            c1.data[c1.start..] == c.data[c1.start..])
  {
    hide ParseRequestLine, ParseHeader, CString;
  }

  lemma {:induction false} LinesAreTheBytes(c: Conn)
    requires MidLine(c)
    ensures var c1 := Head(c).1;
      && c.start <= c1.start && MidLine(c1)
      && WithCrlf(LinesTaken(c)) == c.data[c.start..c1.start]
      && c1.data[c1.start..] == c.data[c1.start..]
      && (forall line :: line in LinesTaken(c) ==> CR !in line && LF !in line)
    decreases |c.data| - c.checked
  {
    hide HeadStep, ParseLine;
    if c.f.phase != Content {
      StepConsumes(c);
      if ParseLine(c).0 == LineOk {
        HandedOut(c);
        Waits(c);
        var (end, c1) := HeadStep(c);
        if end == None {
          LinesAreTheBytes(c1);
          Glue(c, c1, Head(c).1);
        }
      } else {
        Waits(c);
      }
    }
  }

  lemma Waits(c: Conn)
    requires c.Valid() && c.f.phase != Content
    ensures ParseLine(c).0 != LineOk ==> HeadStep(c).0 == Some(Waiting)
    ensures ParseLine(c).0 == LineOk ==> ParseLine(c).1.checked == Scan(c.data, c.checked).1 + 2
  {
  }

  lemma Glue(c: Conn, c1: Conn, c2: Conn)
    requires c.Valid() && c1.Valid() && c2.Valid() && |c.data| == |c1.data| == |c2.data|
    requires c.start + 2 <= c1.start <= c2.start && c1.data[c1.start..] == c.data[c1.start..]
    requires c2.data[c2.start..] == c1.data[c2.start..]
    ensures c.data[c.start..c1.start] + c1.data[c1.start..c2.start] == c.data[c.start..c2.start]
    ensures c2.data[c2.start..] == c.data[c2.start..]
  {
    assert c1.data[c1.start..c2.start] == c1.data[c1.start..][..c2.start - c1.start];
    assert c1.data[c2.start..] == c1.data[c1.start..][c2.start - c1.start..];
    assert c.data[c2.start..] == c.data[c1.start..][c2.start - c1.start..];
  }
}
