/**
 How TCP cuts a request into `recv` chunks: exactly when does it not matter?
 It never matters before the body. A cut strictly inside a body that ends the stream does no harm if and only if
 the line scanner, which `read_process` runs over the incomplete body, cannot move. (BodyScanning.dfy has the
 answer for a body that is followed by more bytes.)
 */
module SplitIndependence {
  import opened Options
  import opened CText
  import opened Request

  /** One `read_process` after each chunk, until the first answer other than NO_REQUEST. */
  function Feed(c: Conn, chunks: seq<string>): (r: (Outcome, Conn))
    requires c.Valid() && |c.data| + |Flat(chunks)| <= READ_BUFFER
    decreases |chunks|
  {
    if chunks == [] then (Waiting, c)
    else
      var (o, c1) := ReadProcess(c.Receive(chunks[0]));
      if o != Waiting then (o, c1) else Feed(c1, chunks[1..])
  }

  function Flat(chunks: seq<string>): string {
    if chunks == [] then [] else chunks[0] + Flat(chunks[1..])
  }

  /** The buffer indices between one chunk and the next, when the first chunk lands at `at`. */
  function Cuts(at: nat, chunks: seq<string>): set<nat>
    decreases |chunks|
  {
    if |chunks| <= 1 then {}
    else {at + |chunks[0]|} + Cuts(at + |chunks[0]|, chunks[1..])
  }

  /** Between two calls of `read_process`: nothing of a body has been scanned as if it were a line. */
  predicate Clean(c: Conn) {
    c.Valid() && (c.f.phase == Content ==> c.start == c.checked)
  }

  /** The line scanner cannot leave index `h` of these bytes. */
  predicate Holds(bytes: string, h: nat)
    requires h < |bytes|
  {
    || bytes[h] == LF
    || (bytes[h] == CR && (h + 1 == |bytes| || bytes[h + 1] != LF))
  }

  /**
   A cut at `k` lies strictly inside the body and lets the scanner run into it. (From the start of the body on,
   `b.data` holds the bytes as received; see `HeadIsClean`.)
   */
  predicate Stalls(c: Conn, s: string, k: nat)
    requires c.Valid() && |c.data| + |s| <= READ_BUFFER
  {
    var (end, b) := Head(c.Receive(s));
    end == AtBody && b.checked < k < b.checked + b.f.contentLength && k <= |b.data| &&
    !Holds(b.data[..k], b.checked)
  }

  /** The headers announce fewer bytes than none. */
  predicate NegativeLength(c: Conn, s: string)
    requires c.Valid() && |c.data| + |s| <= READ_BUFFER
  {
    var (end, b) := Head(c.Receive(s));
    end == AtBody && b.f.contentLength < 0
  }

  /** The line scanner, by the first CR or LF from `i` on. */
  lemma {:induction false} ScanExactly(s: string, i: nat)
    requires i <= |s|
    ensures var (st, j) := Scan(s, i);
      && i <= j <= |s| && (forall k :: i <= k < j ==> s[k] != '\r' && s[k] != '\n')
      && (j < |s| ==> s[j] == '\r' || s[j] == '\n')
      && (st == LineOk <==> j + 1 < |s| && s[j] == '\r' && s[j + 1] == '\n')
      && (st == LineOpen <==> j == |s| || (j + 1 == |s| && s[j] == '\r'))
    decreases |s| - i
  {
    if i < |s| && s[i] != CR && s[i] != LF { ScanExactly(s, i + 1); }
  }

  // ---- one call, with and without the bytes that come later ----

  lemma {:induction false} ScanMore(s: string, t: string, i: nat)
    requires i <= |s|
    ensures Scan(s, i).0 != LineOpen ==> Scan(s + t, i) == Scan(s, i)
    ensures Scan(s, i).0 != LineOk ==> Scan(s + t, i) == Scan(s + t, Scan(s, i).1)
    decreases |s| - i
  {
    if i < |s| && s[i] != CR && s[i] != LF {
      ScanMore(s, t, i + 1);
    }
  }

  lemma EraseMore(s: string, t: string, i: nat)
    requires i + 1 < |s|
    ensures (s + t)[i := NUL][i + 1 := NUL] == s[i := NUL][i + 1 := NUL] + t
  {
  }

  lemma ParseLineMore(c: Conn, t: string)
    requires c.Valid() && |c.data| + |t| <= READ_BUFFER
    ensures var (st, c1) := ParseLine(c);
      if st == LineOk then ParseLine(c.Receive(t)) == (st, c1.Receive(t))
      else ParseLine(c.Receive(t)) == ParseLine(c1.Receive(t))
  {
    ScanMore(c.data, t, c.checked);
    var (st, i) := Scan(c.data, c.checked);
    if st == LineOk {
      EraseMore(c.data, t, i);
    }
  }

  /** The line handed out ends at the NUL stored over the CR, so later bytes do not change it. */
  lemma LineMore(c: Conn, t: string)
    requires c.Valid() && ParseLine(c).0 == LineOk
    ensures var c1 := ParseLine(c).1;
      CString((c1.data + t)[c1.start..]) == CString(c1.data[c1.start..])
  {
    var c1 := ParseLine(c).1;
    var rest := c1.data[c1.start..];
    assert rest[c1.checked - 2 - c1.start] == NUL;
    assert (c1.data + t)[c1.start..] == rest + t;
    UntilIgnoresTail(rest, t, NUL);
  }

  lemma HeadStepMore(c: Conn, t: string)
    requires c.Valid() && c.f.phase != Content && |c.data| + |t| <= READ_BUFFER
    ensures var (end, c1) := HeadStep(c);
      if end == Some(Waiting) then c1.f.phase == c.f.phase && HeadStep(c.Receive(t)) == HeadStep(c1.Receive(t))
      else HeadStep(c.Receive(t)) == (end, c1.Receive(t))
  {
    ParseLineMore(c, t);
    var (st, c1) := ParseLine(c);
    if st == LineOk {
      LineMore(c, t);
      var c2 := c1.(start := c1.checked);
      assert c2.Receive(t) == c1.Receive(t).(start := c1.checked);
    }
  }

  /** Lines and headers: stopping early and going on later is the same as seeing it all at once. */
  lemma {:induction false} HeadMore(c: Conn, t: string)
    requires c.Valid() && |c.data| + |t| <= READ_BUFFER
    ensures var (end, c1) := Head(c);
      if end == Stopped(Waiting) then Head(c.Receive(t)) == Head(c1.Receive(t))
      else Head(c.Receive(t)) == (end, c1.Receive(t))
    decreases |c.data| - c.checked
  {
    hide HeadStep;
    if c.f.phase != Content {
      HeadStepMore(c, t);
      var (end, c1) := HeadStep(c);
      if end == None {
        HeadMore(c1, t);
      }
    }
  }

  lemma HeadStepIsClean(c: Conn)
    requires Clean(c) && c.f.phase != Content
    ensures var (end, b) := HeadStep(c);
      Clean(b) && b.data[b.checked..] == c.data[b.checked..]
  {
  }

  /** The line-by-line part stops with the current line at the cursor and the bytes after it untouched. */
  lemma {:induction false} HeadIsClean(c: Conn)
    requires Clean(c)
    ensures var (end, b) := Head(c);
      Clean(b) && b.data[b.checked..] == c.data[b.checked..]
    decreases |c.data| - c.checked
  {
    hide HeadStep;
    if c.f.phase != Content {
      HeadStepIsClean(c);
      var (end, c1) := HeadStep(c);
      if end == None {
        HeadIsClean(c1);
        var b := Head(c).1;
        assert b.data[b.checked..] == c1.data[c1.checked..][b.checked - c1.checked..];
      }
    }
  }

  lemma ContinueIsHeadThenBody(c: Conn)
    requires c.Valid()
    ensures var (end, b) := Head(c);
      ReadProcess(c) == if end == AtBody then Body(b, true) else (end.outcome, b)
  {
  }

  /** The rest of a call depends only on where its line-by-line part ends. */
  lemma SameHeadSameAnswer(c: Conn, d: Conn)
    requires c.Valid() && d.Valid() && Head(c) == Head(d)
    ensures ReadProcess(c) == ReadProcess(d)
  {
    hide HeadStep;
    ContinueIsHeadThenBody(c);
    ContinueIsHeadThenBody(d);
  }

  /** A body that has arrived is read the same whatever follows it. */
  lemma BodyMore(b: Conn, t: string)
    requires Clean(b) && b.f.phase == Content && b.f.contentLength >= 0
    requires |b.data| + |t| <= READ_BUFFER && BodyArrived(b)
    ensures Body(b.Receive(t), true).0 == Body(b, true).0
    ensures Body(b.Receive(t), true).1.Seen() == Body(b, true).1.Seen()
  {
    hide Body;
    var end := b.start + b.f.contentLength;
    if end < READ_BUFFER {
      BodyText(b);
      BodyText(b.Receive(t));
      assert b.Receive(t).data[b.start..end] == b.data[b.start..end];
    } else {
      NoRoomForTerminator(b);
      NoRoomForTerminator(b.Receive(t));
    }
  }

  lemma NoRoomForTerminator(b: Conn)
    requires Clean(b) && b.f.phase == Content && b.f.contentLength >= 0
    requires BodyArrived(b) && b.start + b.f.contentLength >= READ_BUFFER
    ensures Body(b, true).0 == Overrun && Body(b, true).1.Seen() == b.Seen()
  {
  }

  lemma BodyIsTaken(b: Conn)
    requires Clean(b) && b.f.phase == Content && BodyArrived(b)
    ensures Body(b, true) == TakeBody(b, b.start)
  {
    hide TakeBody, ParseLine;
    assert b.(start := b.checked) == b;
  }

  /** What `parse_content` reads: the announced number of bytes, up to a NUL among them. */
  lemma BodyText(b: Conn)
    requires Clean(b) && b.f.phase == Content && b.f.contentLength >= 0
    requires BodyArrived(b) && b.start + b.f.contentLength < READ_BUFFER
    ensures b.start + b.f.contentLength <= |b.data|
    ensures var text := CString(b.data[b.start..b.start + b.f.contentLength]);
      Body(b, true).0 == Complete && Body(b, true).1.Seen() == (b.start, b.checked, b.f.(body := text))
  {
    hide CString, Cells, Body, TakeBody;
    var end := b.start + b.f.contentLength;
    TerminatedCells(b.data, b.start, end);
    BodyIsTaken(b);
    TextIsTaken(b, b.start);
  }

  lemma TextIsTaken(c: Conn, line: nat)
    requires c.Valid() && line <= c.start && c.f.contentLength >= 0
    requires line + c.f.contentLength <= |c.data| && line + c.f.contentLength < READ_BUFFER
    requires var end := line + c.f.contentLength;
      NUL in Cells(if end < |c.data| then c.data[end := NUL] else c.data, line)
    ensures var end := line + c.f.contentLength;
      var d := if end < |c.data| then c.data[end := NUL] else c.data;
      var (o, c1) := TakeBody(c, line);
      o == Complete && c1.Seen() == (c.start, c.checked, c.f.(body := CString(Cells(d, line))))
  {
    hide CString, Cells;
  }

  /** Storing a NUL at `end` makes the bytes from `at` to `end` a C string. */
  lemma TerminatedCells(data: string, at: nat, end: nat)
    requires at <= end <= |data| <= READ_BUFFER && end < READ_BUFFER
    ensures var d := if end < |data| then data[end := NUL] else data;
      NUL in Cells(d, at) && CString(Cells(d, at)) == CString(data[at..end])
  {
    var d := if end < |data| then data[end := NUL] else data;
    var text, cells := data[at..end], Cells(d, at);
    var rest := cells[end - at + 1..];
    assert cells[end - at] == NUL;
    assert cells == (text + [NUL]) + rest;
    UntilIgnoresTail(text + [NUL], rest, NUL);
    UntilTerminated(text);
  }

  lemma {:induction false} UntilTerminated(text: string)
    ensures Until(text + [NUL], NUL) == Until(text, NUL)
  {
    if text != [] && text[0] != NUL {
      assert (text + [NUL])[1..] == text[1..] + [NUL];
      UntilTerminated(text[1..]);
    }
  }

  /** A call that answers NO_REQUEST inside the body leaves the machine where it was iff the scanner holds. */
  lemma WaitingBody(b: Conn)
    requires Clean(b) && b.f.phase == Content && !BodyArrived(b) && !SumOverflows(b)
    requires b.checked < |b.data| ==> Holds(b.data, b.checked)
    ensures Body(b, true) == (Waiting, b)
  {
  }

  /** With the cursor so far into the body that the `total` bytes there will ever be cannot fill it. */
  predicate Stuck(c: Conn, total: nat) {
    c.Valid() && c.f.phase == Content && 0 < c.f.contentLength && total <= READ_BUFFER &&
    |c.data| <= total < c.checked + c.f.contentLength < 0x8000_0000
  }

  lemma {:induction false} StuckBody(c: Conn, ok: bool, total: nat)
    requires Stuck(c, total) && total + c.f.contentLength < 0x8000_0000
    ensures Body(c, ok).0 == Waiting
    ensures Stuck(Body(c, ok).1, total) && Body(c, ok).1.f.contentLength == c.f.contentLength
    decreases |c.data| - c.checked, ok
  {
    if ok {
      StuckBody(c.(start := c.checked), false, total);
    } else {
      var (st, c1) := ParseLine(c);
      if st == LineOk {
        StuckBody(c1, true, total);
      }
    }
  }

  /** The line-by-line part on `u` alone and on `u` and `t` together. */
  lemma HeadOfBoth(c: Conn, u: string, t: string)
    requires Clean(c) && |c.data| + |u| + |t| <= READ_BUFFER
    ensures c.Receive(u).Receive(t) == c.Receive(u + t)
    ensures var (end, b) := Head(c.Receive(u));
      Clean(b) && |b.data| == |c.data| + |u| &&
      Head(c.Receive(u + t)) == if end == Stopped(Waiting) then Head(b.Receive(t)) else (end, b.Receive(t))
  {
    assert c.data + u + t == c.data + (u + t);
    HeadMore(c.Receive(u), t);
    HeadIsClean(c.Receive(u));
  }

  /** One call that answers, compared with the call that sees the later bytes `t` as well. */
  lemma OneCallAnswers(c: Conn, u: string, t: string)
    requires Clean(c) && |c.data| + |u| + |t| <= READ_BUFFER
    requires !NegativeLength(c, u + t)
    requires ReadProcess(c.Receive(u)).0 != Waiting
    ensures ReadProcess(c.Receive(u + t)).0 == ReadProcess(c.Receive(u)).0
    ensures ReadProcess(c.Receive(u + t)).1.Seen() == ReadProcess(c.Receive(u)).1.Seen()
  {
    hide HeadStep;
    HeadOfBoth(c, u, t);
    ContinueIsHeadThenBody(c.Receive(u));
    ContinueIsHeadThenBody(c.Receive(u + t));
    var (end, b) := Head(c.Receive(u));
    if end == AtBody {
      if BodyArrived(b) {
        BodyMore(b, t);
      } else if b.f.contentLength <= READ_BUFFER {
        NotYet(b);
      } else {
        HugeBodyMore(b, true, t);
      }
    }
  }

  /** One call that answers NO_REQUEST without having stalled can be forgotten. */
  lemma OneCallWaits(c: Conn, u: string, t: string)
    requires Clean(c) && |c.data| + |u| + |t| <= READ_BUFFER
    requires !NegativeLength(c, u + t) && !Stalls(c, u + t, |c.data| + |u|)
    requires ReadProcess(c.Receive(u)).0 == Waiting
    ensures var c1 := ReadProcess(c.Receive(u)).1;
      Clean(c1) && |c1.data| == |c.data| + |u| && Head(c1.Receive(t)) == Head(c.Receive(u + t))
  {
    hide HeadStep;
    HeadOfBoth(c, u, t);
    ContinueIsHeadThenBody(c.Receive(u));
    var (end, b) := Head(c.Receive(u));
    if end == AtBody {
      assert !BodyArrived(b);
      assert b.Receive(t).data[..|b.data|] == b.data;
      WaitingBody(b);
    }
  }

  /** Too few bytes for the body: the call answers NO_REQUEST, however far the scanner runs. */
  lemma NotYet(b: Conn)
    requires Clean(b) && b.f.phase == Content && !BodyArrived(b)
    requires 0 <= b.f.contentLength <= READ_BUFFER
    ensures Body(b, true).0 == Waiting
  {
    var (st, b1) := ParseLine(b);
    if st == LineOk {
      StuckBody(b1, true, |b.data|);
    }
  }

  /** A length near the end of the `int` range: only the overflow of the sum ends the wait, at any time. */
  lemma {:induction false} HugeBodyMore(b: Conn, ok: bool, t: string)
    requires b.Valid() && b.f.phase == Content && |b.data| + |t| <= READ_BUFFER
    requires READ_BUFFER < b.f.contentLength
    requires Body(b, ok).0 != Waiting
    ensures Body(b.Receive(t), ok).0 == Body(b, ok).0
    ensures Body(b.Receive(t), ok).1.Seen() == Body(b, ok).1.Seen()
    decreases |b.data| - b.checked, ok
  {
    hide Scan, CString;
    if !ok {
      ParseLineMore(b, t);
      var (st, b1) := ParseLine(b);
      if st == LineOk { HugeBodyMore(b1, true, t); }
    } else {
      var b1 := b.(start := b.checked);
      if !SumOverflows(b1) && !BodyArrived(b1) { HugeBodyMore(b1, false, t); }
    }
  }

  lemma FlatFirst(chunks: seq<string>)
    requires |chunks| == 1
    ensures Flat(chunks) == chunks[0]
  {
    assert Flat(chunks[1..]) == [];
  }

  /** The first cut, and the cuts of the remaining chunks. */
  lemma CutsAfter(at: nat, chunks: seq<string>)
    requires |chunks| > 1
    ensures at + |chunks[0]| in Cuts(at, chunks)
    ensures Cuts(at + |chunks[0]|, chunks[1..]) <= Cuts(at, chunks)
  {
  }

  /**
   The bytes may arrive in any chunks that do not stall: the first answer other than NO_REQUEST, the
   method, URL, version, headers, body and the parser's own cursors are those of a single `recv`.
   */
  lemma {:induction false} SplitIndependent(c: Conn, chunks: seq<string>)
    requires Clean(c) && chunks != [] && |c.data| + |Flat(chunks)| <= READ_BUFFER
    requires !NegativeLength(c, Flat(chunks))
    requires forall k :: k in Cuts(|c.data|, chunks) ==> !Stalls(c, Flat(chunks), k)
    ensures var once := ReadProcess(c.Receive(Flat(chunks)));
      Feed(c, chunks).0 == once.0 && Feed(c, chunks).1.Seen() == once.1.Seen()
    decreases |chunks|
  {
    hide HeadStep, Body;
    var u, t := chunks[0], Flat(chunks[1..]);
    var (o, c1) := ReadProcess(c.Receive(u));
    if o != Waiting {
      OneCallAnswers(c, u, t);
    } else if |chunks| == 1 {
      FlatFirst(chunks);
      assert Feed(c1, chunks[1..]) == (Waiting, c1);
    } else {
      CutsAfter(|c.data|, chunks);
      OneCallWaits(c, u, t);
      SameHeadSameAnswer(c1.Receive(t), c.Receive(u + t));
      SplitIndependent(c1, chunks[1..]);
    }
  }

  // ---- a cut that stalls ----

  lemma {:induction false} StuckForever(c: Conn, chunks: seq<string>, total: nat)
    requires Stuck(c, total) && total + c.f.contentLength < 0x8000_0000
    requires |c.data| + |Flat(chunks)| <= total
    ensures Feed(c, chunks).0 == Waiting
    decreases |chunks|
  {
    if chunks != [] {
      var c1 := c.Receive(chunks[0]);
      StuckBody(c1, true, total);
      StuckForever(Body(c1, true).1, chunks[1..], total);
    }
  }

  /** The whole request is `s`: its body ends with the last byte, and a cell is left for the terminator. */
  predicate ArrivesExactly(c: Conn, s: string)
    requires c.Valid() && |c.data| + |s| <= READ_BUFFER
  {
    var (end, b) := Head(c.Receive(s));
    end == AtBody && 0 < b.f.contentLength && b.checked + b.f.contentLength == |b.data| < READ_BUFFER
  }

  /** After a cut that stalls, the machine stays at NO_REQUEST even when the whole request has arrived. */
  lemma {:induction false} StallIsFinal(c: Conn, chunks: seq<string>, k: nat)
    requires Clean(c) && |c.data| + |Flat(chunks)| <= READ_BUFFER
    requires ArrivesExactly(c, Flat(chunks))
    requires k in Cuts(|c.data|, chunks) && Stalls(c, Flat(chunks), k)
    ensures Feed(c, chunks).0 == Waiting
    decreases |chunks|
  {
    hide HeadStep;
    var u, t := chunks[0], Flat(chunks[1..]);
    var at := |c.data| + |u|;
    var all := Head(c.Receive(u + t)).1;
    var (o, c1) := ReadProcess(c.Receive(u));
    CutsUpper(|c.data|, chunks, k);
    if Stalls(c, u + t, at) {
      FirstStall(c, u, t);
      StuckForever(c1, chunks[1..], |all.data|);
    } else if o != Waiting {
      EarlyAnswer(c, u, t);
    } else {
      OneCallWaits(c, u, t);
      StallIsFinal(c1, chunks[1..], k);
    }
  }

  lemma {:induction false} CutsUpper(at: nat, chunks: seq<string>, k: nat)
    requires k in Cuts(at, chunks)
    ensures at + |chunks[0]| <= k <= at + |Flat(chunks)|
    decreases |chunks|
  {
    if k != at + |chunks[0]| {
      CutsUpper(at + |chunks[0]|, chunks[1..], k);
    }
  }

  lemma FirstStall(c: Conn, u: string, t: string)
    requires Clean(c) && |c.data| + |u| + |t| <= READ_BUFFER
    requires ArrivesExactly(c, u + t) && Stalls(c, u + t, |c.data| + |u|)
    ensures var (o, c1) := ReadProcess(c.Receive(u));
      var all := Head(c.Receive(u + t)).1;
      o == Waiting && Stuck(c1, |all.data|) && |all.data| == |c.data| + |u| + |t| &&
      |c1.data| == |c.data| + |u| && |all.data| + c1.f.contentLength < 0x8000_0000
  {
    hide HeadStep;
    HeadOfBoth(c, u, t);
    ContinueIsHeadThenBody(c.Receive(u));
    var (end, b) := Head(c.Receive(u));
    if end == AtBody {
      assert b.Receive(t).data[..|b.data|] == b.data;
      StallStep(b, |b.data| + |t|);
    } else {
      HeadEndsLater(c.Receive(u), t);
    }
  }

  /** Where lines and headers wait, they cannot end within the bytes already there. */
  lemma {:induction false} HeadEndsLater(c: Conn, t: string)
    requires c.Valid() && |c.data| + |t| <= READ_BUFFER
    requires Head(c).0 == Stopped(Waiting) && Head(c.Receive(t)).0 == AtBody
    ensures Head(c.Receive(t)).1.checked > |c.data|
    decreases |c.data| - c.checked
  {
    HeadStepMore(c, t);
    var (end, c1) := HeadStep(c);
    if end == None {
      HeadEndsLater(c1, t);
    } else {
      ScanEndsLater(c.data, t, c.checked);
    }
  }

  lemma {:induction false} ScanEndsLater(s: string, t: string, i: nat)
    requires i <= |s| && Scan(s, i).0 != LineOk && Scan(s + t, i).0 == LineOk
    ensures Scan(s + t, i).1 + 2 > |s|
    decreases |s| - i
  {
    if i < |s| && s[i] != CR && s[i] != LF {
      ScanEndsLater(s, t, i + 1);
    }
  }

  lemma StallStep(b: Conn, total: nat)
    requires Clean(b) && b.f.phase == Content && 0 < b.f.contentLength
    requires |b.data| <= total == b.checked + b.f.contentLength < READ_BUFFER
    requires b.checked < |b.data| < total && !Holds(b.data, b.checked)
    ensures Body(b, true).0 == Waiting && Stuck(Body(b, true).1, total)
    ensures Body(b, true).1.f.contentLength == b.f.contentLength
  {
    var (st, b1) := ParseLine(b);
    assert b1.checked > b.checked;
    if st == LineOk {
      StuckBody(b1, true, total);
    }
  }

  /** No answer other than NO_REQUEST comes before the last byte of a request with a body. */
  lemma EarlyAnswer(c: Conn, u: string, t: string)
    requires Clean(c) && |c.data| + |u| + |t| <= READ_BUFFER
    requires ArrivesExactly(c, u + t) && ReadProcess(c.Receive(u)).0 != Waiting
    ensures t == []
  {
    hide HeadStep;
    HeadOfBoth(c, u, t);
    ContinueIsHeadThenBody(c.Receive(u));
    var (end, b) := Head(c.Receive(u));
    if end == AtBody && !BodyArrived(b) {
      NotYet(b);
    }
  }

  /**
   A request with a body that ends the stream is answered, as if it had come in one piece, if and only
   if no cut stalls; otherwise the connection waits for ever.
   */
  lemma SplitExactly(c: Conn, chunks: seq<string>)
    requires Clean(c) && chunks != [] && |c.data| + |Flat(chunks)| <= READ_BUFFER
    requires ArrivesExactly(c, Flat(chunks))
    ensures var once := ReadProcess(c.Receive(Flat(chunks)));
      && once.0 == Complete
      && ((forall k :: k in Cuts(|c.data|, chunks) ==> !Stalls(c, Flat(chunks), k)) <==>
          (Feed(c, chunks).0 == Complete && Feed(c, chunks).1.Seen() == once.1.Seen()))
      && ((exists k :: k in Cuts(|c.data|, chunks) && Stalls(c, Flat(chunks), k)) <==>
          Feed(c, chunks).0 == Waiting)
  {
    hide HeadStep;
    var s := Flat(chunks);
    var b := Head(c.Receive(s)).1;
    HeadIsClean(c.Receive(s));
    ContinueIsHeadThenBody(c.Receive(s));
    BodyText(b);
    if k :| k in Cuts(|c.data|, chunks) && Stalls(c, s, k) {
      StallIsFinal(c, chunks, k);
    } else {
      SplitIndependent(c, chunks);
    }
  }

  lemma FlatTwo(u: string, t: string)
    ensures Flat([u, t]) == u + t
  {
    assert [u, t][1..] == [t];
    FlatFirst([t]);
  }

  // ---- a negative Content-Length ----

  /** The end of the first chunk that reaches index `h`; the end of all of them when none does. */
  function FirstPast(at: nat, chunks: seq<string>, h: nat): (k: nat)
    ensures at <= k <= at + |Flat(chunks)|
    decreases |chunks|
  {
    if chunks == [] then at
    else if at + |chunks[0]| >= h then at + |chunks[0]|
    else FirstPast(at + |chunks[0]|, chunks[1..], h)
  }

  /** The headers announce fewer bytes than none, though not so few that the terminator misses the buffer. */
  predicate TakesWhatArrived(b: Conn) {
    b.f.phase == Content && 0 <= b.checked + b.f.contentLength < b.checked
  }

  /**
   With a negative Content-Length the text taken for the body is what has arrived by the end of the chunk that
   completes the headers. So the chunks make no difference if and only if what comes later adds no text to it.
   */
  lemma {:induction false} NegativeLengthTakesWhatArrived(c: Conn, chunks: seq<string>)
    requires Clean(c) && c.f.phase != Content && chunks != [] && |c.data| + |Flat(chunks)| < READ_BUFFER
    requires var (end, b) := Head(c.Receive(Flat(chunks))); TakesWhatArrived(b)
    ensures var b := Head(c.Receive(Flat(chunks))).1;
      var once := ReadProcess(c.Receive(Flat(chunks)));
      var k := FirstPast(|c.data|, chunks, b.checked);
      && b.checked <= k <= |b.data|
      && once.0 == Complete && once.1.Seen() == (b.checked, b.checked, b.f.(body := CString(b.data[b.checked..])))
      && Feed(c, chunks).0 == Complete
      && Feed(c, chunks).1.Seen() == (b.checked, b.checked, b.f.(body := CString(b.data[b.checked..k])))
    decreases |chunks|
  {
    hide HeadStep, Body, CString, ParseLine;
    var u, t := chunks[0], Flat(chunks[1..]);
    HeadOfBoth(c, u, t);
    ContinueIsHeadThenBody(c.Receive(u));
    ContinueIsHeadThenBody(c.Receive(u + t));
    HeadIsClean(c.Receive(u + t));
    var b := Head(c.Receive(u + t)).1;
    BodyOfNegativeLength(b);
    if |chunks| == 1 {
      FlatFirst(chunks);
      assert u + t == u;
    }
    var (end, b1) := Head(c.Receive(u));
    if end == AtBody {
      BodyOfNegativeLength(b1);
      assert b.data[b.checked..|c.data| + |u|] == b1.data[b1.checked..];
    } else {
      HeadEndsLater(c.Receive(u), t);
      NegativeLengthTakesWhatArrived(b1, chunks[1..]);
    }
  }

  lemma BodyOfNegativeLength(b: Conn)
    requires Clean(b) && TakesWhatArrived(b) && |b.data| < READ_BUFFER
    ensures Body(b, true).0 == Complete
    ensures Body(b, true).1.Seen() == (b.start, b.checked, b.f.(body := CString(b.data[b.checked..])))
  {
    var text := b.data[b.checked..];
    assert Cells(b.data[b.start + b.f.contentLength := NUL], b.start) == text + [NUL];
    UntilTerminated(text);
  }
}
