/**
 What the line scanner does to a body that has not arrived in full, and so when a request is answered after
 all, although a cut stalled it and more bytes follow the body.
 */
module BodyScanning {
  import opened CText
  import opened Request
  import opened SplitIndependence

  /** Where the scanner, run line after line from `i`, stops. */
  function ScanAll(s: string, i: nat): (j: nat)
    requires i <= |s|
    ensures i <= j <= |s|
    decreases |s| - i
  {
    var (st, j) := Scan(s, i);
    if st == LineOk then ScanAll(s, j + 2) else j
  }

  /** The end of the last whole line from `i` on: the last place at which the body's length is compared. */
  function LastLineEnd(s: string, i: nat): (j: nat)
    requires i <= |s|
    ensures i <= j <= |s|
    decreases |s| - i
  {
    var (st, j) := Scan(s, i);
    if st == LineOk then LastLineEnd(s, j + 2) else i
  }

  lemma TailOfTail<T>(s: seq<T>, i: nat, j: nat)
    requires i <= j <= |s|
    ensures s[j..] == s[i..][j - i..]
  {
  }

  lemma {:induction false} ScanSuffix(s: string, t: string, i: nat)
    requires i <= |s| == |t| && s[i..] == t[i..]
    ensures Scan(s, i) == Scan(t, i)
    decreases |s| - i
  {
    if i < |s| {
      assert s[i] == s[i..][0] && t[i] == t[i..][0];
      assert i + 1 < |s| ==> s[i + 1] == s[i..][1] && t[i + 1] == t[i..][1];
      assert s[i + 1..] == s[i..][1..] && t[i + 1..] == t[i..][1..];
      ScanSuffix(s, t, i + 1);
    }
  }

  lemma {:induction false} ScanAllSuffix(s: string, t: string, i: nat)
    requires i <= |s| == |t| && s[i..] == t[i..]
    ensures ScanAll(s, i) == ScanAll(t, i) && LastLineEnd(s, i) == LastLineEnd(t, i)
    decreases |s| - i
  {
    hide Scan;
    ScanSuffix(s, t, i);
    var (st, j) := Scan(s, i);
    if st == LineOk {
      TailOfTail(s, i, j + 2);
      TailOfTail(t, i, j + 2);
      ScanAllSuffix(s, t, j + 2);
    }
  }

  /** One visit to the body, and the line scanned after it; where the line was said to start makes no difference. */
  lemma OneVisit(c: Conn)
    requires c.Valid() && c.f.phase == Content && !BodyArrived(c)
    ensures var (st, c1) := ParseLine(c);
      Body(c, true) ==
        if SumOverflows(c) then (Overrun, c.(start := c.checked))
        else if st != LineOk then (Waiting, c1.(start := c.checked))
        else Body(c1.(start := c.checked), true)
  {
    hide Scan, TakeBody;
    assert ParseLine(c.(start := c.checked)) == (ParseLine(c).0, ParseLine(c).1.(start := c.checked));
  }

  lemma LineScanned(c: Conn)
    requires c.Valid()
    ensures var (st, c1) := ParseLine(c);
      if st == LineOk then
        && c1.data[c1.checked..] == c.data[c1.checked..]
        && ScanAll(c.data, c.checked) == ScanAll(c.data, c1.checked)
        && LastLineEnd(c.data, c.checked) == LastLineEnd(c.data, c1.checked)
      else
        c1.checked == ScanAll(c.data, c.checked) && LastLineEnd(c.data, c.checked) == c.checked
  {
    hide Scan;
  }

  /**
   One call while the body is not there in full: NO_REQUEST, with the scanner as far as it gets, unless the sum
   of length and cursor overflows at the end of some line on the way.
   */
  lemma {:induction false} BodyRuns(c: Conn)
    requires c.Valid() && c.f.phase == Content && !BodyArrived(c)
    ensures var (o, c1) := Body(c, true);
      if c.f.contentLength + LastLineEnd(c.data, c.checked) >= 0x8000_0000 then o == Overrun
      else
        && o == Waiting && c1.f == c.f && |c1.data| == |c.data|
        && c1.checked == ScanAll(c.data, c.checked) && c1.start == LastLineEnd(c.data, c.checked)
        && c1.data[c1.start..] == c.data[c1.start..]
    decreases |c.data| - c.checked
  {
    hide Scan, Body, ParseLine, LastLineEnd, ScanAll;
    OneVisit(c);
    LineScanned(c);
    var (st, c1) := ParseLine(c);
    if !SumOverflows(c) && st == LineOk {
      var i, d := c1.checked, c1.(start := c.checked);
      ScanAllSuffix(c1.data, c.data, i);
      BodyRuns(d);
      var (o, c2) := Body(d, true);
      if o == Waiting {
        TailOfTail(c1.data, i, c2.start);
        TailOfTail(c.data, i, c2.start);
      }
    }
  }

  /** One call when the body is there, on a connection whose bytes from `start` on are as received. */
  lemma BodyAnswers(c: Conn)
    requires c.Valid() && c.f.phase == Content && BodyArrived(c)
    requires 0 <= c.f.contentLength && |c.data| < READ_BUFFER
    ensures var (o, c1) := Body(c, true);
      var text := CString(c.data[c.start..c.start + c.f.contentLength]);
      o == Complete && c1.Seen() == (c.checked, c.checked, c.f.(body := text))
  {
    hide CString, Cells, TakeBody;
    var c1, end := c.(start := c.checked), c.start + c.f.contentLength;
    TerminatedCells(c.data, c.start, end);
    TextIsTaken(c1, c.start);
  }

  // ---- the scanner's place depends on the bytes alone ----

  /** Where the scanner has stopped, it goes on from when more bytes come. */
  lemma {:induction false} ScanAllMore(s: string, t: string, i: nat)
    requires i <= |s|
    ensures ScanAll(s + t, ScanAll(s, i)) == ScanAll(s + t, i)
    decreases |s| - i
  {
    hide Scan;
    ScanMore(s, t, i);
    var (st, j) := Scan(s, i);
    if st == LineOk { ScanAllMore(s, t, j + 2); }
  }

  lemma ScanAllPrefixes(s: string, i: nat, k: nat, m: nat)
    requires i <= k <= m <= |s|
    ensures ScanAll(s[..k], i) <= ScanAll(s[..m], i) == ScanAll(s[..m], ScanAll(s[..k], i))
  {
    ScanAllMore(s[..k], s[k..m], i);
    assert s[..k] + s[k..m] == s[..m];
  }

  lemma {:induction false} LastLineBeforeStop(s: string, i: nat)
    requires i <= |s|
    ensures LastLineEnd(s, i) <= ScanAll(s, i)
    ensures ScanAll(s, i) == i <==> i == |s| || Holds(s, i)
    decreases |s| - i
  {
    var (st, j) := Scan(s, i);
    if st == LineOk { LastLineBeforeStop(s, j + 2); }
  }

  /** The ends of the chunks, the first of which lands at `at`. */
  function Ends(at: nat, chunks: seq<string>): (r: seq<nat>)
    ensures |r| == |chunks| + 1 && r[0] == at && r[|chunks|] == at + |Flat(chunks)|
    ensures forall j :: 0 <= j < |chunks| ==> r[j + 1] == r[j] + |chunks[j]|
    decreases |chunks|
  {
    if chunks == [] then [at]
    else
      var rest := Ends(at + |chunks[0]|, chunks[1..]);
      assert forall j :: 0 < j < |chunks| ==> rest[j] == rest[j - 1] + |chunks[1..][j - 1]|;
      [at] + rest
  }

  lemma EndsInOrder(at: nat, chunks: seq<string>, i: nat, j: nat)
    requires i <= j <= |chunks|
    ensures Ends(at, chunks)[i] <= Ends(at, chunks)[j] <= at + |Flat(chunks)|
    decreases |chunks| - i
  {
    if i < j { EndsInOrder(at, chunks, i + 1, j); }
    else if j < |chunks| { EndsInOrder(at, chunks, j + 1, |chunks|); }
  }

  /** The bytes received, the index at which their body starts, its length, and the ends of the chunks. */
  datatype Stream = Stream(bytes: string, body: nat, length: nat, ends: seq<nat>)
  {
    predicate Valid() {
      && body <= |bytes| && ends != []
      && (forall j :: 0 <= j < |ends| ==> ends[j] <= |bytes|)
      && (forall i, j :: 0 <= i <= j < |ends| ==> ends[i] <= ends[j])
    }

    /**
     Where the scanner stands when chunk `j` comes: where the bytes so far let it go, run from the start of the
     body on, once a call has seen the headers.
     */
    function Stand(j: nat): (q: nat)
      requires Valid() && j < |ends|
      ensures body <= q <= |bytes|
    {
      if j == 0 || ends[j] < body then body else ScanAll(bytes[..ends[j]], body)
    }

    /** Where `get_line` points when chunk `j` comes: the last place at which the length was compared. */
    function LineStart(j: nat): (i: nat)
      requires Valid() && j < |ends|
      ensures body <= i <= Stand(j)
    {
      if j == 0 || ends[j] < body then body
      else
        StandsFurther(j);
        LastLineBeforeStop(bytes[..ends[j]], Stand(j - 1));
        LastLineEnd(bytes[..ends[j]], Stand(j - 1))
    }

    lemma StandsFurther(j: nat)
      requires Valid() && 0 < j < |ends| && body <= ends[j]
      ensures Stand(j - 1) <= ends[j]
      ensures ScanAll(bytes[..ends[j]], Stand(j - 1)) == Stand(j)
    {
      if j - 1 > 0 && ends[j - 1] >= body { ScanAllPrefixes(bytes, body, ends[j - 1], ends[j]); }
    }

    lemma NextPlace(j: nat)
      requires Valid() && j + 1 < |ends| && body <= ends[j + 1]
      ensures Stand(j) <= ends[j + 1]
      ensures Stand(j + 1) == ScanAll(bytes[..ends[j + 1]], Stand(j))
      ensures LineStart(j + 1) == LastLineEnd(bytes[..ends[j + 1]], Stand(j))
    {
      hide ScanAll, LastLineEnd;
      StandsFurther(j + 1);
    }

    /** Chunk `j` brings the announced number of bytes, counted from where the scanner stands. */
    predicate Enough(j: nat)
      requires Valid() && j + 1 < |ends|
    {
      ends[j + 1] >= Stand(j) + length
    }

    /** The first chunk from `j` on that brings enough; their number when there is none. */
    function FirstEnough(j: nat): (i: nat)
      requires Valid() && j < |ends|
      ensures j <= i < |ends|
      ensures i + 1 < |ends| ==> Enough(i)
      ensures forall k :: j <= k < i ==> !Enough(k)
      decreases |ends| - j
    {
      if j + 1 == |ends| || Enough(j) then j else FirstEnough(j + 1)
    }

    /** The chunk that brings the last byte of the body, if one does. */
    function Filling(j: nat): (i: nat)
      requires Valid() && j < |ends|
      ensures j <= i < |ends|
      ensures i + 1 < |ends| ==> ends[i + 1] >= body + length
      ensures forall k :: j < k <= i ==> ends[k] < body + length
      decreases |ends| - j
    {
      if j + 1 == |ends| || ends[j + 1] >= body + length then j else Filling(j + 1)
    }

    /** The text that `parse_content` takes for the body when chunk `j` brings enough. */
    function TextAt(j: nat): string
      requires Valid() && j + 1 < |ends| && Enough(j)
    {
      CString(bytes[LineStart(j)..LineStart(j) + length])
    }

    /** Answered when the first such chunk comes, with the text taken then; otherwise waiting. */
    predicate Gives(r: (Outcome, Conn), f: Fields, j: nat)
      requires Valid() && j < |ends|
    {
      var i := FirstEnough(j);
      if i + 1 < |ends| then
        r.0 == Complete && r.1.Seen() == (Stand(i), Stand(i), f.(body := TextAt(i)))
      else
        r.0 == Waiting && r.1.f == f
    }
  }

  /** The connection is waiting for its body when chunk `j` comes. */
  predicate InBody(c: Conn, v: Stream, j: nat)
    requires v.Valid() && j < |v.ends|
  {
    && c.Valid() && c.f.phase == Content && c.f.contentLength == v.length
    && c.checked == v.Stand(j) && c.start == v.LineStart(j)
  }

  /** One call after chunk `j`: the answer, or the connection waiting for the next chunk. */
  lemma BodyCall(c: Conn, v: Stream, j: nat)
    requires v.Valid() && 0 < v.length < 0x8000_0000 - READ_BUFFER && |v.bytes| < READ_BUFFER
    requires j + 1 < |v.ends| && v.body <= v.ends[j + 1] && InBody(c, v, j)
    requires |c.data| == v.ends[j + 1] && c.data[c.start..] == v.bytes[..v.ends[j + 1]][c.start..]
    ensures var (o, c1) := Body(c, true);
      if v.Enough(j) then o == Complete && c1.Seen() == (v.Stand(j), v.Stand(j), c.f.(body := v.TextAt(j)))
      else
        && o == Waiting && InBody(c1, v, j + 1) && c1.f == c.f && |c1.data| == |c.data|
        && c1.data[c1.start..] == v.bytes[..v.ends[j + 1]][c1.start..]
  {
    hide Body, CString, ScanAll, LastLineEnd, Stream.Stand, Stream.LineStart;
    var k, q, i := v.ends[j + 1], c.checked, c.start;
    var now := v.bytes[..k];
    if v.Enough(j) {
      BodyAnswers(c);
      assert c.data[i..i + v.length] == c.data[i..][..v.length] == now[i..][..v.length] == v.bytes[i..i + v.length];
    } else {
      v.NextPlace(j);
      TailOfTail(c.data, i, q);
      TailOfTail(now, i, q);
      BodyRuns(c);
      ScanAllSuffix(c.data, now, q);
      var c1 := Body(c, true).1;
      TailOfTail(c.data, i, c1.start);
      TailOfTail(now, i, c1.start);
    }
  }

  /** From chunk `j` on, once it has come and the connection waits for its body. */
  lemma {:induction false} FeedBody(c: Conn, v: Stream, chunks: seq<string>, j: nat)
    requires v.Valid() && 0 < v.length < 0x8000_0000 - READ_BUFFER && |v.bytes| < READ_BUFFER
    requires |v.ends| == j + 2 + |chunks| && v.body <= v.ends[j + 1] && InBody(c, v, j)
    requires |c.data| == v.ends[j + 1] && c.data[c.start..] == v.bytes[..v.ends[j + 1]][c.start..]
    requires v.ends[j + 1..] == Ends(v.ends[j + 1], chunks)
    requires v.bytes == v.bytes[..v.ends[j + 1]] + Flat(chunks)
    ensures var (o, c1) := Body(c, true);
      |c1.data| + |Flat(chunks)| <= READ_BUFFER &&
      v.Gives(if o == Waiting then Feed(c1, chunks) else (o, c1), c.f, j)
    decreases |chunks|
  {
    hide Body, CString, ScanAll, LastLineEnd, Stream.Stand, Stream.LineStart, Stream.TextAt;
    BodyCall(c, v, j);
    var (o, c1) := Body(c, true);
    if o == Waiting && chunks != [] {
      var k, d := v.ends[j + 1], c1.Receive(chunks[0]);
      assert v.ends[j + 2..] == v.ends[j + 1..][1..];
      assert v.ends[j + 2] == k + |chunks[0]|;
      NextPrefix(v.bytes, k, chunks);
      assert d.data[d.start..] == v.bytes[..v.ends[j + 2]][d.start..];
      FeedBody(d, v, chunks[1..], j + 1);
      assert ReadProcess(d) == Body(d, true);
    }
  }

  lemma NextPrefix(s: string, k: nat, chunks: seq<string>)
    requires chunks != [] && k <= |s| && s == s[..k] + Flat(chunks)
    ensures k + |chunks[0]| <= |s| && s[..k + |chunks[0]|] == s[..k] + chunks[0]
    ensures s == s[..k + |chunks[0]|] + Flat(chunks[1..])
  {
  }

  /** A request with a body, in these chunks. */
  predicate HasBody(c: Conn, chunks: seq<string>)
  {
    && Clean(c) && chunks != [] && |c.data| + |Flat(chunks)| < READ_BUFFER
    && var (end, b) := Head(c.Receive(Flat(chunks)));
       end == AtBody && 0 < b.f.contentLength < 0x8000_0000 - READ_BUFFER
  }

  function StreamOf(c: Conn, chunks: seq<string>): (v: Stream)
    requires HasBody(c, chunks)
    ensures v.Valid() && |v.ends| == |chunks| + 1
  {
    var b := Head(c.Receive(Flat(chunks))).1;
    StreamIsValid(b.data, b.checked, b.f.contentLength, |c.data|, chunks);
    Stream(b.data, b.checked, b.f.contentLength, Ends(|c.data|, chunks))
  }

  lemma StreamIsValid(bytes: string, body: nat, length: nat, at: nat, chunks: seq<string>)
    requires body <= |bytes| == at + |Flat(chunks)|
    ensures Stream(bytes, body, length, Ends(at, chunks)).Valid()
  {
    hide Flat;
    var ends := Ends(at, chunks);
    forall i, j | 0 <= i <= j < |ends|
      ensures ends[i] <= ends[j] <= |bytes|
    {
      EndsInOrder(at, chunks, i, j);
    }
  }

  /** From chunk `j` on, while no call has seen the end of the headers. */
  lemma {:induction false} FeedHead(c: Conn, v: Stream, chunks: seq<string>, j: nat)
    requires HasBody(c, chunks) && v.Valid() && |v.ends| == j + 1 + |chunks|
    requires |c.data| == v.ends[j] && v.ends[j..] == Ends(v.ends[j], chunks) && (j == 0 || v.ends[j] < v.body)
    requires var b := Head(c.Receive(Flat(chunks))).1;
      b.data == v.bytes && b.checked == v.body && b.f.contentLength == v.length
    ensures v.Gives(Feed(c, chunks), Head(c.Receive(Flat(chunks))).1.f, j)
    decreases |chunks|
  {
    hide HeadStep, Body, ScanAll, LastLineEnd, Feed, Stream.TextAt, Stream.Gives, InBody;
    var u, t := chunks[0], Flat(chunks[1..]);
    HeadOfBoth(c, u, t);
    OneChunk(c, chunks);
    HeadIsClean(c.Receive(u + t));
    assert v.ends[j + 1..] == v.ends[j..][1..];
    assert v.ends[j + 1] == v.ends[j] + |u|;
    var (end, b1) := Head(c.Receive(u));
    if end == AtBody {
      assert v.bytes == b1.data + t;
      BodyBegins(b1, v, j);
      FeedBody(b1, v, chunks[1..], j);
    } else {
      HeadEndsLater(c.Receive(u), t);
      if |chunks| > 1 {
        FeedHead(b1, v, chunks[1..], j + 1);
        NotYetEnough(v, Feed(c, chunks), Head(c.Receive(Flat(chunks))).1.f, j);
      } else {
        FlatFirst(chunks);
      }
    }
  }

  lemma OneChunk(c: Conn, chunks: seq<string>)
    requires Clean(c) && chunks != [] && |c.data| + |Flat(chunks)| <= READ_BUFFER
    ensures var (end, b) := Head(c.Receive(chunks[0]));
      && (end == AtBody ==>
            var (o, c1) := Body(b, true);
            Feed(c, chunks) == if o == Waiting then Feed(c1, chunks[1..]) else (o, c1))
      && (end == Stopped(Waiting) ==> Feed(c, chunks) == Feed(b, chunks[1..]))
      && (end.Stopped? && end.outcome != Waiting ==> Feed(c, chunks) == (end.outcome, b))
  {
    hide Head, Body;
    ContinueIsHeadThenBody(c.Receive(chunks[0]));
  }

  lemma BodyBegins(b: Conn, v: Stream, j: nat)
    requires v.Valid() && j < |v.ends| && (j == 0 || v.ends[j] < v.body)
    requires Clean(b) && b.f.phase == Content && b.checked == v.body && b.f.contentLength == v.length
    ensures InBody(b, v, j)
  {
  }

  lemma NotYetEnough(v: Stream, r: (Outcome, Conn), f: Fields, j: nat)
    requires v.Valid() && j + 1 < |v.ends| && v.Gives(r, f, j + 1) && v.ends[j + 1] < v.body
    ensures v.Gives(r, f, j)
  {
    hide Stream.TextAt;
  }

  /**
   With any bytes after the body, in any chunks: the request is answered if and only if some chunk ends at least
   as many bytes as announced after the place where the scanner stood when it came. It is answered when the first
   such chunk comes, and the text taken for its body is the announced number of bytes from the place at which the
   length was last compared on, up to a NUL.
   */
  lemma AnsweredExactlyWhen(c: Conn, chunks: seq<string>)
    requires HasBody(c, chunks)
    ensures var v := StreamOf(c, chunks);
      && (Feed(c, chunks).0 == Complete <==> exists j :: 0 <= j < |chunks| && v.Enough(j))
      && v.Gives(Feed(c, chunks), Head(c.Receive(Flat(chunks))).1.f, 0)
  {
    hide Head, Feed, Stream.Stand, Stream.TextAt, Ends;
    var v := StreamOf(c, chunks);
    assert v.ends[0..] == v.ends;
    FeedHead(c, v, chunks, 0);
  }

  /**
   The whole body is there. Answer, fields and cursors are those of a single `recv` if and only if the scanner could
   not move when the chunk with the last byte of the body came; answer and fields alone, if and only if there is
   an answer and its text is the same.
   */
  lemma SameAsOneReceive(c: Conn, chunks: seq<string>)
    requires HasBody(c, chunks)
    requires var v := StreamOf(c, chunks); v.body + v.length <= |v.bytes|
    ensures var v, once, r := StreamOf(c, chunks), ReadProcess(c.Receive(Flat(chunks))), Feed(c, chunks);
      var last, first := v.Filling(0), v.FirstEnough(0);
      && once.0 == Complete && last < |chunks|
      && (r.0 == Complete && r.1.Seen() == once.1.Seen() <==>
            last == 0 || v.ends[last] <= v.body || Holds(v.bytes[..v.ends[last]], v.body))
      && (r.0 == Complete && r.1.f == once.1.f <==>
            first < |chunks| && v.TextAt(first) == CString(v.bytes[v.body..v.body + v.length]))
  {
    hide HeadStep, Body, CString, Feed, ScanAll, LastLineEnd, Ends;
    var v := StreamOf(c, chunks);
    var all := c.Receive(Flat(chunks));
    AnsweredExactlyWhen(c, chunks);
    HeadIsClean(all);
    ContinueIsHeadThenBody(all);
    BodyText(Head(all).1);
    Unmoved(v);
  }

  /** The scanner has not moved by the time the body is there exactly if the answer finds it at its start. */
  lemma Unmoved(v: Stream)
    requires v.Valid() && 0 < v.length && v.body + v.length <= |v.bytes| && v.ends[|v.ends| - 1] == |v.bytes|
    requires |v.ends| > 1
    ensures var last, first := v.Filling(0), v.FirstEnough(0);
      && last + 1 < |v.ends| && last <= first
      && (v.Stand(last) == v.body <==>
            last == 0 || v.ends[last] <= v.body || Holds(v.bytes[..v.ends[last]], v.body))
      && (v.Stand(last) == v.body <==> first + 1 < |v.ends| && v.Stand(first) == v.body)
      && (v.Stand(last) == v.body ==> first == last && v.LineStart(first) == v.body)
  {
    hide ScanAll, LastLineEnd;
    var last, first := v.Filling(0), v.FirstEnough(0);
    assert last + 1 < |v.ends| by {
      assert last > 0 ==> v.ends[last] < v.body + v.length;
    }
    assert last <= first by {
      assert first + 1 < |v.ends| ==> v.Enough(first);
    }
    assert v.Stand(last) == v.body ==> v.Enough(last) && first == last;
    if last > 0 && v.ends[last] >= v.body { LastLineBeforeStop(v.bytes[..v.ends[last]], v.body); }
    if 0 < last <= first && v.ends[last] >= v.body {
      ScanAllPrefixes(v.bytes, v.body, v.ends[last], v.ends[first]);
    }
  }
}
