/**
 `HttpConn` as the object it is: two fixed buffers, cursors into them, and the fields that the parser,
 the router, the response builder and the sender update in place. Each method is tied to the function of
 Request, Routing, Response or VectoredWrite that says what the call does.
 */
module HttpConn {
  import opened Options
  import opened CText
  import opened Request
  import opened Routing
  import Reactor
  import Response
  import VectoredWrite
  import Serving

  /** One `recv`: the bytes waiting in the kernel (none when the peer has closed), or an error. */
  datatype Recv = Got(bytes: string) | Error(errno: VectoredWrite.Errno)

  /** The bytes one `recv` delivers into `space` free cells. */
  function Delivered(r: Recv, space: nat): (s: string)
    ensures |s| <= space
    ensures r.Error? ==> s == []
    ensures r.Got? ==> s <= r.bytes && (s == r.bytes || |s| == space)
  {
    if r.Error? then [] else if |r.bytes| <= space then r.bytes else r.bytes[..space]
  }

  /** The edge-triggered loop of `read_once`: its return value and the bytes stored. */
  function ReceiveAll(space: nat, script: seq<Recv>): (r: (int, string))
    ensures |r.1| <= space
    decreases |script|
  {
    if script == [] then (1, [])
    else
      var got := Delivered(script[0], space);
      if got != [] then
        var (code, more) := ReceiveAll(space - |got|, script[1..]);
        (code, got + more)
      else if script[0].Got? then (0, [])
      else match script[0].errno
        case Interrupted => ReceiveAll(space, script[1..])
        case Again => (1, [])
        case OtherError => (-1, [])
  }

  function Bytes(script: seq<Recv>): string {
    if script == [] then []
    else if script[0].Got? then script[0].bytes + Bytes(script[1..])
    else Bytes(script[1..])
  }

  /** A `recv` after which the loop of `read_once` goes on: it brought bytes or was interrupted. */
  predicate GoesOn(r: Recv) {
    if r.Got? then r.bytes != [] else r.errno == VectoredWrite.Interrupted
  }

  /**
   The loop stores what its calls bring, in order, until one brings nothing: 0 says that the peer has closed, 1
   that there is no more for now, -1 that there was an error.
   */
  lemma {:induction false} ReceivesUntilNothing(space: nat, script: seq<Recv>, last: Recv, rest: seq<Recv>)
    requires forall i :: 0 <= i < |script| ==> GoesOn(script[i])
    requires !GoesOn(last) && |Bytes(script)| <= space
    ensures ReceiveAll(space, script + [last] + rest) ==
      (if last.Got? then 0 else if last.errno == VectoredWrite.Again then 1 else -1, Bytes(script))
    decreases |script|
  {
    var all := script + [last] + rest;
    if script == [] {
      assert all[0] == last;
    } else {
      assert all[0] == script[0] && all[1..] == script[1..] + [last] + rest;
      if script[0].Got? {
        ReceivesUntilNothing(space - |script[0].bytes|, script[1..], last, rest);
      } else {
        ReceivesUntilNothing(space, script[1..], last, rest);
      }
    }
  }

  /** When more comes than there is room for, the loop fills the buffer and then takes 0 for a closed peer. */
  lemma {:induction false} ReceivesUntilFull(space: nat, script: seq<Recv>, next: Recv, rest: seq<Recv>)
    requires forall i :: 0 <= i < |script| ==> GoesOn(script[i])
    requires next.Got? && |Bytes(script)| >= space
    ensures ReceiveAll(space, script + [next] + rest) == (0, Bytes(script)[..space])
    decreases |script|
  {
    var all := script + [next] + rest;
    if script == [] {
      assert all[0] == next;
    } else {
      assert all[0] == script[0] && all[1..] == script[1..] + [next] + rest;
      var got := Delivered(script[0], space);
      if script[0].Error? {
        ReceivesUntilFull(space, script[1..], next, rest);
      } else if space > 0 {
        if |got| < |script[0].bytes| { assert got == script[0].bytes[..space]; }
        ReceivesUntilFull(space - |got|, script[1..], next, rest);
        assert Bytes(script)[..space] == got + Bytes(script[1..])[..space - |got|];
      }
    }
  }

  /** What `read_process` hands back: a code, or no defined behaviour, or an exception. */
  datatype Answer = Code(code: HttpCode) | Undefined | Uncaught

  class HttpConn {
    const inBuffer: array<char>
    const outBuffer: array<char>
    var readIdx: nat
    var checkedIdx: nat
    var startOffset: nat
    var writeIdx: nat
    var checkState: Phase
    var meth: Method
    var enablePost: bool
    var url: string
    var version: string
    var host: string
    var contentLength: int
    var linger: bool
    var reqContentData: string
    var realFile: string
    var fileSize: nat
    var users: Users
    var iov0: Response.Iov
    var iov1: Response.Iov
    var iovCount: int
    var bytesHaveSend: nat
    var bytesNotSend: int
    var mysql: Option<nat>
    var ioState: Reactor.Io
    var timerFlag: bool
    var improv: bool

    /** Both buffers have their sizes, the cursors are ordered, and cells not received into are zero. */
    ghost predicate Valid()
      reads this, inBuffer, outBuffer
    {
      && inBuffer.Length == READ_BUFFER && outBuffer.Length == Response.WRITE_BUFFER && inBuffer != outBuffer
      && startOffset <= checkedIdx <= readIdx <= READ_BUFFER
      && -0x8000_0000 <= contentLength < 0x8000_0000
      && writeIdx < Response.WRITE_BUFFER
      && (forall k :: readIdx <= k < READ_BUFFER ==> inBuffer[k] == NUL)
    }

    ghost function Req(): Conn
      reads this, inBuffer
      requires readIdx <= inBuffer.Length
    {
      Conn(inBuffer[..readIdx], startOffset, checkedIdx,
           Fields(checkState, meth, enablePost, url, version, host, contentLength, linger, reqContentData))
    }

    ghost function Resp(): Response.Out
      reads this, outBuffer
      requires writeIdx <= outBuffer.Length
    {
      Response.Out(outBuffer[..writeIdx], iov0, iov1, iovCount, bytesHaveSend, bytesNotSend)
    }

    /** No MySQL connection, waiting to read, neither flag up: where a worker starts on the next request. */
    ghost predicate AtStart()
      reads `mysql, `ioState, `timerFlag, `improv
    {
      mysql == None && ioState == Reactor.Read && !timerFlag && !improv
    }

    constructor (loaded: Users)
      ensures AtStart() && inBuffer.Length == 2048 && outBuffer.Length == 1024
      ensures Valid() && fresh(inBuffer) && fresh(outBuffer)
      ensures Req() == Fresh([], [], [], [])
      ensures Resp().text == [] && Resp().have == Resp().notSend == 0
      ensures users == loaded
    {
      inBuffer := new char[READ_BUFFER](_ => NUL);
      outBuffer := new char[Response.WRITE_BUFFER](_ => NUL);
      readIdx, checkedIdx, startOffset, writeIdx := 0, 0, 0, 0;
      checkState, meth, enablePost, contentLength, linger := RequestLine, GET, false, 0, false;
      url, version, host, reqContentData, realFile := [], [], [], [], [];
      fileSize, users := 0, loaded;
      iov0, iov1, iovCount := Response.Iov(Response.OutBuffer, 0, 0), Response.Iov(Response.FileMap, 0, 0), 0;
      bytesHaveSend, bytesNotSend := 0, 0;
      mysql, ioState, timerFlag, improv := None, Reactor.Read, false, false;
    }

    /** `_init`: ready for the next request; the strings and the map of users stay. */
    method Init()
      requires Valid()
      modifies `bytesHaveSend, `bytesNotSend, `checkState, `meth, `contentLength, `linger, `enablePost
      modifies `startOffset, `checkedIdx, `readIdx, `writeIdx, `mysql, `ioState, `timerFlag, `improv
      modifies inBuffer, outBuffer
      ensures Valid() && AtStart()
      ensures Req() == Fresh(old(url), old(version), old(host), old(reqContentData))
      ensures Resp() == Response.Empty(old(iov0), old(iov1), old(iovCount))
      ensures forall k :: 0 <= k < outBuffer.Length ==> outBuffer[k] == NUL
    {
      InitWork();
      InitParser();
      InitSender();
    }

    method InitWork()
      requires Valid()
      modifies `mysql, `ioState, `timerFlag, `improv
      ensures Valid() && AtStart()
    {
      mysql, ioState, timerFlag, improv := None, Reactor.Read, false, false;
    }

    method InitParser()
      requires Valid()
      modifies `checkState, `meth, `contentLength, `linger, `enablePost, `startOffset, `checkedIdx, `readIdx, inBuffer
      ensures Valid() && Req() == Fresh(url, version, host, reqContentData)
    {
      Zero(inBuffer);
      checkState, meth, contentLength, linger := RequestLine, GET, 0, false;
      startOffset, checkedIdx, readIdx := 0, 0, 0;
      enablePost := false;
    }

    method InitSender()
      requires Valid()
      modifies `bytesHaveSend, `bytesNotSend, `writeIdx, outBuffer
      ensures Valid() && Resp() == Response.Empty(old(iov0), old(iov1), old(iovCount))
      ensures forall k :: 0 <= k < outBuffer.Length ==> outBuffer[k] == NUL
    {
      bytesHaveSend, bytesNotSend, writeIdx := 0, 0, 0;
      Zero(outBuffer);
      assert outBuffer[..writeIdx] == [];
    }

    /** `memset(a, '\0', sizeof a)` */
    static method Zero(a: array<char>)
      modifies a
      ensures forall k :: 0 <= k < a.Length ==> a[k] == NUL
    {
      forall k | 0 <= k < a.Length { a[k] := NUL; }
    }

    // ---- receiving ----

    /** `recv(_sockfd, _in_buffer + _read_idx, READ_BUFFER - _read_idx, 0)` and the move of `_read_idx`. */
    method Store(got: string)
      requires Valid() && |got| <= READ_BUFFER - readIdx
      modifies `readIdx, inBuffer
      ensures Valid() && Req() == old(Req()).Receive(got)
      ensures inBuffer[..readIdx] == old(inBuffer[..readIdx]) + got
    {
      forall k | 0 <= k < |got| { inBuffer[readIdx + k] := got[k]; }
      readIdx := readIdx + |got|;
      assert inBuffer[..readIdx] == old(inBuffer[..readIdx]) + got;
    }

    method ReadOnceLevel(r: Recv) returns (code: int)
      requires Valid()
      modifies `readIdx, inBuffer
      ensures Valid()
      ensures var got := if old(readIdx) >= READ_BUFFER then [] else Delivered(r, READ_BUFFER - old(readIdx));
        && Req() == old(Req()).Receive(got)
        && code == (if got != [] then 1 else if old(readIdx) >= READ_BUFFER || r.Error? then -1 else 0)
    {
      assert Req() == Req().Receive([]) by { assert inBuffer[..readIdx] + [] == inBuffer[..readIdx]; }
      if readIdx >= READ_BUFFER { return -1; }
      var got := Delivered(r, READ_BUFFER - readIdx);
      if |got| > 0 {
        Store(got);
        return 1;
      } else if r.Error? {
        return -1;
      }
      return 0;
    }

    method ReadOnceEdge(script: seq<Recv>) returns (code: int)
      requires Valid()
      modifies `readIdx, inBuffer
      ensures Valid()
      ensures var (c, got) :=
          if old(readIdx) >= READ_BUFFER then (-1, []) else ReceiveAll(READ_BUFFER - old(readIdx), script);
        code == c && Req() == old(Req()).Receive(got)
    {
      if readIdx >= READ_BUFFER {
        assert inBuffer[..readIdx] + [] == inBuffer[..readIdx];
        return -1;
      }
      code := ReceiveLoop(script);
    }

    method ReceiveLoop(script: seq<Recv>) returns (code: int)
      requires Valid() && readIdx < READ_BUFFER
      modifies `readIdx, inBuffer
      ensures Valid()
      ensures code == ReceiveAll(READ_BUFFER - old(readIdx), script).0
      ensures inBuffer[..readIdx] == old(inBuffer[..readIdx]) + ReceiveAll(READ_BUFFER - old(readIdx), script).1
    {
      hide ReceiveAll;
      var i := 0;
      code := 1;
      ghost var all := ReceiveAll(READ_BUFFER - readIdx, script);
      ghost var whole := inBuffer[..readIdx] + all.1;
      assert script[0..] == script;
      while i < |script|
        invariant 0 <= i <= |script| && Valid() && code == 1
        invariant ReceiveAll(READ_BUFFER - readIdx, script[i..]).0 == all.0
        invariant inBuffer[..readIdx] + ReceiveAll(READ_BUFFER - readIdx, script[i..]).1 == whole
      {
        ReceiveStep(READ_BUFFER - readIdx, script, i);
        var now := Delivered(script[i], READ_BUFFER - readIdx);
        if |now| > 0 {
          ghost var more := ReceiveAll(READ_BUFFER - readIdx - |now|, script[i + 1..]).1;
          assert inBuffer[..readIdx] + now + more == inBuffer[..readIdx] + (now + more);
          Store(now);
        } else if script[i].Got? {
          return 0;
        } else if script[i].errno == VectoredWrite.Again {
          return 1;
        } else if script[i].errno != VectoredWrite.Interrupted {
          return -1;
        }
        i := i + 1;
      }
      ReceiveStep(READ_BUFFER - readIdx, script, i);
    }

    static lemma ReceiveStep(space: nat, script: seq<Recv>, i: nat)
      requires i <= |script|
      ensures var r := ReceiveAll(space, script[i..]);
        if i == |script| then r == (1, [])
        else
          var now := Delivered(script[i], space);
          var next := ReceiveAll(space - |now|, script[i + 1..]);
          if now != [] then r == (next.0, now + next.1)
          else if script[i].Got? then r == (0, [])
          else if script[i].errno == VectoredWrite.Interrupted then r == next
          else r == (if script[i].errno == VectoredWrite.Again then 1 else -1, [])
    {
      if i < |script| {
        assert script[i..][0] == script[i] && script[i..][1..] == script[i + 1..];
      }
    }

    // ---- parsing ----

    method ParseLine() returns (st: LineStatus)
      requires Valid()
      modifies `checkedIdx, inBuffer
      ensures Valid() && (st, Req()) == Request.ParseLine(old(Req()))
    {
      ghost var data := inBuffer[..readIdx];
      while checkedIdx < readIdx
        invariant old(checkedIdx) <= checkedIdx <= readIdx
        invariant Valid() && unchanged(inBuffer) && inBuffer[..readIdx] == data
        invariant Scan(data, old(checkedIdx)) == Scan(data, checkedIdx)
      {
        var c := inBuffer[checkedIdx];
        assert c == data[checkedIdx];
        if c == CR {
          if checkedIdx + 1 == readIdx {
            return LineOpen;
          } else if inBuffer[checkedIdx + 1] == LF {
            inBuffer[checkedIdx] := NUL;
            checkedIdx := checkedIdx + 1;
            inBuffer[checkedIdx] := NUL;
            checkedIdx := checkedIdx + 1;
            assert inBuffer[..readIdx] == data[checkedIdx - 2 := NUL][checkedIdx - 1 := NUL];
            return LineOk;
          }
          return LineBad;
        } else if c == LF {
          return LineBad;
        }
        checkedIdx := checkedIdx + 1;
      }
      return LineOpen;
    }

    /** The `getline` loop over an `istringstream`; the second `getline` can only fail once the first has. */
    method Tokenize(line: string) returns (result: seq<string>)
      ensures result == Tokens(line)
    {
      result := [];
      var at := 0;
      while at < |line|
        invariant 0 <= at <= |line|
        invariant Tokens(line) == result + Tokens(line[at..])
      {
        var token := Until(line[at..], ' ');
        UntilShape(line[at..], ' ');
        assert |token| < |line[at..]| ==> line[at..][|token| + 1..] == line[at + |token| + 1..];
        result := result + [token];
        at := if |token| == |line| - at then |line| else at + |token| + 1;
        assert at == |line| ==> Tokens(line[at..]) == [];
      }
    }

    /** `false` stands for BAD_REQUEST. */
    method ParseRequestLine(line: string) returns (ok: bool)
      requires Valid()
      modifies `meth, `enablePost, `version, `url, `checkState
      ensures Valid()
      ensures (ok, Req().f) == Request.ParseRequestLine(old(Req().f), line)
      ensures Req() == old(Req()).(f := Req().f)
    {
      hide Tokens, UrlOf;
      var result := Tokenize(line);
      if |result| != 3 { return false; }
      if EqNoCase(result[0], "GET") {
        meth := GET;
      } else if EqNoCase(result[0], "POST") {
        meth := POST;
        enablePost := true;
      } else {
        return false;
      }
      if !EqNoCase(result[2], "HTTP/1.1") { return false; }
      version := result[2];
      var found, path := ExtractUrl(result[1]);
      if !found { return false; }
      url := path;
      checkState := Header;
      return true;
    }

    /** The last part of `parse_request_line`: scheme and host dropped, "/" completed. */
    static method ExtractUrl(word: string) returns (found: bool, path: string)
      ensures UrlOf(word) == if found then Path(path) else NoSlash
    {
      var target := word;
      if StartsNoCase(target, "http://") {
        target := target[7..];
      } else if StartsNoCase(target, "https://") {
        target := target[8..];
      }
      var pos := |Until(target, '/')|;
      UntilShape(target, '/');
      if pos == |target| { return false, []; }
      path := target[pos..];
      if path == "/" {
        path := path + "judge.html";
        assert path == "/judge.html";
      }
      found := true;
    }

    /** `true` stands for GET_REQUEST, `false` for NO_REQUEST. */
    method ParseHeaders(text: string) returns (done: bool)
      requires Valid()
      modifies `checkState, `linger, `contentLength, `host
      ensures Valid()
      ensures (done, Req().f) == ParseHeader(old(Req().f), text)
      ensures Req() == old(Req()).(f := Req().f)
    {
      var line := text;
      if line == [] {
        if contentLength != 0 {
          checkState := Content;
          return false;
        }
        return true;
      } else if StartsNoCase(line, "Connection:") {
        line := SkipBlanks(line[11..]);
        if EqNoCase(line, "keep-alive") { linger := true; }
      } else if StartsNoCase(line, "Content-length:") {
        line := SkipBlanks(line[15..]);
        contentLength := Atoi(line);
      } else if StartsNoCase(line, "Host:") {
        line := SkipBlanks(line[5..]);
        host := line;
      }
      return false;
    }

    /** `line` is the index at which the body starts; None stands for NO_REQUEST. */
    method ParseContent(line: nat) returns (r: Option<Outcome>)
      requires Valid() && line <= startOffset
      modifies `reqContentData, inBuffer
      ensures Valid()
      ensures if SumOverflows(old(Req())) then r == Some(Overrun) && Req() == old(Req())
              else if BodyArrived(old(Req())) then r.Some? && (r.value, Req()) == TakeBody(old(Req()), line)
              else r == None && Req() == old(Req())
    {
      var sum := contentLength + checkedIdx;
      if sum >= 0x8000_0000 { return Some(Overrun); }
      if readIdx >= sum {
        var end := line + contentLength;
        if end < 0 || end >= READ_BUFFER { return Some(Overrun); }
        ghost var was := inBuffer[..readIdx];
        inBuffer[end] := NUL;
        assert inBuffer[..readIdx] == if end < readIdx then was[end := NUL] else was;
        TextInCells(inBuffer[..], readIdx, line);
        if NUL !in inBuffer[line..] { return Some(Overrun); }
        reqContentData := CString(inBuffer[line..]);
        return Some(Complete);
      }
      return None;
    }

    /** Reading to the first NUL of the buffer is reading to the first NUL of what was received. */
    static lemma TextInCells(buffer: string, read: nat, i: nat)
      requires |buffer| == READ_BUFFER && i <= read <= READ_BUFFER
      requires forall k :: read <= k < READ_BUFFER ==> buffer[k] == NUL
      ensures NUL in buffer[i..] <==> NUL in Cells(buffer[..read], i)
      ensures CString(buffer[i..]) == CString(Cells(buffer[..read], i))
    {
      var cells := Cells(buffer[..read], i);
      if read < READ_BUFFER {
        assert buffer[i..] == cells + buffer[read + 1..];
        assert cells[|cells| - 1] == NUL;
        UntilIgnoresTail(cells, buffer[read + 1..], NUL);
      } else {
        assert buffer[i..] == cells;
      }
    }

    // ---- routing ----

    /** None stands for an exception that is not caught. */
    method DoRespone(site: Site, sqlOk: bool) returns (code: Option<HttpCode>)
      requires Valid()
      modifies `realFile, `url, `users, `fileSize
      ensures Valid()
      ensures var reply := Routing.DoRespone(old(Req().f), old(users), site, sqlOk);
        && (code == None <==> reply == Throws)
        && (reply.Reply? ==>
              && code == Some(reply.code) && url == reply.url && realFile == reply.realFile && users == reply.users
              && (code == Some(FILE_REQUEST) ==>
                    site.stat(realFile).Present? && fileSize == site.stat(realFile).size))
    {
      hide Flag, FileFor, UrlAfterForm, UsersOf;
      realFile := site.docRoot;
      var flag := Flag(url);
      if flag == None { return Some(BAD_REQUEST); }
      if enablePost && (flag == Some('2') || flag == Some('3')) {
        if |reqContentData| < 5 { return None; }
        HandleForm(flag.value, sqlOk);
      }
      flag := Flag(url);
      if flag == None { return Some(BAD_REQUEST); }
      realFile := FileFor(site.docRoot, url, flag.value);
      var stat := site.stat(realFile);
      if stat == Absent { return Some(NO_RESOURCE); }
      fileSize := stat.size;
      if !stat.othersRead { return Some(FORBIDDEN_REQUEST); }
      if stat.directory { return Some(BAD_REQUEST); }
      return Some(FILE_REQUEST);
    }

    method HandleForm(flag: char, sqlOk: bool)
      requires Valid() && IsForm(Req().f) && |reqContentData| >= 5 && Flag(url) == Some(flag)
      modifies `url, `users
      ensures Valid()
      ensures url == UrlAfterForm(old(Req().f), old(users), sqlOk)
      ensures users == UsersOf(old(Req().f), old(users))
    {
      var userName := FormUser(reqContentData);
      var passwd := FormPassword(reqContentData);
      if flag == '3' {
        if userName !in users {
          users := users[userName := passwd];
          url := if sqlOk then "/log.html" else "/registerError.html";
        } else {
          url := "/registerError.html";
        }
      } else {
        url := if userName in users && users[userName] == passwd then "/welcome.html" else "/logError.html";
      }
    }

    // ---- the main state machine ----

    method ReadProcess(site: Site, sqlOk: bool) returns (answer: Answer)
      requires Valid()
      modifies `checkedIdx, `startOffset, `checkState, `meth, `enablePost, `version, `url, `host
      modifies `linger, `contentLength, `reqContentData, `realFile, `users, `fileSize, inBuffer
      ensures Valid() && Resp() == old(Resp())
      ensures var (o, c) := Request.ReadProcess(old(Req()));
        && (o == Waiting ==> answer == Code(NO_REQUEST) && Req() == c && users == old(users))
        && (o == Rejected ==> answer == Code(BAD_REQUEST) && Req() == c && users == old(users))
        && (o == Overrun ==> answer == Undefined)
        && (o == Complete ==>
              var reply := Routing.DoRespone(c.f, old(users), site, sqlOk);
              && (reply == Throws <==> answer == Uncaught)
              && (reply.Reply? ==>
                    && answer == Code(reply.code) && users == reply.users && realFile == reply.realFile
                    && Req() == c.(f := c.f.(url := reply.url))
                    && (reply.code == FILE_REQUEST ==>
                          site.stat(realFile).Present? && fileSize == site.stat(realFile).size)))
    {
      hide Request.ReadProcess, Routing.DoRespone;
      var o := MainLoop();
      match o {
        case Waiting => return Code(NO_REQUEST);
        case Rejected => return Code(BAD_REQUEST);
        case Overrun => return Undefined;
        case Complete =>
          var code := DoRespone(site, sqlOk);
          return if code == None then Uncaught else Code(code.value);
      }
    }

    /** The loop of `read_process`; its two calls of `do_respone`, both returned from, are left to the caller. */
    method MainLoop() returns (o: Outcome)
      requires Valid()
      modifies `checkedIdx, `startOffset, `checkState, `meth, `enablePost, `version, `url, `host
      modifies `linger, `contentLength, `reqContentData, inBuffer
      ensures Valid() && (o, Req()) == Request.ReadProcess(old(Req()))
    {
      hide Continue, Visit;
      var status := LineOk;
      ghost var end := Request.ReadProcess(Req());
      while true
        invariant Valid()
        invariant Continue(Req(), status == LineOk) == end
        decreases readIdx - checkedIdx, checkState == Content && status == LineOk
      {
        status := LoopCondition(status);
        if status != LineOk { return Waiting; }
        ghost var c := Req();
        var line := startOffset;
        startOffset := checkedIdx;
        var r: Option<Outcome>;
        r, status := Dispatch(line, c);
        if r.Some? { return r.value; }
      }
    }

    /** The condition of the loop: a new line is scanned unless the body is to be looked at first. */
    method LoopCondition(status: LineStatus) returns (st: LineStatus)
      requires Valid()
      modifies `checkedIdx, inBuffer
      ensures Valid() && startOffset <= checkedIdx
      ensures var ok := status == LineOk;
        Continue(old(Req()), ok) == if st == LineOk then Visit(Req()) else (Waiting, Req())
      ensures st == LineOk && checkState != Content ==>
        CString(inBuffer[startOffset..]) == CString(Req().data[startOffset..])
      ensures checkedIdx >= old(checkedIdx)
      ensures st == LineOk && !(checkState == Content && status == LineOk) ==> checkedIdx > old(checkedIdx)
    {
      hide Continue, Visit;
      ghost var c := Req();
      if checkState == Content && status == LineOk {
        AfterVisit(c);
        return LineOk;
      }
      AfterScan(c, status == LineOk);
      st := ParseLine();
      if st == LineOk { LineText(inBuffer[..], readIdx, c); }
    }

    /** The `switch` of `read_process`; None goes on with the loop. */
    method Dispatch(line: nat, ghost c: Conn) returns (r: Option<Outcome>, status: LineStatus)
      requires Valid() && c.Valid() && line == c.start && Req() == c.(start := c.checked)
      requires c.f.phase != Content ==> CString(inBuffer[line..]) == CString(c.data[line..])
      modifies `checkState, `meth, `enablePost, `version, `url, `host, `linger, `contentLength, `reqContentData
      modifies inBuffer
      ensures Valid()
      ensures if r == None then Visit(c) == Continue(Req(), status == LineOk) else Visit(c) == (r.value, Req())
      ensures r == None ==> status == if c.f.phase == Content then LineOpen else LineOk
      ensures r == None && c.f.phase == Content ==> checkState == Content
    {
      hide Continue, Request.ParseRequestLine, ParseHeader, TakeBody;
      r, status := None, LineOk;
      match checkState {
        case RequestLine =>
          var ok := ParseRequestLine(CString(inBuffer[line..]));
          if !ok { r := Some(Rejected); }
        case Header =>
          var done := ParseHeaders(CString(inBuffer[line..]));
          if done { r := Some(Complete); }
        case Content =>
          r := ParseContent(line);
          status := LineOpen;
      }
    }

    // ---- building the response ----

    /** `add_response` for formatted text: `vsnprintf` writes what fits, `_write_idx` moves only if all did. */
    method AddResponse(text: string) returns (ok: bool)
      requires Valid()
      modifies `writeIdx, outBuffer
      ensures Valid() && (ok, Resp()) == Response.AddResponse(old(Resp()), text)
      ensures var i, room := old(writeIdx), Response.WRITE_BUFFER - 1 - old(writeIdx);
        var stored := if |text| < room then |text| else room - 1;
        room > 0 ==> outBuffer[i..i + stored] == text[..stored] && outBuffer[i + stored] == NUL
    {
      if writeIdx >= Response.WRITE_BUFFER { return false; }
      var room := Response.WRITE_BUFFER - 1 - writeIdx;
      var stored := if |text| < room then |text| else room - 1;
      if room > 0 {
        forall k | 0 <= k < stored { outBuffer[writeIdx + k] := text[k]; }
        outBuffer[writeIdx + stored] := NUL;
      }
      assert outBuffer[..writeIdx] == old(outBuffer[..writeIdx]);
      if |text| >= room { return false; }
      assert outBuffer[..writeIdx + |text|] == outBuffer[..writeIdx] + text;
      writeIdx := writeIdx + |text|;
      return true;
    }

    method AddStatusLine(status: nat, title: string) returns (ok: bool)
      requires Valid() && status < 1000
      modifies `writeIdx, outBuffer
      ensures Valid() && (ok, Resp()) == Response.AddResponse(old(Resp()), Response.StatusLine(status, title))
    {
      ok := AddResponse("HTTP/1.1 " + Decimal(status) + " " + title + CRLF);
    }

    method AddHeaders(n: int) returns (ok: bool)
      requires Valid() && -0x8000_0000 <= n < 0x8000_0000
      modifies `writeIdx, outBuffer
      ensures Valid() && (ok, Resp()) == Response.AddHeaders(old(Resp()), n, linger)
    {
      ok := AddResponse("Content-Length:" + DecimalInt(n) + CRLF);
      if ok { ok := AddResponse("Connection:" + (if linger then "keep-alive" else "close") + CRLF); }
      if ok { ok := AddResponse(CRLF); }
    }

    method AddText(status: nat, title: string, body: string) returns (ok: bool)
      requires Valid() && status < 1000 && |body| < 80
      modifies `writeIdx, outBuffer, `iov0, `iovCount, `bytesNotSend
      ensures Valid() && (ok, Resp()) == Response.SendText(old(Resp()), status, title, body, linger)
    {
      var _ := AddStatusLine(status, title);
      var _ := AddHeaders(|body|);
      ok := AddResponse(body);
      if !ok { return; }
      iov0 := Response.Iov(Response.OutBuffer, 0, writeIdx);
      iovCount := 1;
      bytesNotSend := writeIdx;
    }

    method WriteProcess(code: HttpCode) returns (ok: bool)
      requires Valid()
      modifies `writeIdx, outBuffer, `iov0, `iov1, `iovCount, `bytesNotSend
      ensures Valid() && (ok, Resp()) == Response.WriteProcess(old(Resp()), code, fileSize, linger)
    {
      hide Response.SendText, Response.SendFile;
      match code {
        case INTERNAL_ERROR =>
          ok := AddText(500, "Internal Error", "There was an unusual problem serving the request file.\n");
        case BAD_REQUEST =>
          ok := AddText(404, "Not Found", "The requested file was not found on this server.\n");
        case FORBIDDEN_REQUEST =>
          ok := AddText(403, "Forbidden", "You do not have permission to get file form this server.\n");
        case FILE_REQUEST =>
          if fileSize != 0 {
            ok := AddFile();
          } else {
            ok := AddText(200, "OK", "<html><body></body></html>");
          }
        case _ =>
          ok := false;
      }
    }

    method AddFile() returns (ok: bool)
      requires Valid()
      modifies `writeIdx, outBuffer, `iov0, `iov1, `iovCount, `bytesNotSend
      ensures Valid() && (ok, Resp()) == Response.SendFile(old(Resp()), fileSize, linger)
    {
      hide Response.AddResponse, Response.AddHeaders, Response.StatusLine;
      var _ := AddStatusLine(200, "OK");
      var _ := AddHeaders(ToInt32(fileSize));
      iov0 := Response.Iov(Response.OutBuffer, 0, writeIdx);
      iov1 := Response.Iov(Response.FileMap, 0, fileSize);
      iovCount := 2;
      bytesNotSend := ToInt32(writeIdx + fileSize);
      ok := true;
    }

    // ---- sending ----

    /** `write`: how the call ended (`Failed` is the return value false) and what went out, in order. */
    method Write(script: seq<VectoredWrite.KernelReply>)
      returns (end: VectoredWrite.End, sent: seq<Response.Place>)
      requires Valid()
      modifies `bytesHaveSend, `bytesNotSend, `checkState, `meth, `contentLength, `linger, `enablePost
      modifies `startOffset, `checkedIdx, `readIdx, `writeIdx, `mysql, `ioState, `timerFlag, `improv
      modifies `iov0, `iov1, inBuffer, outBuffer
      ensures Valid()
      ensures var p := VectoredWrite.Write(VectoredWrite.AsWritten, old(Resp()), script);
        && end == p.end && sent == p.sent
        && (Req(), Resp()) == Serving.AfterWrite(old(Req()), p)
        && if p.end == VectoredWrite.Nothing || (p.end == VectoredWrite.Finished && old(linger)) then
             AtStart()
           else
             && mysql == old(mysql) && ioState == old(ioState)
             && timerFlag == old(timerFlag) && improv == old(improv)
    {
      hide VectoredWrite.Send;
      if bytesNotSend == 0 {
        Init();
        return VectoredWrite.Nothing, [];
      }
      VectoredWrite.SendNotIdle(VectoredWrite.AsWritten, Resp(), script);
      end, sent := SendLoop(script);
      if end == VectoredWrite.Finished && linger { Init(); }
    }

    method SendLoop(script: seq<VectoredWrite.KernelReply>)
      returns (end: VectoredWrite.End, sent: seq<Response.Place>)
      requires Valid()
      modifies `bytesHaveSend, `bytesNotSend, `iov0, `iov1
      ensures Valid()
      ensures var p := VectoredWrite.Send(VectoredWrite.AsWritten, old(Resp()), script);
        end == p.end && sent == p.sent && Resp() == p.o
    {
      hide VectoredWrite.Send, OneWrite;
      sent := [];
      ghost var whole := VectoredWrite.Send(VectoredWrite.AsWritten, Resp(), script);
      var i := 0;
      assert script[0..] == script;
      while i < |script|
        invariant 0 <= i <= |script| && Valid()
        invariant var q := VectoredWrite.Send(VectoredWrite.AsWritten, Resp(), script[i..]);
          whole.end == q.end && whole.o == q.o && whole.sent == sent + q.sent
      {
        SendStep(Resp(), script, i);
        ghost var before := sent;
        var stop, taken := Writev(script[i]);
        sent := sent + taken;
        if stop.Some? { return stop.value, sent; }
        i := i + 1;
        ghost var rest := VectoredWrite.Send(VectoredWrite.AsWritten, Resp(), script[i..]).sent;
        assert before + (taken + rest) == sent + rest;
      }
      SendStep(Resp(), script, i);
      end := VectoredWrite.Blocked;
    }

    /** One iteration: a `writev`, and the counters and vectors after it; None goes on with the loop. */
    method Writev(reply: VectoredWrite.KernelReply)
      returns (stop: Option<VectoredWrite.End>, taken: seq<Response.Place>)
      requires Valid()
      modifies `bytesHaveSend, `bytesNotSend, `iov0, `iov1
      ensures Valid() && (stop, Resp(), taken) == OneWrite(old(Resp()), reply)
    {
      var pending := iov0.Places() + if iovCount == 2 then iov1.Places() else [];
      assert pending == Response.Pending(Resp());
      var ret := if reply.room < |pending| then reply.room else |pending|;
      if ret > 0 {
        bytesHaveSend := bytesHaveSend + ret;
        bytesNotSend := bytesNotSend - ret;
        taken := pending[..ret];
        if bytesNotSend <= 0 { return Some(VectoredWrite.Finished), taken; }
        if bytesHaveSend >= iov0.len {
          if iovCount != 2 { return Some(VectoredWrite.AssertFails), taken; }
          var offset := bytesHaveSend - iov0.len;
          iov0 := iov0.(len := 0);
          iov1 := Response.Iov(Response.FileMap, offset, bytesNotSend);
        } else {
          iov0 := iov0.(base := iov0.base + bytesHaveSend, len := iov0.len - bytesHaveSend);
        }
        return None, taken;
      }
      match reply.errno {
        case Again => return Some(VectoredWrite.Blocked), [];
        case Interrupted => return None, [];
        case OtherError => return Some(VectoredWrite.Failed), [];
      }
    }

    /** What one reply of the kernel comes to: an end or none, the state after it, and the bytes taken. */
    static function OneWrite(o: Response.Out, reply: VectoredWrite.KernelReply):
      (Option<VectoredWrite.End>, Response.Out, seq<Response.Place>)
    {
      var pending := Response.Pending(o);
      var ret := if reply.room < |pending| then reply.room else |pending|;
      if ret > 0 then
        var o1 := o.(have := o.have + ret, notSend := o.notSend - ret);
        if o1.notSend <= 0 then (Some(VectoredWrite.Finished), o1, pending[..ret])
        else if !VectoredWrite.AssertHolds(VectoredWrite.AsWritten, o1) then
          (Some(VectoredWrite.AssertFails), o1, pending[..ret])
        else (None, VectoredWrite.AfterShort(VectoredWrite.AsWritten, o1), pending[..ret])
      else
        match reply.errno
        case Again => (Some(VectoredWrite.Blocked), o, [])
        case Interrupted => (None, o, [])
        case OtherError => (Some(VectoredWrite.Failed), o, [])
    }

    static lemma SendStep(o: Response.Out, script: seq<VectoredWrite.KernelReply>, i: nat)
      requires i <= |script|
      ensures var p := VectoredWrite.Send(VectoredWrite.AsWritten, o, script[i..]);
        if i == |script| then p == VectoredWrite.Progress(VectoredWrite.Blocked, o, [], 0)
        else
          var (stop, o1, taken) := OneWrite(o, script[i]);
          if stop.Some? then p.end == stop.value && p.o == o1 && p.sent == taken
          else
            var q := VectoredWrite.Send(VectoredWrite.AsWritten, o1, script[i + 1..]);
            p.end == q.end && p.o == q.o && p.sent == taken + q.sent
    {
      hide Response.Pending, VectoredWrite.AfterShort, VectoredWrite.AssertHolds, VectoredWrite.Send;
      VectoredWrite.OneReply(VectoredWrite.AsWritten, o, script[i..]);
      if i < |script| {
        assert script[i..][0] == script[i] && script[i..][1..] == script[i + 1..];
      }
    }

    // ---- one event ----

    /** `do_process`; None stands for undefined behaviour or an exception. */
    method DoProcess(site: Site, sqlOk: bool) returns (next: Option<Serving.Next>)
      requires Valid()
      modifies `checkedIdx, `startOffset, `checkState, `meth, `enablePost, `version, `url, `host
      modifies `linger, `contentLength, `reqContentData, `realFile, `users, `fileSize, inBuffer
      modifies `writeIdx, outBuffer, `iov0, `iov1, `iovCount, `bytesNotSend
      ensures Valid()
      ensures match Serving.DoProcess(old(Req()), old(Resp()), old(users), site, sqlOk)
        case Died => next == None
        case Done(n, c, o, u) => next == Some(n) && Req() == c && Resp() == o && users == u
    {
      hide Request.ReadProcess, Routing.DoRespone, Serving.DoProcess, Serving.Respond, Resp;
      Serving.ProcessedAs(Req(), Resp(), users, site, sqlOk);
      var answer := ReadProcess(site, sqlOk);
      if answer == Code(NO_REQUEST) { return Some(Serving.WantsInput); }
      if !answer.Code? { return None; }
      var n := Respond(answer.code);
      return Some(n);
    }

    /** The end of `do_process`. */
    method Respond(code: HttpCode) returns (next: Serving.Next)
      requires Valid()
      modifies `writeIdx, outBuffer, `iov0, `iov1, `iovCount, `bytesNotSend
      ensures Valid() && Req() == old(Req())
      ensures var size := if code == FILE_REQUEST then fileSize else 0;
        Serving.Respond(old(Req()), old(Resp()), users, code, size) == Serving.Done(next, Req(), Resp(), users)
    {
      hide Response.WriteProcess;
      Serving.OnlyFilesHaveSize(Resp(), code, fileSize, linger);
      var ok := WriteProcess(code);
      return if ok then Serving.WantsOutput else Serving.Closed;
    }
  }

  // ---- one iteration of the loop of `read_process` ----

  /** The state just after a line has been scanned, seen from `Continue`: what the `switch` goes on to do. */
  function Visit(c: Conn): (Outcome, Conn)
    requires c.Valid()
  {
    var c1 := c.(start := c.checked);
    match c.f.phase
    case RequestLine =>
      var (ok, f) := Request.ParseRequestLine(c.f, CString(c.data[c.start..]));
      if ok then Continue(c1.(f := f), true) else (Rejected, c1.(f := f))
    case Header =>
      var (done, f) := ParseHeader(c.f, CString(c.data[c.start..]));
      if done then (Complete, c1.(f := f)) else Continue(c1.(f := f), true)
    case Content =>
      if SumOverflows(c1) then (Overrun, c1)
      else if BodyArrived(c1) then TakeBody(c1, c.start)
      else Continue(c1, false)
  }

  lemma AfterScan(c: Conn, ok: bool)
    requires c.Valid() && !(c.f.phase == Content && ok)
    ensures var (st, c1) := Request.ParseLine(c);
      Continue(c, ok) == if st != LineOk then (Waiting, c1) else Visit(c1)
  {
    var (st, c1) := Request.ParseLine(c);
    if c.f.phase == Content {
      if st == LineOk {
        AfterVisit(c1);
        assert Body(c, false) == Body(c1, true);
      }
    } else {
      AfterHeadScan(c);
      var (end, c3) := HeadStep(c);
      if end == None {
        assert Head(c) == Head(c3);
        assert Continue(c, ok) == Continue(c3, true);
      }
    }
  }

  lemma AfterHeadScan(c: Conn)
    requires c.Valid() && c.f.phase != Content
    ensures var (st, c1) := Request.ParseLine(c);
      var (end, c3) := HeadStep(c);
      if st != LineOk then end == Some(Waiting) && c3 == c1
      else Visit(c1) == if end == None then Continue(c3, true) else (end.value, c3)
  {
    hide Continue, Request.ParseLine, Request.ParseRequestLine, ParseHeader;
  }

  lemma AfterVisit(c: Conn)
    requires c.Valid()
    ensures c.f.phase == Content ==> Continue(c, true) == Visit(c)
  {
  }

  /** The C string at the start of the line just scanned, in the buffer and in the bytes received. */
  lemma LineText(buffer: string, read: nat, c: Conn)
    requires c.Valid() && Request.ParseLine(c).0 == LineOk
    requires |buffer| == READ_BUFFER && read == |c.data| && Request.ParseLine(c).1.data == buffer[..read]
    requires forall k :: read <= k < READ_BUFFER ==> buffer[k] == NUL
    ensures CString(buffer[c.start..]) == CString(buffer[..read][c.start..])
  {
    var c1 := Request.ParseLine(c).1;
    var text := buffer[..read][c.start..];
    assert text[c1.checked - 2 - c.start] == NUL;
    assert buffer[c.start..] == text + buffer[read..];
    UntilIgnoresTail(text, buffer[read..], NUL);
  }
}
