/**
 * http_conn: one client connection with its fixed read buffer and parser
 * indices, updated in place. Each method is proved to do what the
 * matching function of module HttpParser describes.
 */
module HttpConnection {
  import opened CString
  import opened HttpParser

  /** The live-connection counter m_user_count, shared by all connections. */
  class Users {
    var count: int

    constructor ()
      ensures count == 0
    {
      count := 0;
    }
  }

  class HttpConn {
    var sockfd: int
    const buf: array<byte>
    var readIdx: nat
    var checked: nat
    var startLine: nat
    var checkState: CheckState
    var requestMethod: Method
    /** The storage the text pointer from get_line refers to; url and version point into it. */
    var line: seq<byte>
    var url: Ptr
    var version: Ptr
    var linger: bool

    /** The buffer has its capacity and the indices are in order. */
    predicate Valid()
      reads this
    {
      buf.Length == READ_BUFFER_SIZE && startLine <= checked <= readIdx <= READ_BUFFER_SIZE
    }

    /** The parser's state as a value. */
    function View(): (c: ConnState)
      reads this, buf
      ensures Valid() ==> WellFormed(c)
    {
      ConnState(buf[..], readIdx, checked, startLine, checkState, requestMethod, line, url, version, linger)
    }

    /** A slot of the connection table; its contents only matter after Open. */
    constructor ()
      ensures Valid() && fresh(buf)
    {
      buf := new byte[READ_BUFFER_SIZE];
      sockfd := -1;
      readIdx, checked, startLine := 0, 0, 0;
      checkState, requestMethod := CheckRequestLine, Get;
      line, url, version, linger := [], Null, Null, false;
    }

    /** init(sockfd, addr): take over the socket, count the user, reset the parser. */
    method Open(fd: int, users: Users)
      requires buf.Length == READ_BUFFER_SIZE
      modifies this, buf, users
      ensures sockfd == fd && users.count == old(users.count) + 1
      ensures Valid() && View() == Reset(old(View()))
    {
      sockfd := fd;
      users.count := users.count + 1;
      Init();
    }

    /** init(): reset the request machine for a new request and zero the buffer. */
    method Init()
      requires buf.Length == READ_BUFFER_SIZE
      modifies this, buf
      ensures sockfd == old(sockfd)
      ensures Valid() && View() == Reset(old(View()))
    {
      checkState := CheckRequestLine;
      checked := 0;
      startLine := 0;
      readIdx := 0;
      requestMethod := Get;
      url := Null;
      version := Null;
      linger := false;
      forall j | 0 <= j < buf.Length {
        buf[j] := NUL;
      }
      assert buf[..] == seq(READ_BUFFER_SIZE, _ => NUL);
    }

    /** close_conn(): only an open socket is closed and uncounted, so closing twice counts once. */
    method CloseConn(users: Users)
      modifies this`sockfd, users
      ensures sockfd == -1
      ensures users.count == if old(sockfd) != -1 then old(users.count) - 1 else old(users.count)
    {
      if sockfd != -1 {
        sockfd := -1;
        users.count := users.count - 1;
      }
    }

    /** read(): drain the socket into the buffer behind the read index until recv would block. */
    method Read(recv: (nat, nat) -> RecvOutcome) returns (ok: bool)
      requires Valid() && RecvContract(recv)
      modifies this`readIdx, buf
      ensures Valid()
      ensures ReadBuffer(recv, old(readIdx), old(buf[..])) == ReadResult(ok, readIdx, buf[..])
    {
      if readIdx >= READ_BUFFER_SIZE {
        return false;
      }
      ghost var result := ReadBuffer(recv, readIdx, buf[..]);
      assert result == Receive(recv, 0, readIdx, buf[..]);
      var k := 0;
      while true
        invariant Valid() && old(readIdx) <= readIdx
        invariant Receive(recv, k, readIdx, buf[..]) == result
        decreases READ_BUFFER_SIZE - readIdx
      {
        match recv(k, READ_BUFFER_SIZE - readIdx) {
          case WouldBlock =>
            return true;
          case Failed =>
            return false;
          case PeerClosed =>
            return false;
          case Received(data) =>
            ghost var before := buf[..];
            Store(data);
            assert Receive(recv, k, readIdx, before) == Receive(recv, k + 1, readIdx + |data|, buf[..]);
            readIdx := readIdx + |data|;
            k := k + 1;
        }
      }
    }

    /** The bytes one recv call delivers land in the buffer at the read index. */
    method Store(data: seq<byte>)
      requires Valid() && readIdx + |data| <= READ_BUFFER_SIZE
      modifies buf
      ensures buf[..] == old(buf[..])[..readIdx] + data + old(buf[..])[readIdx + |data|..]
    {
      forall j | 0 <= j < |data| {
        buf[readIdx + j] := data[j];
      }
      assert buf[..] == old(buf[..])[..readIdx] + data + old(buf[..])[readIdx + |data|..];
    }

    /** parse_line(): scan for the end of the current line from the checked index. */
    method ParseLine() returns (status: LineStatus)
      requires Valid()
      modifies this`checked, buf
      ensures Valid()
      ensures ScanLine(old(buf[..]), old(checked), readIdx) == LineResult(status, checked, buf[..])
    {
      while checked < readIdx
        invariant Valid() && old(checked) <= checked
        invariant buf[..] == old(buf[..])
        invariant ScanLine(buf[..], checked, readIdx) == ScanLine(old(buf[..]), old(checked), readIdx)
        decreases readIdx - checked
      {
        var temp := buf[checked];
        if temp == CR {
          if checked + 1 == readIdx {
            return LineOpen;
          } else if buf[checked + 1] == LF {
            buf[checked] := NUL;
            checked := checked + 1;
            buf[checked] := NUL;
            checked := checked + 1;
            return LineOk;
          }
          return LineBad;
        } else if temp == LF {
          if checked > 1 && buf[checked - 1] == CR {
            buf[checked - 1] := NUL;
            buf[checked] := NUL;
            checked := checked + 1;
            return LineOk;
          }
          return LineBad;
        }
        checked := checked + 1;
      }
      return LineOpen;
    }

    /**
     * parse_request_line(text), on the text in `line`: split at blanks, check
     * method, version and target, and move to the header state on success.
     */
    method ParseRequestLine() returns (ret: HttpCode)
      requires Strpbrk(line, 0, BLANKS).Some?
      modifies this`line, this`url, this`version, this`checkState, this`requestMethod
      ensures requestMethod == Get
      ensures RequestLine(old(line), old(version), old(checkState)) ==
        RequestLineResult(ret, line, url, version, checkState)
    {
      var u := Strpbrk(line, 0, BLANKS).value;
      line := line[u := NUL];
      url := At(u + 1);
      if !CaseEq(CStr(line, 0), GET_LITERAL) {
        return BadRequest;
      }
      requestMethod := Get;
      var found := Strpbrk(line, u + 1, BLANKS);
      if found.None? {
        version := Null;
        return BadRequest;
      }
      var v := found.value;
      line := line[v := NUL];
      version := At(v + 1);
      if !CaseEq(CStr(line, v + 1), VERSION_LITERAL) {
        return BadRequest;
      }
      if CasePrefix(CStr(line, u + 1), SCHEME_LITERAL) {
        var slash := Strpbrk(line, u + 8, {SLASH});
        url := if slash.None? then Null else At(slash.value);
      }
      assert url == TargetPointer(line, u);
      if url.Null? || line[url.off] != SLASH {
        return BadRequest;
      }
      checkState := CheckHeader;
      return NoRequest;
    }

    /** process_read(): extract lines and hand each to the handler of the current state. */
    method ProcessRead(h: Handlers) returns (ret: HttpCode)
      requires Valid()
      requires ReadLoop(View(), LineOk, h).Done?
      modifies this, buf
      ensures Valid() && sockfd == old(sockfd)
      ensures ReadLoop(old(View()), LineOk, h) == Done(ret, View())
    {
      var lineStatus := LineOk;
      while true
        invariant Valid() && sockfd == old(sockfd)
        invariant ReadLoop(View(), lineStatus, h) == ReadLoop(old(View()), LineOk, h)
        decreases Measure(View(), lineStatus)
      {
        var finished, code, next := LoopBody(h, lineStatus);
        if finished {
          return code;
        }
        lineStatus := next;
      }
    }

    /** One pass of the while loop of process_read. */
    method LoopBody(h: Handlers, lineStatus: LineStatus) returns (finished: bool, ret: HttpCode, next: LineStatus)
      requires Valid()
      requires LoopPass(View(), lineStatus, h) != Finished(NullDeref)
      modifies this, buf
      ensures Valid() && sockfd == old(sockfd)
      ensures LoopPass(old(View()), lineStatus, h) ==
        if finished then Finished(Done(ret, View())) else Continue(View(), next)
    {
      ghost var c0 := View();
      if checkState == CheckContent && lineStatus == LineOk {
        assert LoopPass(c0, lineStatus, h) == HttpParser.Dispatch(c0, lineStatus, h);
        finished, ret, next := Dispatch(h, lineStatus);
      } else {
        ghost var scan := ScanLine(c0.buf, c0.checked, c0.readIdx);
        next := ParseLine();
        assert View() == c0.(buf := scan.buf, checked := scan.checked);
        if next != LineOk {
          return true, NoRequest, next;
        }
        assert LoopPass(c0, lineStatus, h) == HttpParser.Dispatch(View(), LineOk, h);
        finished, ret, next := Dispatch(h, next);
      }
    }

    /** The switch on the main state, once a line is available. */
    method Dispatch(h: Handlers, lineStatus: LineStatus) returns (finished: bool, ret: HttpCode, next: LineStatus)
      requires Valid()
      requires HttpParser.Dispatch(View(), lineStatus, h) != Finished(NullDeref)
      modifies this`line, this`url, this`version, this`checkState, this`requestMethod
      ensures Valid()
      ensures HttpParser.Dispatch(old(View()), lineStatus, h) ==
        if finished then Finished(Done(ret, View())) else Continue(View(), next)
    {
      next := lineStatus;
      line := h.getLine(View());
      ghost var c2 := View();
      match checkState {
        case CheckRequestLine =>
          ret := ParseRequestLine();
          assert View() == c2.(line := line, url := url, version := version, state := checkState);
          return ret == BadRequest, ret, next;
        case CheckHeader =>
          ret := h.parseHeaders(line);
          if ret == BadRequest {
            return true, BadRequest, next;
          } else if ret == GetRequest {
            ret := h.doRequest(View());
            return true, ret, next;
          }
          // no break: the header case runs on into the content case
          ret := h.parseContent(line);
          if ret == GetRequest {
            ret := h.doRequest(View());
            return true, ret, next;
          }
          return false, ret, LineOpen;
        case CheckContent =>
          ret := h.parseContent(line);
          if ret == GetRequest {
            ret := h.doRequest(View());
            return true, ret, next;
          }
          return false, ret, LineOpen;
      }
    }

    /** process(): parse, and ask for the socket to be re-armed for input exactly when the request is incomplete. */
    method Process(h: Handlers) returns (rearm: bool)
      requires Valid()
      requires ReadLoop(View(), LineOk, h).Done?
      modifies this, buf
      ensures Valid() && sockfd == old(sockfd)
      ensures var r := ReadLoop(old(View()), LineOk, h);
        r.Done? && View() == r.conn && (rearm <==> r.code == NoRequest)
    {
      var readRet := ProcessRead(h);
      rearm := readRet == NoRequest;
    }
  }
}
