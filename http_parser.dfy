/**
 * The per-connection HTTP request parser of http_conn, as functions over a
 * value snapshot of the connection: the line extractor (ScanLine), the
 * request-line splitter (RequestLine), the driver loop (ReadLoop), the
 * per-request reset (Reset) and the buffer accounting of read() (ReadBuffer).
 * The class HttpConn in module HttpConnection runs the same steps in place
 * and is proved to agree with these functions.
 */
module HttpParser {
  import opened Wrappers
  import opened CString

  /** Capacity of the per-connection read buffer. */
  const READ_BUFFER_SIZE: nat := 2048

  /** The bytes strpbrk(…, " \t") looks for. */
  const BLANKS: set<byte> := {SP, TAB}

  /** Main state of the request machine (CHECK_STATE_*). */
  datatype CheckState = CheckRequestLine | CheckHeader | CheckContent

  /** Result of extracting one line (LINE_*). */
  datatype LineStatus = LineOk | LineBad | LineOpen

  /** Result codes of the parser (the HTTP_CODE values the parser names). */
  datatype HttpCode = NoRequest | GetRequest | BadRequest | InternalError

  /** Request method; GET is the only one the parser recognises. */
  datatype Method = Get

  /** A char* into the line text: null, or an offset into `line`. */
  datatype Ptr = Null | At(off: nat)

  /**
   * The parser's part of a connection. `line` is the text the abstract
   * get_line hands out; `url` and `version` point into it.
   */
  datatype ConnState = ConnState(
    buf: seq<byte>,
    readIdx: nat,
    checked: nat,
    startLine: nat,
    state: CheckState,
    requestMethod: Method,
    line: seq<byte>,
    url: Ptr,
    version: Ptr,
    linger: bool)

  /** The index invariant of a connection: 0 <= start line <= checked <= read index <= capacity. */
  predicate WellFormed(c: ConnState)
  {
    |c.buf| == READ_BUFFER_SIZE && c.startLine <= c.checked <= c.readIdx <= READ_BUFFER_SIZE
  }

  /**
   * The members the parser calls but whose bodies are empty or absent:
   * get_line, parse_headers, parse_content and do_request, left uninterpreted.
   */
  datatype Handlers = Handlers(
    getLine: ConnState -> seq<byte>,
    parseHeaders: seq<byte> -> HttpCode,
    parseContent: seq<byte> -> HttpCode,
    doRequest: ConnState -> HttpCode)

  // ---------------------------------------------------------------------
  // init(): the per-request reset

  /** What init() leaves: request-line state, all indices 0, GET, null pointers, no linger, a zeroed buffer. */
  function Reset(c: ConnState): (r: ConnState)
    ensures WellFormed(r)
  {
    c.(buf := seq(READ_BUFFER_SIZE, _ => NUL), readIdx := 0, checked := 0, startLine := 0,
       state := CheckRequestLine, requestMethod := Get, url := Null, version := Null, linger := false)
  }

  // ---------------------------------------------------------------------
  // parse_line(): the line extractor

  datatype LineResult = LineResult(status: LineStatus, checked: nat, buf: seq<byte>)

  /**
   * parse_line, scanning b from index i while i < n (the read index).
   * Only a complete line changes the buffer, and then only its two
   * terminator bytes, which become NULs just before the new index.
   */
  function ScanLine(b: seq<byte>, i: nat, n: nat): (r: LineResult)
    requires n <= |b|
    ensures |r.buf| == |b|
    ensures i <= n ==> i <= r.checked <= n
    ensures r.status == LineOk ==> i < r.checked <= n && 2 <= r.checked
    ensures r.status == LineOk ==> r.buf == b[r.checked - 2 := NUL][r.checked - 1 := NUL]
    ensures r.status != LineOk ==> r.buf == b
    decreases n - i
  {
    if i >= n then LineResult(LineOpen, i, b)
    else if b[i] == CR then
      if i + 1 == n then LineResult(LineOpen, i, b)
      else if b[i + 1] == LF then LineResult(LineOk, i + 2, b[i := NUL][i + 1 := NUL])
      else LineResult(LineBad, i, b)
    else if b[i] == LF then
      if i > 1 && b[i - 1] == CR then LineResult(LineOk, i + 1, b[i - 1 := NUL][i := NUL])
      else LineResult(LineBad, i, b)
    else ScanLine(b, i + 1, n)
  }

  /** No CR and no LF in b[i..k]. */
  ghost predicate NoTerminator(b: seq<byte>, i: nat, k: nat)
    requires k <= |b|
  {
    forall j :: i <= j < k ==> b[j] != CR && b[j] != LF
  }

  /** Bytes that are neither CR nor LF are skipped: the scan from i behaves as the scan from k. */
  lemma {:induction false} ScanSkips(b: seq<byte>, i: nat, k: nat, n: nat)
    requires i <= k <= n <= |b|
    requires NoTerminator(b, i, k)
    ensures ScanLine(b, i, n) == ScanLine(b, k, n)
    decreases k - i
  {
    if i < k {
      ScanSkips(b, i + 1, k, n);
    }
  }

  /** No CR or LF in [i, n): LINE_OPEN with the index at the read index and the buffer unchanged. */
  lemma ScanNoTerminator(b: seq<byte>, i: nat, n: nat)
    requires i <= n <= |b|
    requires NoTerminator(b, i, n)
    ensures ScanLine(b, i, n) == LineResult(LineOpen, n, b)
  {
    ScanSkips(b, i, n, n);
  }

  /** A CR as the last available byte: LINE_OPEN, the index left on the CR, no byte changed. */
  lemma ScanCrAtEnd(b: seq<byte>, i: nat, n: nat)
    requires i < n <= |b|
    requires NoTerminator(b, i, n - 1) && b[n - 1] == CR
    ensures ScanLine(b, i, n) == LineResult(LineOpen, n - 1, b)
  {
    ScanSkips(b, i, n - 1, n);
  }

  /** The first terminator is CR followed by LF: LINE_OK, both bytes NUL, the index just past the LF. */
  lemma ScanCrLf(b: seq<byte>, i: nat, k: nat, n: nat)
    requires i <= k && k + 1 < n <= |b|
    requires NoTerminator(b, i, k) && b[k] == CR && b[k + 1] == LF
    ensures ScanLine(b, i, n) == LineResult(LineOk, k + 2, b[k := NUL][k + 1 := NUL])
  {
    ScanSkips(b, i, k, n);
  }

  /** The first terminator is a CR followed by anything but LF: LINE_BAD, the index on the CR. */
  lemma ScanCrWithoutLf(b: seq<byte>, i: nat, k: nat, n: nat)
    requires i <= k && k + 1 < n <= |b|
    requires NoTerminator(b, i, k) && b[k] == CR && b[k + 1] != LF
    ensures ScanLine(b, i, n) == LineResult(LineBad, k, b)
  {
    ScanSkips(b, i, k, n);
  }

  /** The first terminator is an LF at index 0 or 1, or one not preceded by CR: LINE_BAD, the index on the LF. */
  lemma ScanBareLf(b: seq<byte>, i: nat, k: nat, n: nat)
    requires i <= k < n <= |b|
    requires NoTerminator(b, i, k) && b[k] == LF
    requires !(k > 1 && b[k - 1] == CR)
    ensures ScanLine(b, i, n) == LineResult(LineBad, k, b)
  {
    ScanSkips(b, i, k, n);
  }

  /**
   * An LF the scan starts on, after index 1 and preceded by CR: LINE_OK, CR
   * and LF both NUL, the index just past the LF. (When the scan starts
   * earlier, a preceding CR is found first, so only the start can be such an LF.)
   */
  lemma ScanLfAfterCr(b: seq<byte>, k: nat, n: nat)
    requires 1 < k < n <= |b|
    requires b[k] == LF && b[k - 1] == CR
    ensures ScanLine(b, k, n) == LineResult(LineOk, k + 1, b[k - 1 := NUL][k := NUL])
  {
  }

  /** An incomplete scan stops at the read index or on a CR that is the last byte, having seen no terminator before. */
  lemma {:induction false} ScanOpenStops(b: seq<byte>, i: nat, n: nat)
    requires i <= n <= |b|
    requires ScanLine(b, i, n).status == LineOpen
    ensures var j := ScanLine(b, i, n).checked;
      NoTerminator(b, i, j) && (j == n || (j == n - 1 && b[j] == CR))
    decreases n - i
  {
    if i < n && b[i] != CR && b[i] != LF {
      ScanOpenStops(b, i + 1, n);
    }
  }

  /**
   * Partial reads do not change line extraction: after an incomplete scan,
   * once more bytes have arrived behind the old ones, resuming at the index
   * the scan stopped on gives the same result as scanning again from the start.
   */
  lemma ScanResumes(b: seq<byte>, b': seq<byte>, i: nat, n: nat, n': nat)
    requires i <= n <= n' <= |b'| && n <= |b|
    requires b[..n] == b'[..n]
    requires ScanLine(b, i, n).status == LineOpen
    ensures ScanLine(b', i, n') == ScanLine(b', ScanLine(b, i, n).checked, n')
  {
    var j := ScanLine(b, i, n).checked;
    ScanOpenStops(b, i, n);
    forall m | i <= m < j ensures b'[m] != CR && b'[m] != LF {
      assert b'[m] == b'[..n][m] == b[..n][m] == b[m];
    }
    ScanSkips(b', i, j, n');
  }

  /** A CR left as the last byte is re-examined: once an LF arrives after it, the next scan completes the line. */
  lemma ScanCrThenLf(b: seq<byte>, i: nat, n: nat)
    requires i < n < |b|
    requires ScanLine(b, i, n) == LineResult(LineOpen, n - 1, b) && b[n - 1] == CR
    ensures ScanLine(b[n := LF], n - 1, n + 1) == LineResult(LineOk, n + 1, b[n := LF][n - 1 := NUL][n := NUL])
  {
  }

  /**
   * A failed or incomplete scan is stable: scanning again from where it
   * stopped, with no new bytes, gives the same result.
   */
  lemma ScanStable(b: seq<byte>, i: nat, n: nat)
    requires i <= n <= |b|
    requires ScanLine(b, i, n).status != LineOk
    ensures var r := ScanLine(b, i, n); ScanLine(b, r.checked, n) == r
  {
    var r := ScanLine(b, i, n);
    if r.status == LineOpen {
      ScanOpenStops(b, i, n);
    } else {
      ScanBadStops(b, i, n);
    }
    ScanSkips(b, i, r.checked, n);
  }

  /** A malformed scan stops on its first CR or LF. */
  lemma {:induction false} ScanBadStops(b: seq<byte>, i: nat, n: nat)
    requires i <= n <= |b|
    requires ScanLine(b, i, n).status == LineBad
    ensures var j := ScanLine(b, i, n).checked;
      j < n && NoTerminator(b, i, j) && (b[j] == CR || b[j] == LF)
    decreases n - i
  {
    if i < n && b[i] != CR && b[i] != LF {
      ScanBadStops(b, i + 1, n);
    }
  }

  // ---------------------------------------------------------------------
  // parse_request_line(text)

  datatype RequestLineResult = RequestLineResult(code: HttpCode, text: seq<byte>, url: Ptr, version: Ptr, state: CheckState)

  /**
   * parse_request_line on the text t, with the version pointer and main state
   * it finds. It writes NULs over the two blanks it splits at and sets the
   * url and version pointers even on the paths that then fail. The
   * caller must guarantee a blank in t: without one, strpbrk returns NULL
   * and the source writes through it.
   */
  function RequestLine(t: seq<byte>, version0: Ptr, state0: CheckState): (r: RequestLineResult)
    requires Strpbrk(t, 0, BLANKS).Some?
    ensures r.code == NoRequest || r.code == BadRequest
    ensures r.code == NoRequest ==> r.state == CheckHeader && r.url.At? && r.version.At?
    ensures r.code == BadRequest ==> r.state == state0
    ensures |r.text| == |t|
  {
    var u := Strpbrk(t, 0, BLANKS).value;
    var t1 := t[u := NUL];
    if !CaseEq(CStr(t1, 0), GET_LITERAL) then
      RequestLineResult(BadRequest, t1, At(u + 1), version0, state0)
    else
      match Strpbrk(t1, u + 1, BLANKS)
      case None =>
        RequestLineResult(BadRequest, t1, At(u + 1), Null, state0)
      case Some(v) => AfterVersionBlank(t1[v := NUL], u, v, state0)
  }

  /**
   * The rest of parse_request_line once the second blank, at v, has become
   * NUL in t: the version check, the scheme skip and the '/' check.
   */
  function AfterVersionBlank(t: seq<byte>, u: nat, v: nat, state0: CheckState): (r: RequestLineResult)
    requires u < v < |t|
    ensures r.text == t && r.version == At(v + 1)
    ensures r.code == NoRequest <==>
      CaseEq(CStr(t, v + 1), VERSION_LITERAL) && TargetPointer(t, u).At? && t[TargetPointer(t, u).off] == SLASH
    ensures r.code == NoRequest ==> r.url == TargetPointer(t, u) && r.state == CheckHeader
    ensures r.code != NoRequest ==> r.code == BadRequest && r.state == state0
  {
    if !CaseEq(CStr(t, v + 1), VERSION_LITERAL) then
      RequestLineResult(BadRequest, t, At(u + 1), At(v + 1), state0)
    else
      var url := TargetPointer(t, u);
      if url.Null? || t[url.off] != SLASH then
        RequestLineResult(BadRequest, t, url, At(v + 1), state0)
      else
        RequestLineResult(NoRequest, t, url, At(v + 1), CheckHeader)
  }

  /**
   * Where m_url ends up once the target's C string starts at t[u + 1]: past
   * "http://" at the first '/' (or NULL when there is none), else at the target.
   */
  function TargetPointer(t: seq<byte>, u: nat): (url: Ptr)
    requires u < |t|
    ensures url.Null? || url == At(u + 1) || (u + 8 <= url.off < |t| && t[url.off] == SLASH)
  {
    if CasePrefix(CStr(t, u + 1), SCHEME_LITERAL) then
      (match Strpbrk(t, u + 8, {SLASH}) case None => Null case Some(p) => At(p))
    else At(u + 1)
  }

  /** The target check: after an optional case-insensitive "http://", a '/' must follow (later, or at once). */
  predicate TargetOk(target: seq<byte>)
  {
    if CasePrefix(target, SCHEME_LITERAL) then SLASH in target[7..]
    else |target| > 0 && target[0] == SLASH
  }

  /**
   * The request line t read as its tokens: the method before the first
   * blank, the target up to the next blank, and the version after it up to
   * the string's end.
   */
  predicate AcceptedRequestLine(t: seq<byte>)
    requires Strpbrk(t, 0, BLANKS).Some?
  {
    var u := Strpbrk(t, 0, BLANKS).value;
    && CaseEq(t[..u], GET_LITERAL)
    && Strpbrk(t, u + 1, BLANKS).Some?
    && var v := Strpbrk(t, u + 1, BLANKS).value;
       && CaseEq(CStr(t, v + 1), VERSION_LITERAL)
       && TargetOk(t[u + 1..v])
  }

  /**
   * parse_request_line succeeds exactly when the method is GET, a version
   * follows and equals "HTTP/1,1", and the target passes the '/' check, all
   * up to ASCII case.
   */
  lemma RequestLineAccepts(t: seq<byte>, version0: Ptr, state0: CheckState)
    requires Strpbrk(t, 0, BLANKS).Some?
    ensures RequestLine(t, version0, state0).code == NoRequest <==> AcceptedRequestLine(t)
  {
    var u := Strpbrk(t, 0, BLANKS).value;
    var t1 := t[u := NUL];
    MethodToken(t, u);
    assert CStr(t1, 0) == t[..u];
    StrpbrkSuffix(t1, t, u + 1, BLANKS) by { assert t1[u + 1..] == t[u + 1..]; }
    if CaseEq(t[..u], GET_LITERAL) && Strpbrk(t, u + 1, BLANKS).Some? {
      var v := Strpbrk(t, u + 1, BLANKS).value;
      AfterVersionSplit(t, u, v, version0, state0);
    }
  }

  /** The part of the acceptance proof after both blanks have been found. */
  lemma AfterVersionSplit(t: seq<byte>, u: nat, v: nat, version0: Ptr, state0: CheckState)
    requires Strpbrk(t, 0, BLANKS) == Some(u)
    requires Strpbrk(t, u + 1, BLANKS) == Some(v)
    requires CaseEq(t[..u], GET_LITERAL)
    requires CStr(t[u := NUL], 0) == t[..u]
    requires Strpbrk(t[u := NUL], u + 1, BLANKS) == Some(v)
    ensures RequestLine(t, version0, state0).code == NoRequest <==>
      CaseEq(CStr(t, v + 1), VERSION_LITERAL) && TargetOk(t[u + 1..v])
  {
    var t2 := t[u := NUL][v := NUL];
    assert RequestLine(t, version0, state0) == AfterVersionBlank(t2, u, v, state0);
    CStrSuffix(t2, t, v + 1) by { assert t2[v + 1..] == t[v + 1..]; }
    TargetPointerOk(t, u, v);
  }

  /** The url check of parse_request_line passes exactly when the target token passes TargetOk. */
  lemma TargetPointerOk(t: seq<byte>, u: nat, v: nat)
    requires Strpbrk(t, 0, BLANKS) == Some(u)
    requires Strpbrk(t, u + 1, BLANKS) == Some(v)
    ensures var t2 := t[u := NUL][v := NUL]; var url := TargetPointer(t2, u);
      url.At? && t2[url.off] == SLASH <==> TargetOk(t[u + 1..v])
  {
    var t2 := t[u := NUL][v := NUL];
    TargetToken(t, u, v);
    var target := t[u + 1..v];
    if CasePrefix(target, SCHEME_LITERAL) {
      SchemeSlash(t, u, v);
    } else if u + 1 < v {
      assert t2[u + 1] == target[0];
    }
  }

  /** After the first blank becomes NUL, the C string at 0 is the method token. */
  lemma MethodToken(t: seq<byte>, u: nat)
    requires Strpbrk(t, 0, BLANKS) == Some(u)
    ensures CStr(t[u := NUL], 0) == t[..u]
  {
    CEndAt(t[u := NUL], 0, u);
  }

  /** After both blanks become NUL, the C string just past the first is the target token. */
  lemma TargetToken(t: seq<byte>, u: nat, v: nat)
    requires Strpbrk(t, 0, BLANKS) == Some(u)
    requires Strpbrk(t, u + 1, BLANKS) == Some(v)
    ensures CStr(t[u := NUL][v := NUL], u + 1) == t[u + 1..v]
  {
    var t2 := t[u := NUL][v := NUL];
    CEndAt(t2, u + 1, v);
  }

  /** With an "http://" target, strchr for '/' from 7 bytes in finds a slash exactly when the target has one there. */
  lemma SchemeSlash(t: seq<byte>, u: nat, v: nat)
    requires Strpbrk(t, 0, BLANKS) == Some(u)
    requires Strpbrk(t, u + 1, BLANKS) == Some(v)
    requires u + 8 <= v
    ensures var t2 := t[u := NUL][v := NUL];
      (Strpbrk(t2, u + 8, {SLASH}).Some? <==> SLASH in t[u + 1..v][7..])
      && (Strpbrk(t2, u + 8, {SLASH}).Some? ==> t2[Strpbrk(t2, u + 8, {SLASH}).value] == SLASH)
  {
    var t2 := t[u := NUL][v := NUL];
    CEndAt(t2, u + 8, v);
    assert t[u + 1..v][7..] == t[u + 8..v];
    match Strpbrk(t2, u + 8, {SLASH})
    case Some(p) =>
      assert t[u + 8..v][p - (u + 8)] == t2[p];
    case None =>
      var rest := t[u + 8..v];
      forall k | 0 <= k < |rest| ensures rest[k] != SLASH {
        assert rest[k] == t2[u + 8 + k];
      }
  }

  /** A line whose target has no further blank (no version) is rejected. */
  lemma RequestLineNeedsVersion(t: seq<byte>, version0: Ptr, state0: CheckState)
    requires Strpbrk(t, 0, BLANKS).Some?
    requires Strpbrk(t, Strpbrk(t, 0, BLANKS).value + 1, BLANKS).None?
    ensures RequestLine(t, version0, state0).code == BadRequest
  {
    RequestLineAccepts(t, version0, state0);
  }

  /**
   * Where m_url points once a request line is accepted, with u and v its two
   * blanks: at a '/' inside the target; at the target's start unless the
   * target begins with "http://", when it is the first '/' after the scheme;
   * and its C string runs to the second blank.
   */
  lemma RequestLineUrl(t: seq<byte>, version0: Ptr, state0: CheckState)
    requires Strpbrk(t, 0, BLANKS).Some?
    requires RequestLine(t, version0, state0).code == NoRequest
    ensures var u := Strpbrk(t, 0, BLANKS).value;
      Strpbrk(t, u + 1, BLANKS).Some? &&
      var v := Strpbrk(t, u + 1, BLANKS).value;
      var r := RequestLine(t, version0, state0);
      && u < r.url.off < v
      && t[r.url.off] == SLASH
      && CStr(r.text, r.url.off) == t[r.url.off..v]
      && (!CasePrefix(t[u + 1..v], SCHEME_LITERAL) ==> r.url.off == u + 1)
      && (CasePrefix(t[u + 1..v], SCHEME_LITERAL) ==>
            u + 8 <= r.url.off && forall j :: u + 8 <= j < r.url.off ==> t[j] != SLASH)
  {
    var u := Strpbrk(t, 0, BLANKS).value;
    AcceptedShape(t, version0, state0);
    TargetPointerFacts(t, u, Strpbrk(t, u + 1, BLANKS).value);
  }

  /**
   * Once the method is GET and a second blank follows, at v, m_version
   * points just past it, at the version token as it was read, whether the
   * version and target checks then pass or not.
   */
  lemma RequestLineVersion(t: seq<byte>, u: nat, v: nat, version0: Ptr, state0: CheckState)
    requires Strpbrk(t, 0, BLANKS) == Some(u) && Strpbrk(t, u + 1, BLANKS) == Some(v)
    requires CaseEq(t[..u], GET_LITERAL)
    ensures v + 1 <= |t| && RequestLine(t, version0, state0).version == At(v + 1)
    ensures CStr(RequestLine(t, version0, state0).text, v + 1) == CStr(t, v + 1)
  {
    AcceptedText(t, u, v, version0, state0);
    VersionToken(t, u, v, RequestLine(t, version0, state0).text);
  }

  /** Past a GET method and a second blank, the text keeps its bytes except the two blanks, now NUL, and m_version is set past the second. */
  lemma AcceptedText(t: seq<byte>, u: nat, v: nat, version0: Ptr, state0: CheckState)
    requires Strpbrk(t, 0, BLANKS) == Some(u) && Strpbrk(t, u + 1, BLANKS) == Some(v)
    requires CaseEq(t[..u], GET_LITERAL)
    ensures RequestLine(t, version0, state0).text == t[u := NUL][v := NUL]
    ensures RequestLine(t, version0, state0).version == At(v + 1)
  {
    var t1 := t[u := NUL];
    MethodToken(t, u);
    StrpbrkSuffix(t1, t, u + 1, BLANKS) by { assert t1[u + 1..] == t[u + 1..]; }
    assert RequestLine(t, version0, state0) == AfterVersionBlank(t1[v := NUL], u, v, state0);
  }

  /** NULs written over both blanks, giving s, leave the C string after the second one as it was. */
  lemma VersionToken(t: seq<byte>, u: nat, v: nat, s: seq<byte>)
    requires u < v < |t|
    requires s == t[u := NUL][v := NUL]
    ensures CStr(s, v + 1) == CStr(t, v + 1)
  {
    CStrUpdateBefore(t[u := NUL], v, NUL, v + 1);
    CStrUpdateBefore(t, u, NUL, v + 1);
  }

  /** An accepted request line, split at its two blanks u and v, as the result parse_request_line builds. */
  lemma AcceptedShape(t: seq<byte>, version0: Ptr, state0: CheckState)
    requires Strpbrk(t, 0, BLANKS).Some?
    requires RequestLine(t, version0, state0).code == NoRequest
    ensures var u := Strpbrk(t, 0, BLANKS).value;
      Strpbrk(t, u + 1, BLANKS).Some? &&
      var t2 := t[u := NUL][Strpbrk(t, u + 1, BLANKS).value := NUL];
      && RequestLine(t, version0, state0) ==
        RequestLineResult(NoRequest, t2, TargetPointer(t2, u), At(Strpbrk(t, u + 1, BLANKS).value + 1), CheckHeader)
      && TargetPointer(t2, u).At? && t2[TargetPointer(t2, u).off] == SLASH
  {
    var u := Strpbrk(t, 0, BLANKS).value;
    var t1 := t[u := NUL];
    StrpbrkSuffix(t1, t, u + 1, BLANKS) by { assert t1[u + 1..] == t[u + 1..]; }
    var v := Strpbrk(t, u + 1, BLANKS).value;
    assert RequestLine(t, version0, state0) == AfterVersionBlank(t1[v := NUL], u, v, state0);
  }

  /** The facts about m_url in RequestLineUrl, for the text with both blanks made NUL. */
  lemma TargetPointerFacts(t: seq<byte>, u: nat, v: nat)
    requires Strpbrk(t, 0, BLANKS) == Some(u)
    requires Strpbrk(t, u + 1, BLANKS) == Some(v)
    ensures var t2 := t[u := NUL][v := NUL]; var url := TargetPointer(t2, u);
      url.At? && t2[url.off] == SLASH ==>
      && u < url.off < v
      && t[url.off] == SLASH
      && CStr(t2, url.off) == t[url.off..v]
      && (!CasePrefix(t[u + 1..v], SCHEME_LITERAL) ==> url.off == u + 1)
      && (CasePrefix(t[u + 1..v], SCHEME_LITERAL) ==>
            u + 8 <= url.off && forall j :: u + 8 <= j < url.off ==> t[j] != SLASH)
  {
    var t2 := t[u := NUL][v := NUL];
    var url := TargetPointer(t2, u);
    TargetToken(t, u, v);
    if url.At? && t2[url.off] == SLASH {
      var p := url.off;
      if CasePrefix(t[u + 1..v], SCHEME_LITERAL) {
        CEndAt(t2, u + 8, v);
        forall j | u + 8 <= j < p ensures t[j] != SLASH {
          assert t2[j] == t[j];
        }
      }
      assert u < p < v;
      forall j | p <= j < v ensures t2[j] != NUL {
        assert t2[j] == t[j];
      }
      CEndAt(t2, p, v);
      assert t2[p..v] == t[p..v];
    }
  }

  /** "GET / HTTP/1,1" */
  const COMMA_REQUEST_LINE: seq<byte> := GET_LITERAL + [SP, SLASH, SP] + VERSION_LITERAL
  /** "GET / HTTP/1.1" */
  const STANDARD_REQUEST_LINE: seq<byte> := GET_LITERAL + [SP, SLASH, SP] + HTTP11_LITERAL

  /** The comma literal is what is accepted: "GET / HTTP/1,1" passes, while the standard "GET / HTTP/1.1" is rejected. */
  lemma VersionLiteralHasComma()
    ensures Strpbrk(COMMA_REQUEST_LINE, 0, BLANKS).Some? && Strpbrk(STANDARD_REQUEST_LINE, 0, BLANKS).Some?
    ensures RequestLine(COMMA_REQUEST_LINE, Null, CheckRequestLine).code == NoRequest
    ensures RequestLine(STANDARD_REQUEST_LINE, Null, CheckRequestLine).code == BadRequest
  {
    CommaLineTokens();
    RequestLineAccepts(COMMA_REQUEST_LINE, Null, CheckRequestLine);
    StandardLineTokens();
    RequestLineAccepts(STANDARD_REQUEST_LINE, Null, CheckRequestLine);
  }

  /** "GET / HTTP/1,1" read as tokens: method GET, target "/", version "HTTP/1,1". */
  lemma CommaLineTokens()
    ensures Strpbrk(COMMA_REQUEST_LINE, 0, BLANKS).Some? && AcceptedRequestLine(COMMA_REQUEST_LINE)
  {
    var good := COMMA_REQUEST_LINE;
    assert good[3] == SP && good[4] == SLASH && good[5] == SP;
    assert Strpbrk(good, 0, BLANKS) == Some(3);
    assert Strpbrk(good, 5, BLANKS) == Some(5);
    assert Strpbrk(good, 4, BLANKS) == Some(5);
    CEndAt(good, 6, |good|);
    assert CStr(good, 6) == VERSION_LITERAL;
    assert good[..3] == GET_LITERAL && good[4..5] == [SLASH];
  }

  /** "GET / HTTP/1.1" read as tokens: its version token differs from the literal at the '.'. */
  lemma StandardLineTokens()
    ensures Strpbrk(STANDARD_REQUEST_LINE, 0, BLANKS).Some? && !AcceptedRequestLine(STANDARD_REQUEST_LINE)
  {
    var bad := STANDARD_REQUEST_LINE;
    assert bad[3] == SP && bad[4] == SLASH && bad[5] == SP;
    assert Strpbrk(bad, 0, BLANKS) == Some(3);
    assert Strpbrk(bad, 5, BLANKS) == Some(5);
    assert Strpbrk(bad, 4, BLANKS) == Some(5);
    CEndAt(bad, 6, |bad|);
    assert CStr(bad, 6) == HTTP11_LITERAL;
    assert Lower(HTTP11_LITERAL[6]) != Lower(VERSION_LITERAL[6]);
  }

  // ---------------------------------------------------------------------
  // process_read(): the driver loop

  /** Outcome of process_read: a result code and the connection it leaves, or the NULL write of parse_request_line. */
  datatype ReadOutcome = Done(code: HttpCode, conn: ConnState) | NullDeref

  /** The loop's variant: bytes left to scan, plus one while a content pass is due without a scan. */
  function Measure(c: ConnState, ls: LineStatus): nat
    requires c.checked <= c.readIdx
  {
    c.readIdx - c.checked + (if c.state == CheckContent && ls == LineOk then 1 else 0)
  }

  /** After one pass of the loop: it returned (or crashed), or it goes round again from conn with line status status. */
  datatype PassResult = Finished(outcome: ReadOutcome) | Continue(conn: ConnState, status: LineStatus)

  /**
   * One pass of the while loop of process_read, from connection c with line
   * status ls. A pass runs when the state is CONTENT and ls is LINE_OK, or
   * else when parse_line yields LINE_OK; LINE_OPEN and LINE_BAD both end the
   * loop with NO_REQUEST. The HEADER case has no break: a header result
   * other than BAD_REQUEST or GET_REQUEST falls into the CONTENT case.
   * Every pass that goes round again lowers the loop's variant.
   */
  function LoopPass(c: ConnState, ls: LineStatus, h: Handlers): (p: PassResult)
    requires WellFormed(c)
    ensures p.Continue? ==> WellFormed(p.conn) && Measure(p.conn, p.status) < Measure(c, ls)
    ensures p.Continue? ==> p.conn.readIdx == c.readIdx && p.conn.startLine == c.startLine && c.checked <= p.conn.checked
    ensures p.Finished? && p.outcome.Done? ==> WellFormed(p.outcome.conn)
    ensures p.Finished? && p.outcome.Done? ==>
      p.outcome.conn.readIdx == c.readIdx && p.outcome.conn.startLine == c.startLine && c.checked <= p.outcome.conn.checked
  {
    if c.state == CheckContent && ls == LineOk then Dispatch(c, ls, h)
    else
      var scan := ScanLine(c.buf, c.checked, c.readIdx);
      var c1 := c.(buf := scan.buf, checked := scan.checked);
      if scan.status != LineOk then Finished(Done(NoRequest, c1)) else Dispatch(c1, LineOk, h)
  }

  /** The switch on the main state in a loop pass, once there is a line (ls is LINE_OK), from connection c. */
  function Dispatch(c: ConnState, ls: LineStatus, h: Handlers): (p: PassResult)
    requires WellFormed(c)
    ensures p.Continue? ==> WellFormed(p.conn) && p.conn.readIdx == c.readIdx && p.conn.startLine == c.startLine
    ensures p.Continue? ==> p.conn.checked == c.checked && (p.status == LineOpen || p.conn.state == CheckHeader)
    ensures p.Finished? && p.outcome.Done? ==> WellFormed(p.outcome.conn)
    ensures p.Finished? && p.outcome.Done? ==>
      p.outcome.conn.readIdx == c.readIdx && p.outcome.conn.startLine == c.startLine && p.outcome.conn.checked == c.checked
  {
    var c2 := c.(line := h.getLine(c));
    if c2.state == CheckRequestLine then
      if Strpbrk(c2.line, 0, BLANKS).None? then Finished(NullDeref)
      else
        var p := RequestLine(c2.line, c2.version, c2.state);
        var c3 := c2.(line := p.text, url := p.url, version := p.version, state := p.state);
        if p.code == BadRequest then Finished(Done(BadRequest, c3)) else Continue(c3, ls)
    else if c2.state == CheckHeader && h.parseHeaders(c2.line) == BadRequest then
      Finished(Done(BadRequest, c2))
    else if c2.state == CheckHeader && h.parseHeaders(c2.line) == GetRequest then
      Finished(Done(h.doRequest(c2), c2))
    else if h.parseContent(c2.line) == GetRequest then
      Finished(Done(h.doRequest(c2), c2))
    else
      Continue(c2, LineOpen)
  }

  /** process_read, continuing from connection c with line status ls: passes until one returns. */
  function ReadLoop(c: ConnState, ls: LineStatus, h: Handlers): (r: ReadOutcome)
    requires WellFormed(c)
    ensures r.Done? ==> WellFormed(r.conn)
    ensures r.Done? ==> r.conn.readIdx == c.readIdx && r.conn.startLine == c.startLine && c.checked <= r.conn.checked
    decreases Measure(c, ls)
  {
    match LoopPass(c, ls, h)
    case Finished(o) => o
    case Continue(c', ls') => ReadLoop(c', ls', h)
  }

  /** The connection after one parse_line call, with the line status it returned. */
  function Scanned(c: ConnState): ConnState
    requires WellFormed(c)
  {
    var scan := ScanLine(c.buf, c.checked, c.readIdx);
    c.(buf := scan.buf, checked := scan.checked)
  }

  /**
   * When parse_line yields LINE_OPEN or LINE_BAD, process_read returns
   * NO_REQUEST (a malformed line is not turned into an error), and running it
   * again before more bytes arrive gives the same answer and changes nothing.
   */
  lemma ReadLoopStopsOnIncompleteOrBadLine(c: ConnState, h: Handlers)
    requires WellFormed(c) && c.state != CheckContent
    requires ScanLine(c.buf, c.checked, c.readIdx).status != LineOk
    ensures ReadLoop(c, LineOk, h) == Done(NoRequest, Scanned(c))
    ensures ReadLoop(Scanned(c), LineOk, h) == Done(NoRequest, Scanned(c))
  {
    ScanStable(c.buf, c.checked, c.readIdx);
  }

  /** A rejected request line ends process_read at once with BAD_REQUEST, in the request-line state. */
  lemma ReadLoopRejectsRequestLine(c: ConnState, h: Handlers)
    requires WellFormed(c) && c.state == CheckRequestLine
    requires ScanLine(c.buf, c.checked, c.readIdx).status == LineOk
    requires var t := h.getLine(Scanned(c)); Strpbrk(t, 0, BLANKS).Some? && !AcceptedRequestLine(t)
    ensures ReadLoop(c, LineOk, h).Done?
    ensures ReadLoop(c, LineOk, h).code == BadRequest && ReadLoop(c, LineOk, h).conn.state == CheckRequestLine
  {
    var c1 := Scanned(c);
    var t := h.getLine(c1);
    RequestLineAccepts(t, c1.version, c1.state);
  }

  /** An accepted request line moves to the header state and the loop carries on with the next line. */
  lemma ReadLoopAcceptsRequestLine(c: ConnState, h: Handlers)
    requires WellFormed(c) && c.state == CheckRequestLine
    requires ScanLine(c.buf, c.checked, c.readIdx).status == LineOk
    requires var t := h.getLine(Scanned(c)); Strpbrk(t, 0, BLANKS).Some? && AcceptedRequestLine(t)
    ensures var c1 := Scanned(c); var t := h.getLine(c1);
      var p := RequestLine(t, c1.version, c1.state);
      p.state == CheckHeader &&
      ReadLoop(c, LineOk, h) == ReadLoop(c1.(line := p.text, url := p.url, version := p.version, state := CheckHeader), LineOk, h)
  {
    var c1 := Scanned(c);
    var t := h.getLine(c1);
    RequestLineAccepts(t, c1.version, c1.state);
  }

  /**
   * The HEADER case falls through: when parse_headers gives neither
   * BAD_REQUEST nor GET_REQUEST, parse_content runs on the same line, and
   * unless it gives GET_REQUEST the loop carries on with line status LINE_OPEN.
   */
  lemma ReadLoopHeaderFallsThrough(c: ConnState, h: Handlers)
    requires WellFormed(c) && c.state == CheckHeader
    requires ScanLine(c.buf, c.checked, c.readIdx).status == LineOk
    requires var t := h.getLine(Scanned(c)); h.parseHeaders(t) != BadRequest && h.parseHeaders(t) != GetRequest
    ensures var c2 := Scanned(c).(line := h.getLine(Scanned(c)));
      ReadLoop(c, LineOk, h) ==
        if h.parseContent(c2.line) == GetRequest then Done(h.doRequest(c2), c2) else ReadLoop(c2, LineOpen, h)
  {
  }

  /** In the CONTENT state with LINE_OK, the first pass runs parse_content without extracting a line. */
  lemma ReadLoopContentSkipsScan(c: ConnState, h: Handlers)
    requires WellFormed(c) && c.state == CheckContent
    ensures var c2 := c.(line := h.getLine(c));
      ReadLoop(c, LineOk, h) ==
        if h.parseContent(c2.line) == GetRequest then Done(h.doRequest(c2), c2) else ReadLoop(c2, LineOpen, h)
  {
  }

  /** Right after init(), nothing has been read, so process_read asks for more input and changes nothing. */
  lemma ReadLoopAfterReset(c: ConnState, h: Handlers)
    ensures ReadLoop(Reset(c), LineOk, h) == Done(NoRequest, Reset(c))
  {
  }

  // ---------------------------------------------------------------------
  // read(): buffer accounting, with recv abstracted

  /** What one recv call returns: some bytes, EAGAIN/EWOULDBLOCK, another error, or 0 (peer closed). */
  datatype RecvOutcome = Received(data: seq<byte>) | WouldBlock | Failed | PeerClosed

  /**
   * recv's contract: the k-th call, asked for at most len bytes, delivers
   * between 1 and len of them when it delivers any (0 is peer closed).
   */
  ghost predicate RecvContract(recv: (nat, nat) -> RecvOutcome)
  {
    forall k: nat, len: nat :: recv(k, len).Received? ==> 0 < |recv(k, len).data| <= len
  }

  datatype ReadResult = ReadResult(ok: bool, readIdx: nat, buf: seq<byte>)

  /**
   * The receive loop of read(), from the k-th recv call with idx bytes in b:
   * each call is asked for the room left, its bytes land at idx and idx
   * grows; would-block ends it with true, an error or a close with false.
   */
  function Receive(recv: (nat, nat) -> RecvOutcome, k: nat, idx: nat, b: seq<byte>): (r: ReadResult)
    requires RecvContract(recv)
    requires idx <= READ_BUFFER_SIZE == |b|
    ensures idx <= r.readIdx <= READ_BUFFER_SIZE && |r.buf| == |b|
    ensures r.buf[..idx] == b[..idx] && r.buf[r.readIdx..] == b[r.readIdx..]
    decreases READ_BUFFER_SIZE - idx
  {
    match recv(k, READ_BUFFER_SIZE - idx)
    case WouldBlock => ReadResult(true, idx, b)
    case Failed => ReadResult(false, idx, b)
    case PeerClosed => ReadResult(false, idx, b)
    case Received(d) =>
      var b' := b[..idx] + d + b[idx + |d|..];
      assert b'[..idx] == b[..idx];
      var r := Receive(recv, k + 1, idx + |d|, b');
      assert r.buf[..idx] == r.buf[..idx + |d|][..idx] == b'[..idx + |d|][..idx];
      assert r.buf[r.readIdx..] == b'[r.readIdx..] == b[r.readIdx..];
      r
  }

  /** read(): false at once when the buffer is full, otherwise the receive loop from the first call. */
  function ReadBuffer(recv: (nat, nat) -> RecvOutcome, idx: nat, b: seq<byte>): (r: ReadResult)
    requires RecvContract(recv)
    requires idx <= READ_BUFFER_SIZE == |b|
    ensures idx <= r.readIdx <= READ_BUFFER_SIZE && |r.buf| == |b|
    ensures r.buf[..idx] == b[..idx] && r.buf[r.readIdx..] == b[r.readIdx..]
    ensures idx == READ_BUFFER_SIZE ==> !r.ok && r.readIdx == idx && r.buf == b
  {
    if idx >= READ_BUFFER_SIZE then ReadResult(false, idx, b) else Receive(recv, 0, idx, b)
  }

  /** The bytes the receive loop takes from the socket, in order, up to its final call. */
  function Delivered(recv: (nat, nat) -> RecvOutcome, k: nat, idx: nat): (d: seq<byte>)
    requires RecvContract(recv)
    requires idx <= READ_BUFFER_SIZE
    ensures idx + |d| <= READ_BUFFER_SIZE
    decreases READ_BUFFER_SIZE - idx
  {
    match recv(k, READ_BUFFER_SIZE - idx)
    case Received(d) => d + Delivered(recv, k + 1, idx + |d|)
    case _ => []
  }

  /** The last recv call made: the first that delivered no bytes. */
  function FinalOutcome(recv: (nat, nat) -> RecvOutcome, k: nat, idx: nat): (o: RecvOutcome)
    requires RecvContract(recv)
    requires idx <= READ_BUFFER_SIZE
    ensures !o.Received?
    decreases READ_BUFFER_SIZE - idx
  {
    match recv(k, READ_BUFFER_SIZE - idx)
    case Received(d) => FinalOutcome(recv, k + 1, idx + |d|)
    case o => o
  }

  /** read() moves the read index past exactly the delivered bytes. */
  lemma {:induction false} ReceiveCount(recv: (nat, nat) -> RecvOutcome, k: nat, idx: nat, b: seq<byte>)
    requires RecvContract(recv)
    requires idx <= READ_BUFFER_SIZE == |b|
    ensures Receive(recv, k, idx, b).readIdx == idx + |Delivered(recv, k, idx)|
    decreases READ_BUFFER_SIZE - idx
  {
    match recv(k, READ_BUFFER_SIZE - idx)
    case Received(d) =>
      ReceiveCount(recv, k + 1, idx + |d|, b[..idx] + d + b[idx + |d|..]);
    case _ =>
  }

  /** read() puts the delivered bytes, in order, right behind the old read index and keeps every other byte. */
  lemma {:induction false} ReceiveBytes(recv: (nat, nat) -> RecvOutcome, k: nat, idx: nat, b: seq<byte>)
    requires RecvContract(recv)
    requires idx <= READ_BUFFER_SIZE == |b|
    ensures var d := Delivered(recv, k, idx);
      Receive(recv, k, idx, b).buf == b[..idx] + d + b[idx + |d|..]
    decreases READ_BUFFER_SIZE - idx
  {
    match recv(k, READ_BUFFER_SIZE - idx)
    case Received(d) =>
      var m := idx + |d|;
      var b' := b[..idx] + d + b[m..];
      var rest := Delivered(recv, k + 1, m);
      assert Delivered(recv, k, idx) == d + rest;
      assert Receive(recv, k, idx, b) == Receive(recv, k + 1, m, b');
      ReceiveBytes(recv, k + 1, m, b');
      Splice(b, idx, d, rest);
    case _ =>
  }

  /** Writing d at idx and then rest right behind it is writing d + rest at idx. */
  lemma Splice(b: seq<byte>, idx: nat, d: seq<byte>, rest: seq<byte>)
    requires idx + |d| + |rest| <= |b|
    ensures var m := idx + |d|; var b' := b[..idx] + d + b[m..];
      b'[..m] + rest + b'[m + |rest|..] == b[..idx] + (d + rest) + b[idx + |d + rest|..]
  {
    var m := idx + |d|;
    var b' := b[..idx] + d + b[m..];
    assert b'[..m] == b[..idx] + d;
    assert b'[m + |rest|..] == b[m + |rest|..];
  }

  /** read() reports true exactly when its last recv call would block (false on an error or a zero-length read). */
  lemma {:induction false} ReceiveOk(recv: (nat, nat) -> RecvOutcome, k: nat, idx: nat, b: seq<byte>)
    requires RecvContract(recv)
    requires idx <= READ_BUFFER_SIZE == |b|
    ensures Receive(recv, k, idx, b).ok <==> FinalOutcome(recv, k, idx) == WouldBlock
    decreases READ_BUFFER_SIZE - idx
  {
    match recv(k, READ_BUFFER_SIZE - idx)
    case Received(d) =>
      ReceiveOk(recv, k + 1, idx + |d|, b[..idx] + d + b[idx + |d|..]);
    case _ =>
  }

  /** A full buffer makes read() fail at once; a zero-length read or a non-EAGAIN error makes it fail. */
  lemma ReadBufferFails(recv: (nat, nat) -> RecvOutcome, idx: nat, b: seq<byte>)
    requires RecvContract(recv)
    requires idx <= READ_BUFFER_SIZE == |b|
    requires idx == READ_BUFFER_SIZE || FinalOutcome(recv, 0, idx) != WouldBlock
    ensures !ReadBuffer(recv, idx, b).ok
  {
    if idx < READ_BUFFER_SIZE {
      ReceiveOk(recv, 0, idx, b);
    }
  }
}
