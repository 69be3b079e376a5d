/**
 * The crawl step of submit/main.c, sequentially: one call of
 * retrieve_webpage takes a URL off the frontier, marks the worker busy or
 * idle in the queue_empty bitmap, fetches the page (url_parse, the
 * response head, its status and Content-Length, the body) and registers
 * every link found on it in the link graph and the frontier. The thread
 * pool, the mutexes and printf are left out; the socket is a Stream, the
 * connection attempt a boolean, and the link extractor and the sanity
 * filter are functions given by the caller.
 */
module Crawler {
  import opened Wrappers
  import opened Utils
  import opened Bitmap
  import Url
  import Http
  import opened UrlQueues
  import opened WebGraphs

  /** NUM_THREADS. */
  const NumThreads: nat := 200

  // ---------------------------------------------------------------------
  // The queue_empty bitmap and check_exit (submit/main.c:26-46, 79-92)
  // ---------------------------------------------------------------------

  /** flag.queue_empty: bit t is set while worker t last found the frontier empty. */
  class IdleFlags {
    var queueEmpty: array<bv8>

    ghost predicate Valid()
      reads this
    {
      queueEmpty.Length == BytesFor(NumThreads)
    }

    /** Worker t is idle. */
    ghost predicate Idle(t: nat)
      reads this, queueEmpty
      requires Valid() && t < NumThreads
    {
      GetBit(queueEmpty[..], t)
    }

    /** The static initialiser: every byte 0, no worker idle. */
    constructor ()
      ensures Valid() && fresh(queueEmpty)
      ensures forall t :: 0 <= t < NumThreads ==> !Idle(t)
    {
      queueEmpty := new bv8[BytesFor(NumThreads)](_ => 0);
      new;
      forall t | 0 <= t < NumThreads
        ensures !GetBit(queueEmpty[..], t)
      {
        GetBitOfZero(queueEmpty[..], t);
      }
    }

    /** check_exit: true exactly when every worker is idle. */
    method CheckExit() returns (exit: bool)
      requires Valid()
      ensures exit <==> forall t :: 0 <= t < NumThreads ==> Idle(t)
    {
      exit := true;
      var i := 0;
      while i < NumThreads
        invariant 0 <= i <= NumThreads
        invariant exit <==> forall t :: 0 <= t < i ==> Idle(t)
      {
        if !GetBit(queueEmpty[..], i) {
          exit := false;
        }
        assert Idle(i) <==> GetBit(queueEmpty[..], i);
        assert (forall t :: 0 <= t < i + 1 ==> Idle(t)) <==> (forall t :: 0 <= t < i ==> Idle(t)) && Idle(i);
        i := i + 1;
      }
    }

    /**
     * The bookkeeping after url_dequeue: an empty frontier sets worker t's
     * bit (SETBIT), a URL clears it (CLRBIT); no other worker's bit changes.
     */
    method NoteDequeue(t: nat, gotUrl: bool)
      requires Valid() && t < NumThreads
      modifies queueEmpty
      ensures Valid() && (Idle(t) <==> !gotUrl)
      ensures forall u :: 0 <= u < NumThreads && u != t ==> (Idle(u) <==> old(Idle(u)))
    {
      ghost var bits := queueEmpty[..];
      if gotUrl {
        ClrBitIn(queueEmpty, t);
      } else {
        SetBitIn(queueEmpty, t);
      }
      forall u | 0 <= u < NumThreads
        ensures GetBit(queueEmpty[..], u) <==> (if u == t then !gotUrl else GetBit(bits, u))
      {
        if gotUrl {
          GetClrBit(bits, t, u);
        } else {
          GetSetBit(bits, t, u);
        }
      }
    }
  }

  // ---------------------------------------------------------------------
  // Content-Length (submit/main.c:51, 122-138)
  // ---------------------------------------------------------------------

  /** sizeof(header_val). */
  const HeaderValSize: nat := 256

  /** LLONG_MAX and LLONG_MIN: strtoll clamps to them, and long holds them. */
  const LongMax: int := 0x7fff_ffff_ffff_ffff
  const LongMin: int := -0x8000_0000_0000_0000

  /** Past the white space from p on. */
  function SkipWhite(s: seq<char>, p: nat): (q: nat)
    requires p <= |s|
    ensures p <= q <= |s| && (q < |s| ==> !IsSpace(s[q]))
    ensures forall i :: p <= i < q ==> IsSpace(s[i])
    decreases |s| - p
  {
    if p < |s| && IsSpace(s[p]) then SkipWhite(s, p + 1) else p
  }

  /** Past the decimal digits from p on. */
  function DigitsEnd(s: seq<char>, p: nat): (q: nat)
    requires p <= |s|
    ensures p <= q <= |s| && (q < |s| ==> !IsDigit(s[q]))
    ensures forall i :: p <= i < q ==> IsDigit(s[i])
    decreases |s| - p
  {
    if p < |s| && IsDigit(s[p]) then DigitsEnd(s, p + 1) else p
  }

  /**
   * strtoll(s, NULL, 10) on the C string s: white space, an optional sign,
   * the longest run of decimal digits (none gives 0), clamped to the range
   * of long long.
   */
  function Strtoll(s: seq<char>): (v: int)
    ensures LongMin <= v <= LongMax
  {
    var p := SkipWhite(s, 0);
    var q := if At(s, p) == '-' || At(s, p) == '+' then p + 1 else p;
    var e := DigitsEnd(s, q);
    Clamped(At(s, p) == '-', Url.DecimalValue(s[q..e]))
  }

  /** The signed value of the digits, clamped to the range of long long. */
  function Clamped(negative: bool, magnitude: nat): (v: int)
    ensures LongMin <= v <= LongMax
    ensures var signed := if negative then -(magnitude as int) else magnitude;
      LongMin <= signed <= LongMax ==> v == signed
  {
    var signed := if negative then -(magnitude as int) else magnitude;
    if signed < LongMin then LongMin
    else if signed > LongMax then LongMax
    else signed
  }

  lemma {:induction false} SkipWhiteStopsAtNul(t: seq<char>, r: seq<char>, p: nat)
    requires p <= |t|
    ensures SkipWhite(t + ['\0'] + r, p) == SkipWhite(t, p)
    decreases |t| - p
  {
    var s := t + ['\0'] + r;
    if p < |t| {
      assert s[p] == t[p];
      SkipWhiteStopsAtNul(t, r, p + 1);
    } else {
      assert s[p] == '\0';
    }
  }

  lemma {:induction false} DigitsEndStopsAtNul(t: seq<char>, r: seq<char>, p: nat)
    requires p <= |t|
    ensures DigitsEnd(t + ['\0'] + r, p) == DigitsEnd(t, p)
    decreases |t| - p
  {
    var s := t + ['\0'] + r;
    if p < |t| {
      assert s[p] == t[p];
      DigitsEndStopsAtNul(t, r, p + 1);
    } else {
      assert s[p] == '\0';
    }
  }

  /** strtoll reads nothing past the terminator: what follows the first NUL does not matter. */
  lemma StrtollStopsAtNul(t: seq<char>, r: seq<char>)
    ensures Strtoll(t + ['\0'] + r) == Strtoll(t)
  {
    var s := t + ['\0'] + r;
    SkipWhiteStopsAtNul(t, r, 0);
    var p := SkipWhite(t, 0);
    assert At(s, p) == At(t, p);
    var q := if At(s, p) == '-' || At(s, p) == '+' then p + 1 else p;
    DigitsEndStopsAtNul(t, r, q);
    assert s[q..DigitsEnd(t, q)] == t[q..DigitsEnd(t, q)];
  }

  /** strtoll reads a decimal spelling back as its number. */
  lemma StrtollDecimal(n: nat)
    requires n <= LongMax
    ensures Strtoll(Url.DecimalString(n)) == n
  {
    var s := Url.DecimalString(n);
    assert !IsSpace(s[0]) && At(s, 0) != '-' && At(s, 0) != '+';
    assert DigitsEnd(s, 0) == |s|;
    assert s[0..|s|] == s;
    Url.DecimalStringValue(n);
  }

  /** strtoll reads "-" and a decimal spelling as the negated number. */
  lemma StrtollNegative(n: nat)
    requires n <= LongMax
    ensures Strtoll("-" + Url.DecimalString(n)) == -(n as int)
  {
    var d := Url.DecimalString(n);
    var s := "-" + d;
    assert !IsSpace(s[0]) && At(s, 0) == '-';
    assert DigitsEnd(s, 1) == |s| by {
      forall i | 1 <= i < |s| ensures IsDigit(s[i]) {
        assert s[i] == d[i - 1];
      }
    }
    assert s[1..|s|] == d;
    Url.DecimalStringValue(n);
  }

  /**
   * The content length the crawl step works with, as intended: the
   * Content-Length value as copied into the 256-byte header_val and read
   * by strtoll, -1 when that is negative, and -1 (skip the page) when the
   * header is absent.
   */
  function ContentLength(r: Http.Response): (n: int)
    requires Http.WellFormed(r)
    ensures -1 <= n <= LongMax
  {
    LengthOfValue(Http.HeaderValue(r, "Content-Length"))
  }

  /** ContentLength given what resp_header_locate found. */
  function LengthOfValue(header: Option<seq<char>>): (n: int)
    ensures -1 <= n <= LongMax
  {
    match header
    case None => -1
    case Some(v) =>
      var parsed := Strtoll(v[..Min(|v|, HeaderValSize - 1)]);
      if parsed < 0 then -1 else parsed
  }

  /**
   * The content length as submit/main.c:122-137 computes it: content_length
   * is assigned only when the header is found, so without the header the
   * test at line 137 reads whatever the variable held (`uninitialised`).
   */
  function ContentLengthAsWritten(found: bool, parsed: int, uninitialised: int): int
  {
    if found then (if parsed < 0 then -1 else parsed) else uninitialised
  }

  /**
   * Without a Content-Length header, whether the page is skipped or read
   * depends on the stale value: two values take the two different paths.
   */
  lemma AbsentLengthDecidesOnGarbage(parsed: int)
    ensures ContentLengthAsWritten(false, parsed, -7) < 0
    ensures ContentLengthAsWritten(false, parsed, 4096) >= 0
  {
  }

  /** A response without Content-Length is skipped; one with a decimal length gets that length. */
  lemma ContentLengthCases(n: nat)
    ensures LengthOfValue(None) == -1
    ensures n <= LongMax && |Url.DecimalString(n)| < HeaderValSize ==>
      LengthOfValue(Some(Url.DecimalString(n))) == n
    ensures 0 < n <= LongMax && |Url.DecimalString(n)| < HeaderValSize - 1 ==>
      LengthOfValue(Some("-" + Url.DecimalString(n))) == -1
  {
    var d := Url.DecimalString(n);
    if n <= LongMax {
      StrtollDecimal(n);
      StrtollNegative(n);
      assert d[..Min(|d|, HeaderValSize - 1)] == d || |d| >= HeaderValSize;
      var m := "-" + d;
      assert m[..Min(|m|, HeaderValSize - 1)] == m || |d| >= HeaderValSize - 1;
    }
  }

  /**
   * The Content-Length lines of retrieve_webpage: resp_header_copy into
   * header_val, strtoll, negative values to -1; content_length starts at -1.
   */
  method ReadContentLength(r: Http.Response) returns (contentLength: int)
    requires Http.WellFormed(r)
    ensures contentLength == ContentLength(r)
  {
    var headerVal := new char[HeaderValSize];
    contentLength := -1;
    var found := Http.RespHeaderCopy(r, "Content-Length", headerVal, HeaderValSize);
    if found != 0 {
      var v := Http.HeaderValue(r, "Content-Length").value;
      var len := Min(|v|, HeaderValSize - 1);
      assert headerVal[..] == v[..len] + ['\0'] + headerVal[len + 1..];
      StrtollStopsAtNul(v[..len], headerVal[len + 1..]);
      var parsed := Strtoll(headerVal[..]);
      if parsed < 0 {
        contentLength := -1;
      } else {
        contentLength := parsed;
      }
    }
  }

  // ---------------------------------------------------------------------
  // Fetching one page (submit/main.c:98-148)
  // ---------------------------------------------------------------------

  /**
   * How the fetch part of retrieve_webpage ends: url_parse failed (with its
   * error code), the connection failed, no head came back,
   * the status was not 200, the content length was negative, or the page
   * text was read.
   */
  datatype Fetch = BadUrl(code: nat) | NoConnection | NoHead | BadStatus(status: int) | NoLength | Page(content: seq<char>)

  /** The C string a buffer holds: its bytes before the first NUL. */
  function CStr(buf: seq<char>): (r: seq<char>)
    ensures |r| <= |buf| && '\0' !in r && (|r| < |buf| ==> buf[|r|] == '\0') && r == buf[..|r|]
  {
    buf[..StrpbrkOrEos(buf, "\0")]
  }

  /** Zero padding after the bytes does not change the C string they hold. */
  lemma CStrOfPadded(bytes: seq<char>, zeros: seq<char>)
    requires |zeros| > 0 && forall i :: 0 <= i < |zeros| ==> zeros[i] == '\0'
    ensures CStr(bytes + zeros) == CStr(bytes)
  {
    var a, b := CStr(bytes + zeros), CStr(bytes);
    if |b| < |bytes| {
      assert (bytes + zeros)[|b|] == '\0';
      assert |a| <= |b|;
    } else {
      assert (bytes + zeros)[|bytes|] == '\0';
    }
  }

  /** A head read whole is a prefix of what the connection delivers. */
  /**
   * What a response whose head is `head` yields when the connection then
   * still delivers `rest`: the status must be 200 and the content length
   * not negative; the body is that many bytes of rest (fewer when the
   * connection ends first), up to the first NUL.
   */
  function ResponseSpec(head: seq<char>, rest: seq<char>): (f: Fetch)
    ensures f.BadStatus? <==> Http.StatusSpec(Http.RespSpec(head)) != 200
    ensures f.Page? ==>
      0 <= ContentLength(Http.RespSpec(head)) && |f.content| <= ContentLength(Http.RespSpec(head)) &&
      |f.content| <= |rest| && f.content == rest[..|f.content|] && '\0' !in f.content
    ensures f.Page? || f.BadStatus? || f == NoLength
  {
    Http.RespNewShape(head);
    var r := Http.RespSpec(head);
    var status := Http.StatusSpec(r);
    if status != 200 then BadStatus(status)
    else
      var n := ContentLength(r);
      if n < 0 then NoLength
      else Page(CStr(rest[..Http.BodyLength(|rest|, n)]))
  }

  /**
   * What fetching `url` yields when the connection attempt succeeds exactly
   * when `connected` and the server then delivers d, at most `burst` bytes
   * per call.
   */
  function FetchSpec(url: seq<char>, connected: bool, d: seq<char>, burst: nat, endsInError: bool): (f: Fetch)
    ensures f.BadUrl? <==> Url.ParseSpec(url).Failure?
    ensures f == NoConnection <==> Url.ParseSpec(url).Success? && !connected
    ensures f == NoHead <==> Url.ParseSpec(url).Success? && connected && !Http.HeadSpec(d, burst, endsInError).Head?
    ensures f.Page? ==> |f.content| <= |d| && '\0' !in f.content
  {
    match Url.ParseSpec(url)
    case Failure(e) => BadUrl(Url.ErrorCode(e))
    case Success(_) =>
      if !connected then NoConnection
      else match Http.HeadSpec(d, burst, endsInError)
        case Head(head) =>
          ResponseSpec(head, d[|head|..])
        case _ => NoHead
  }

  /**
   * retrieve_webpage from url_parse to read_resp_body. The head is read
   * only after a successful parse and connection; when no head comes back
   * the fetch stops (the C passes NULL to resp_new here).
   */
  method FetchPage(url: seq<char>, connected: bool, s: Http.Stream) returns (f: Fetch)
    requires s.Valid()
    modifies s
    ensures s.Valid()
    ensures f == FetchSpec(url, connected, old(s.data[s.pos..]), s.burst, s.endsInError)
  {
    var u := Url.UrlParse(url);
    if u.Failure? {
      return BadUrl(Url.ErrorCode(u.error));
    }
    if !connected {
      return NoConnection;
    }
    ghost var d := s.data[s.pos..];
    var h := Http.ReadHttpRespHead(s);
    if !h.Head? {
      return NoHead;
    }
    assert d[|h.head|..] == s.data[s.pos..];
    f := HandleResponse(h.head, s);
    assert f == ResponseSpec(h.head, d[|h.head|..]);
  }

  /** resp_new, resp_status and the Content-Length test, then the body. */
  method HandleResponse(head: seq<char>, s: Http.Stream) returns (f: Fetch)
    requires s.Valid()
    modifies s
    ensures s.Valid()
    ensures f == ResponseSpec(head, old(s.data[s.pos..]))
  {
    ghost var rest := s.data[s.pos..];
    Http.RespNewShape(head);
    var resp := Http.RespNew(head);
    var status := Http.RespStatus(resp);
    if status != 200 {
      f := BadStatus(status);
    } else {
      var contentLength := ReadContentLength(resp);
      if contentLength < 0 {
        f := NoLength;
      } else {
        f := ReadBody(s, contentLength);
        assert |rest| == |s.data| - old(s.pos);
        ResponsePage(head, rest, contentLength);
      }
    }
  }

  /** The reply whose status is 200 and whose Content-Length is n >= 0 yields its body. */
  lemma ResponsePage(head: seq<char>, rest: seq<char>, n: nat)
    requires Http.WellFormed(Http.RespSpec(head))
    requires Http.StatusSpec(Http.RespSpec(head)) == 200 && ContentLength(Http.RespSpec(head)) == n
    ensures ResponseSpec(head, rest) == Page(CStr(rest[..Http.BodyLength(|rest|, n)]))
  {
  }

  /** calloc(content_length + 1) and read_resp_body: the body's C string. */
  method ReadBody(s: Http.Stream, contentLength: nat) returns (f: Fetch)
    requires s.Valid()
    modifies s
    ensures s.Valid()
    ensures f == Page(CStr(old(s.data[s.pos..])[..Http.BodyLength(|s.data| - old(s.pos), contentLength)]))
  {
    ghost var rest := s.data[s.pos..];
    var contentBuf := new char[contentLength + 1](_ => '\0');
    var _ := Http.ReadRespBody(s, contentLength, contentBuf);
    var n := Http.BodyLength(|s.data| - old(s.pos), contentLength);
    assert contentBuf[..] == contentBuf[..n] + contentBuf[n..];
    CStrOfPadded(contentBuf[..n], contentBuf[n..]);
    assert rest[..n] == s.data[old(s.pos)..s.pos];
    f := Page(CStr(contentBuf[..]));
  }

  // ---------------------------------------------------------------------
  // Registering the links of a page (submit/main.c:159-183) and the seed
  // (submit/main.c:227-236)
  // ---------------------------------------------------------------------

  /**
   * The link an href on page becomes: uri_merge against the page, then
   * url_simplify. The root of the merged URL survives, and below it no
   * segment is "." or "..".
   */
  function Resolve(page: seq<char>, href: seq<char>): (link: seq<char>)
    ensures var m := Url.UriMerge(page, href);
      Url.RootEnd(m) <= |link| <= |m| && link[..Url.RootEnd(m)] == m[..Url.RootEnd(m)] &&
      Url.NoDotSegments(link[Url.RootEnd(m)..])
  {
    Url.Simplify(Url.UriMerge(page, href))
  }

  /** The graph's objects and the frontier's nodes are different objects. */
  ghost predicate Apart(g: WebGraph, q: UrlQueue)
    reads g, q
  {
    g.Repr !! q.Repr
  }

  /** The URLs of a run of frontier entries, in order. */
  function UrlsOf(entries: seq<Entry>): (urls: seq<seq<char>>)
    ensures |urls| == |entries|
  {
    seq(|entries|, k requires 0 <= k < |entries| => entries[k].url)
  }

  /** UrlsOf distributes over concatenation. */
  lemma UrlsOfAppend(a: seq<Entry>, b: seq<Entry>)
    ensures UrlsOf(a + b) == UrlsOf(a) + UrlsOf(b)
  {
    forall k | 0 <= k < |a| + |b|
      ensures UrlsOf(a + b)[k] == (UrlsOf(a) + UrlsOf(b))[k]
    {
      if k < |a| {
        assert UrlsOf(a)[k] == a[k].url;
      } else {
        assert UrlsOf(b)[k - |a|] == b[k - |a|].url;
      }
    }
  }

  /**
   * The crawl invariant: the frontier has been handed exactly the pages of
   * the graph, in id order (the seed, then every page as it was added).
   */
  ghost predicate Consistent(g: WebGraph, q: UrlQueue)
    reads g, g.urlString, g.inLinks, g.numOutLinks, g.danglingPages, q, q.Repr
  {
    g.Valid() && q.Valid() && Apart(g, q) && UrlsOf(q.history) == g.Urls()
  }

  /**
   * What the invariant promises: every URL ever put on the frontier is a
   * page of the graph, and no URL was put on it twice.
   */
  lemma EnqueuedOnce(g: WebGraph, q: UrlQueue)
    requires Consistent(g, q)
    ensures forall k :: 0 <= k < |q.history| ==> q.history[k].url in g.urlBlacklist
    ensures forall k, l :: 0 <= k < l < |q.history| ==> q.history[k].url != q.history[l].url
  {
    forall k | 0 <= k < |q.history|
      ensures q.history[k].url in g.urlBlacklist && g.urlBlacklist[q.history[k].url] == k
    {
      assert q.history[k].url == g.Urls()[k];
    }
  }

  /** A URL handed to the frontier is a page of the graph. */
  lemma EnqueuedIsPage(g: WebGraph, q: UrlQueue, k: nat)
    requires Consistent(g, q) && k < |q.history|
    ensures q.history[k].url in g.urlBlacklist
  {
    assert q.history[k].url == g.Urls()[k];
  }

  /** What the loop body did with one href. */
  datatype LinkOutcome = Rejected | NewEdge | NewPage

  /**
   * webgraph_add_link from page s to the known page d, seen on the graph's
   * in-lists and out-degrees: s goes at the tail of d's in-list and s
   * counts one more outgoing link; nothing else changes.
   */
  ghost predicate EdgeAdded(ins0: seq<seq<int>>, outs0: seq<int>, ins: seq<seq<int>>, outs: seq<int>, s: int, d: int)
  {
    0 <= s < |outs0| && 0 <= d < |ins0| &&
    ins == ins0[d := ins0[d] + [s]] && outs == outs0[s := outs0[s] + 1]
  }

  /**
   * webgraph_add_url then webgraph_add_link from page s: the new page's
   * in-list is [s], its out-degree 0, and s counts one more outgoing link.
   */
  ghost predicate PageAdded(ins0: seq<seq<int>>, outs0: seq<int>, ins: seq<seq<int>>, outs: seq<int>, s: int)
  {
    0 <= s < |outs0| && ins == ins0 + [[s]] && outs == (outs0 + [0])[s := outs0[s] + 1]
  }

  /**
   * One round of the link loop, given url_merged (the href already merged
   * against page and simplified): a link the filter rejects changes
   * nothing; a link already in the graph gets one more in-link (from page)
   * and page one more out-link; a new link becomes a page, gets its
   * in-link, and is put on the frontier with no referer and depth 0.
   */
  method RegisterLink(g: WebGraph, q: UrlQueue, page: seq<char>, link: seq<char>, sane: seq<char> -> bool)
    returns (outcome: LinkOutcome)
    requires Consistent(g, q) && page in g.urlBlacklist
    modifies g.Repr, q.Repr
    ensures Consistent(g, q) && fresh(g.Repr - old(g.Repr)) && fresh(q.Repr - old(q.Repr))
    ensures outcome == if !sane(link) then Rejected else if link in old(g.urlBlacklist) then NewEdge else NewPage
    ensures q.history == old(q.history) + (if outcome == NewPage then [Entry(link, [], 0)] else [])
    ensures q.dequeued == old(q.dequeued)
    ensures g.Urls() == old(g.Urls()) + (if outcome == NewPage then [link] else [])
    ensures outcome == Rejected ==> g.InLists() == old(g.InLists()) && g.OutDegrees() == old(g.OutDegrees())
    ensures outcome == NewEdge ==>
      EdgeAdded(old(g.InLists()), old(g.OutDegrees()), g.InLists(), g.OutDegrees(),
                old(g.urlBlacklist)[page], old(g.urlBlacklist)[link])
    ensures outcome == NewPage ==>
      g.urlBlacklist == old(g.urlBlacklist)[link := old(g.size)] &&
      PageAdded(old(g.InLists()), old(g.OutDegrees()), g.InLists(), g.OutDegrees(), old(g.urlBlacklist)[page])
  {
    if !sane(link) {
      return Rejected;
    }
    var isNew := AddTarget(g, q, link, page);
    outcome := if isNew then NewPage else NewEdge;
  }

  /**
   * The accepted branch of the link loop: link gets an in-link from page,
   * after becoming a page and a frontier entry when the graph lacks it.
   */
  method AddTarget(g: WebGraph, q: UrlQueue, link: seq<char>, page: seq<char>) returns (isNew: bool)
    requires Consistent(g, q) && page in g.urlBlacklist
    modifies g.Repr, q.Repr
    ensures Consistent(g, q) && fresh(g.Repr - old(g.Repr)) && fresh(q.Repr - old(q.Repr))
    ensures isNew <==> link !in old(g.urlBlacklist)
    ensures q.history == old(q.history) + (if isNew then [Entry(link, [], 0)] else [])
    ensures q.dequeued == old(q.dequeued)
    ensures g.Urls() == old(g.Urls()) + (if isNew then [link] else [])
    ensures !isNew ==>
      EdgeAdded(old(g.InLists()), old(g.OutDegrees()), g.InLists(), g.OutDegrees(),
                old(g.urlBlacklist)[page], old(g.urlBlacklist)[link])
    ensures isNew ==>
      g.urlBlacklist == old(g.urlBlacklist)[link := old(g.size)] &&
      PageAdded(old(g.InLists()), old(g.OutDegrees()), g.InLists(), g.OutDegrees(), old(g.urlBlacklist)[page])
  {
    var known := g.Contains(link);
    if known {
      LinkKnownPage(g, q, link, page);
    } else {
      DiscoverPage(g, q, link, page);
    }
    isNew := !known;
  }

  /** A link the graph lacks becomes a page with an in-link from page, and a frontier entry. */
  method DiscoverPage(g: WebGraph, q: UrlQueue, link: seq<char>, page: seq<char>)
    requires Consistent(g, q) && link !in g.urlBlacklist && page in g.urlBlacklist
    modifies g.Repr, q.Repr
    ensures Consistent(g, q) && fresh(g.Repr - old(g.Repr)) && fresh(q.Repr - old(q.Repr))
    ensures q.history == old(q.history) + [Entry(link, [], 0)]
    ensures q.dequeued == old(q.dequeued)
    ensures g.Urls() == old(g.Urls()) + [link]
    ensures g.urlBlacklist == old(g.urlBlacklist)[link := old(g.size)] &&
      PageAdded(old(g.InLists()), old(g.OutDegrees()), g.InLists(), g.OutDegrees(), old(g.urlBlacklist)[page])
  {
    AddPage(g, q, link, page);
    EnqueueNewPage(g, q, link);
  }

  /** webgraph_add_link for a link already in the graph: the frontier is not touched. */
  method LinkKnownPage(g: WebGraph, q: UrlQueue, link: seq<char>, page: seq<char>)
    requires Consistent(g, q) && link in g.urlBlacklist && page in g.urlBlacklist
    modifies g.inLinks, g.numOutLinks, g.danglingPages
    ensures Consistent(g, q) && g.Repr == old(g.Repr) && g.urlBlacklist == old(g.urlBlacklist)
    ensures q.history == old(q.history) && q.dequeued == old(q.dequeued) && q.Repr == old(q.Repr)
    ensures g.Urls() == old(g.Urls())
    ensures EdgeAdded(old(g.InLists()), old(g.OutDegrees()), g.InLists(), g.OutDegrees(),
                      old(g.urlBlacklist)[page], old(g.urlBlacklist)[link])
  {
    g.IdOf(page);
    g.IdOf(link);
    g.AddLink(link, page);
  }

  /** webgraph_add_url, then webgraph_add_link from page: the frontier is not touched. */
  method AddPage(g: WebGraph, q: UrlQueue, link: seq<char>, page: seq<char>)
    requires Consistent(g, q) && link !in g.urlBlacklist && page in g.urlBlacklist
    modifies g.Repr
    ensures g.Valid() && Apart(g, q) && fresh(g.Repr - old(g.Repr))
    ensures g.urlBlacklist == old(g.urlBlacklist)[link := old(g.size)]
    ensures g.Urls() == old(g.Urls()) + [link]
    ensures PageAdded(old(g.InLists()), old(g.OutDegrees()), g.InLists(), g.OutDegrees(), old(g.urlBlacklist)[page])
  {
    ghost var src := g.urlBlacklist[page];
    ghost var ins0, outs0 := g.InLists(), g.OutDegrees();
    g.AddUrl(link);
    ghost var ins1, outs1 := g.InLists(), g.OutDegrees();
    g.AddLink(link, page);
    NewPageLinked(ins0, outs0, ins1, outs1, g.InLists(), g.OutDegrees(), src);
  }

  /** Appending an empty page, then linking s to it, is PageAdded. */
  lemma NewPageLinked(ins0: seq<seq<int>>, outs0: seq<int>, ins1: seq<seq<int>>, outs1: seq<int>,
                      ins: seq<seq<int>>, outs: seq<int>, s: int)
    requires 0 <= s < |outs0| && ins1 == ins0 + [[]] && outs1 == outs0 + [0]
    requires ins == ins1[|ins0| := ins1[|ins0|] + [s]] && outs == outs1[s := outs1[s] + 1]
    ensures PageAdded(ins0, outs0, ins, outs, s)
  {
    assert ins1[|ins0|] + [s] == [s];
    assert ins == ins0 + [[s]];
  }

  /** url_enqueue of a link just added to the graph: the graph is not touched. */
  method EnqueueNewPage(g: WebGraph, q: UrlQueue, link: seq<char>)
    requires g.Valid() && q.Valid() && Apart(g, q) && UrlsOf(q.history) + [link] == g.Urls()
    modifies q.Repr
    ensures Consistent(g, q) && fresh(q.Repr - old(q.Repr))
    ensures q.history == old(q.history) + [Entry(link, [], 0)]
    ensures q.dequeued == old(q.dequeued)
  {
    UrlsOfAppend(q.history, [Entry(link, [], 0)]);
    assert UrlsOf([Entry(link, [], 0)]) == [link];
    q.Enqueue(link, [], 0);
  }

  /** The links the hrefs of page resolve to, in order. */
  function Resolved(page: seq<char>, hrefs: seq<seq<char>>, resolve: (seq<char>, seq<char>) -> seq<char>)
    : (links: seq<seq<char>>)
    ensures |links| == |hrefs|
  {
    seq(|hrefs|, j requires 0 <= j < |hrefs| => resolve(page, hrefs[j]))
  }

  /**
   * The pages a run of the link loop over `links` adds, in order: every
   * link that passes the filter and is neither in `known` nor added
   * earlier in the run.
   */
  function Discovered(known: seq<seq<char>>, links: seq<seq<char>>, sane: seq<char> -> bool): (pages: seq<seq<char>>)
    ensures |pages| <= |links|
    ensures forall i, j :: 0 <= i < j < |pages| ==> pages[i] != pages[j]
    decreases |links|
  {
    if links == [] then []
    else
      var prior := Discovered(known, links[..|links| - 1], sane);
      var link := links[|links| - 1];
      prior + (if sane(link) && link !in known && link !in prior then [link] else [])
  }

  /** One more link extends the run's discoveries by at most that link. */
  lemma DiscoveredStep(known: seq<seq<char>>, links: seq<seq<char>>, i: nat, sane: seq<char> -> bool)
    requires i < |links|
    ensures var prior := Discovered(known, links[..i], sane);
      Discovered(known, links[..i + 1], sane) ==
        prior + (if sane(links[i]) && links[i] !in known && links[i] !in prior then [links[i]] else [])
  {
    assert links[..i + 1][..i] == links[..i];
  }

  /** Every discovered page passes the filter, was not known, and is one of the links. */
  lemma {:induction false} DiscoveredAreNew(known: seq<seq<char>>, links: seq<seq<char>>, sane: seq<char> -> bool)
    ensures forall u :: u in Discovered(known, links, sane) ==> sane(u) && u !in known && u in links
    decreases |links|
  {
    if links != [] {
      var front := links[..|links| - 1];
      DiscoveredAreNew(known, front, sane);
      forall u | u in Discovered(known, links, sane)
        ensures sane(u) && u !in known && u in links
      {
        if u in Discovered(known, front, sane) {
          var j :| 0 <= j < |front| && front[j] == u;
          assert links[j] == u;
        } else {
          assert u == links[|links| - 1];
        }
      }
    }
  }

  /** No page is discovered twice. */
  lemma {:induction false} DiscoveredDistinct(known: seq<seq<char>>, links: seq<seq<char>>, sane: seq<char> -> bool)
    ensures forall k, l :: 0 <= k < l < |Discovered(known, links, sane)| ==>
      Discovered(known, links, sane)[k] != Discovered(known, links, sane)[l]
    decreases |links|
  {
    if links != [] {
      var front := links[..|links| - 1];
      DiscoveredDistinct(known, front, sane);
      var prior := Discovered(known, front, sane);
      var r := Discovered(known, links, sane);
      forall k, l | 0 <= k < l < |r|
        ensures r[k] != r[l]
      {
        if l < |prior| {
          assert r[k] == prior[k] && r[l] == prior[l];
        } else {
          assert r[k] == prior[k] && r[k] in prior;
        }
      }
    }
  }

  /** Every link that passes the filter ends up known or discovered. */
  lemma {:induction false} DiscoveredComplete(known: seq<seq<char>>, links: seq<seq<char>>, sane: seq<char> -> bool)
    ensures var r := Discovered(known, links, sane);
      forall j :: 0 <= j < |links| && sane(links[j]) ==> links[j] in known || links[j] in r
    decreases |links|
  {
    if links != [] {
      var front := links[..|links| - 1];
      DiscoveredComplete(known, front, sane);
      forall j | 0 <= j < |front|
        ensures links[j] == front[j]
      {
      }
    }
  }

  /** The frontier entries for new pages: no referer, depth 0. */
  function Queued(links: seq<seq<char>>): (r: seq<Entry>)
    ensures |r| == |links|
    ensures forall k :: 0 <= k < |links| ==> r[k] == Entry(links[k], [], 0)
  {
    if links == [] then [] else Queued(links[..|links| - 1]) + [Entry(links[|links| - 1], [], 0)]
  }

  /** Dropping a prefix no longer than h from h + x drops it from h alone. */
  lemma DropAppend<T>(h: seq<T>, x: seq<T>, d: nat)
    requires d <= |h|
    ensures (h + x)[d..] == h[d..] + x
  {
    assert |(h + x)[d..]| == |h[d..] + x|;
    forall k | 0 <= k < |h[d..] + x|
      ensures (h + x)[d..][k] == (h[d..] + x)[k]
    {
    }
  }

  /** Queueing one more page appends its entry. */
  lemma QueuedAppend(links: seq<seq<char>>, link: seq<char>)
    ensures Queued(links + [link]) == Queued(links) + [Entry(link, [], 0)]
  {
    assert (links + [link])[..|links|] == links;
  }

  /** n copies of the page id x. */
  function Repeat(x: int, n: nat): (r: seq<int>)
    ensures |r| == n && forall k :: 0 <= k < n ==> r[k] == x
  {
    if n == 0 then [] else Repeat(x, n - 1) + [x]
  }

  /**
   * How many links of a run of the link loop pass the filter and are u:
   * the edges the run adds into the page u.
   */
  function Hits(links: seq<seq<char>>, u: seq<char>, sane: seq<char> -> bool): (n: nat)
    ensures n <= |links|
    ensures n > 0 ==> sane(u) && exists j :: 0 <= j < |links| && links[j] == u
    decreases |links|
  {
    if links == [] then 0
    else
      var front, last := links[..|links| - 1], links[|links| - 1];
      assert forall j :: 0 <= j < |front| ==> front[j] == links[j];
      Hits(front, u, sane) + (if sane(last) && last == u then 1 else 0)
  }

  /** How many links of a run pass the filter: the edges the run adds out of its page. */
  function SaneCount(links: seq<seq<char>>, sane: seq<char> -> bool): (n: nat)
    ensures n <= |links|
    decreases |links|
  {
    if links == [] then 0
    else SaneCount(links[..|links| - 1], sane) + (if sane(links[|links| - 1]) then 1 else 0)
  }

  /**
   * The in-lists after a run of the link loop on page s over links, for
   * the pages urls: each page (old, with in-list ins0[d], or added by the
   * run, starting empty) has s appended once per accepted link to it.
   */
  function ExpectedIns(ins0: seq<seq<int>>, urls: seq<seq<char>>, s: int, links: seq<seq<char>>,
                       sane: seq<char> -> bool): (ins: seq<seq<int>>)
    ensures |ins| == |urls|
  {
    seq(|urls|, d requires 0 <= d < |urls| =>
      (if d < |ins0| then ins0[d] else []) + Repeat(s, Hits(links, urls[d], sane)))
  }

  /**
   * The out-degrees after that run, for n pages: s counts one more
   * outgoing link per accepted link; every other page keeps its degree
   * (0 for a page the run added).
   */
  function ExpectedOuts(outs0: seq<int>, n: nat, s: int, links: seq<seq<char>>, sane: seq<char> -> bool)
    : (outs: seq<int>)
    ensures |outs| == n
  {
    seq(n, d requires 0 <= d < n =>
      (if d < |outs0| then outs0[d] else 0) + (if d == s then SaneCount(links, sane) else 0))
  }

  /**
   * The edges a run of the link loop on page s over links adds, read off
   * the graph: from in-lists ins0 and out-degrees outs0 to urls, ins and
   * outs.
   */
  ghost predicate EdgesAdded(ins0: seq<seq<int>>, outs0: seq<int>, urls: seq<seq<char>>, ins: seq<seq<int>>,
                             outs: seq<int>, s: int, links: seq<seq<char>>, sane: seq<char> -> bool)
  {
    |ins0| == |outs0| <= |urls| && 0 <= s < |outs0| &&
    ins == ExpectedIns(ins0, urls, s, links, sane) && outs == ExpectedOuts(outs0, |urls|, s, links, sane)
  }

  /** A run over no links adds no edge. */
  lemma EdgesNone(ins: seq<seq<int>>, outs: seq<int>, urls: seq<seq<char>>, s: int, sane: seq<char> -> bool)
    requires |ins| == |outs| == |urls| && 0 <= s < |outs|
    ensures EdgesAdded(ins, outs, urls, ins, outs, s, [], sane)
  {
    var e := ExpectedIns(ins, urls, s, [], sane);
    forall d | 0 <= d < |urls|
      ensures e[d] == ins[d]
    {
      assert Repeat(s, Hits([], urls[d], sane)) == [];
    }
    assert e == ins;
    assert ExpectedOuts(outs, |urls|, s, [], sane) == outs;
  }

  /** A link the filter rejects adds no edge. */
  lemma EdgesRejected(ins0: seq<seq<int>>, outs0: seq<int>, urls: seq<seq<char>>, ins: seq<seq<int>>,
                      outs: seq<int>, s: int, links: seq<seq<char>>, link: seq<char>, sane: seq<char> -> bool)
    requires EdgesAdded(ins0, outs0, urls, ins, outs, s, links, sane) && !sane(link)
    ensures EdgesAdded(ins0, outs0, urls, ins, outs, s, links + [link], sane)
  {
    var all := links + [link];
    assert all[..|links|] == links;
    var e, e' := ExpectedIns(ins0, urls, s, links, sane), ExpectedIns(ins0, urls, s, all, sane);
    forall d | 0 <= d < |urls|
      ensures e'[d] == e[d]
    {
      assert Hits(all, urls[d], sane) == Hits(links, urls[d], sane);
    }
    assert e' == e;
    assert SaneCount(all, sane) == SaneCount(links, sane);
    assert ExpectedOuts(outs0, |urls|, s, all, sane) == ExpectedOuts(outs0, |urls|, s, links, sane);
  }

  /** An accepted link to the known page d (the one page with that url) adds the edge s -> d. */
  lemma EdgesKnown(ins0: seq<seq<int>>, outs0: seq<int>, urls: seq<seq<char>>, ins: seq<seq<int>>,
                   outs: seq<int>, s: int, links: seq<seq<char>>, link: seq<char>, sane: seq<char> -> bool,
                   d: int, ins': seq<seq<int>>, outs': seq<int>)
    requires EdgesAdded(ins0, outs0, urls, ins, outs, s, links, sane) && sane(link)
    requires 0 <= d < |urls| && urls[d] == link && forall k :: 0 <= k < |urls| && urls[k] == link ==> k == d
    requires EdgeAdded(ins, outs, ins', outs', s, d)
    ensures EdgesAdded(ins0, outs0, urls, ins', outs', s, links + [link], sane)
  {
    var all := links + [link];
    assert all[..|links|] == links;
    var e' := ExpectedIns(ins0, urls, s, all, sane);
    forall k | 0 <= k < |urls|
      ensures ins'[k] == e'[k]
    {
      if k == d {
        var h := Hits(links, link, sane);
        assert Hits(all, link, sane) == h + 1;
        assert Repeat(s, h + 1) == Repeat(s, h) + [s];
      } else {
        assert Hits(all, urls[k], sane) == Hits(links, urls[k], sane);
      }
    }
    assert ins' == e';
    var o' := ExpectedOuts(outs0, |urls|, s, all, sane);
    assert SaneCount(all, sane) == SaneCount(links, sane) + 1;
    forall k | 0 <= k < |urls|
      ensures outs'[k] == o'[k]
    {
    }
    assert outs' == o';
  }

  /** An accepted link the graph lacks becomes a page whose one in-link is s. */
  lemma EdgesNewPage(ins0: seq<seq<int>>, outs0: seq<int>, urls: seq<seq<char>>, ins: seq<seq<int>>,
                     outs: seq<int>, s: int, links: seq<seq<char>>, link: seq<char>, sane: seq<char> -> bool,
                     ins': seq<seq<int>>, outs': seq<int>)
    requires EdgesAdded(ins0, outs0, urls, ins, outs, s, links, sane) && sane(link) && link !in urls
    requires forall j :: 0 <= j < |links| && sane(links[j]) ==> links[j] in urls
    requires PageAdded(ins, outs, ins', outs', s)
    ensures EdgesAdded(ins0, outs0, urls + [link], ins', outs', s, links + [link], sane)
  {
    var all, urls' := links + [link], urls + [link];
    assert all[..|links|] == links;
    assert Hits(links, link, sane) == 0;
    var e' := ExpectedIns(ins0, urls', s, all, sane);
    forall k | 0 <= k < |urls'|
      ensures ins'[k] == e'[k]
    {
      if k == |urls| {
        assert Hits(all, link, sane) == 1;
        assert Repeat(s, 1) == [s];
      } else {
        assert urls'[k] == urls[k] != link;
        assert Hits(all, urls[k], sane) == Hits(links, urls[k], sane);
      }
    }
    assert ins' == e';
    var o' := ExpectedOuts(outs0, |urls'|, s, all, sane);
    assert SaneCount(all, sane) == SaneCount(links, sane) + 1;
    forall k | 0 <= k < |urls'|
      ensures outs'[k] == o'[k]
    {
      if k < |urls| {
        assert outs[k] == ExpectedOuts(outs0, |urls|, s, links, sane)[k];
      }
    }
    assert outs' == o';
  }

  /**
   * One round of the link loop, on values: the edges of the run over
   * links[..i] become those of the run over links[..i + 1], and every
   * accepted link seen so far is a page.
   */
  lemma EdgesStep(ins0: seq<seq<int>>, outs0: seq<int>, s: int, links: seq<seq<char>>, i: nat, sane: seq<char> -> bool,
                  urls1: seq<seq<char>>, ins1: seq<seq<int>>, outs1: seq<int>,
                  urls2: seq<seq<char>>, ins2: seq<seq<int>>, outs2: seq<int>, outcome: LinkOutcome, d: int)
    requires i < |links|
    requires EdgesAdded(ins0, outs0, urls1, ins1, outs1, s, links[..i], sane)
    requires forall j :: 0 <= j < i && sane(links[j]) ==> links[j] in urls1
    requires outcome == if !sane(links[i]) then Rejected else if links[i] in urls1 then NewEdge else NewPage
    requires outcome == Rejected ==> urls2 == urls1 && ins2 == ins1 && outs2 == outs1
    requires outcome == NewEdge ==>
      urls2 == urls1 && 0 <= d < |urls1| && urls1[d] == links[i] &&
      (forall k :: 0 <= k < |urls1| && urls1[k] == links[i] ==> k == d) && EdgeAdded(ins1, outs1, ins2, outs2, s, d)
    requires outcome == NewPage ==> urls2 == urls1 + [links[i]] && PageAdded(ins1, outs1, ins2, outs2, s)
    ensures EdgesAdded(ins0, outs0, urls2, ins2, outs2, s, links[..i + 1], sane)
    ensures forall j :: 0 <= j < i + 1 && sane(links[j]) ==> links[j] in urls2
  {
    assert links[..i + 1] == links[..i] + [links[i]];
    if outcome == Rejected {
      EdgesRejected(ins0, outs0, urls1, ins1, outs1, s, links[..i], links[i], sane);
    } else if outcome == NewEdge {
      EdgesKnown(ins0, outs0, urls1, ins1, outs1, s, links[..i], links[i], sane, d, ins2, outs2);
    } else {
      forall j | 0 <= j < i && sane(links[..i][j])
        ensures links[..i][j] in urls1
      {
        assert links[..i][j] == links[j];
      }
      EdgesNewPage(ins0, outs0, urls1, ins1, outs1, s, links[..i], links[i], sane, ins2, outs2);
    }
  }

  /**
   * The link loop of retrieve_webpage over the hrefs found on page, each
   * turned into a link by `resolve` (the crawler passes Resolve): the
   * graph gains exactly the discovered pages, in order, and each is put
   * on the frontier once.
   */
  method RegisterLinks(g: WebGraph, q: UrlQueue, page: seq<char>, hrefs: seq<seq<char>>,
                       resolve: (seq<char>, seq<char>) -> seq<char>, sane: seq<char> -> bool)
    requires Consistent(g, q) && page in g.urlBlacklist
    modifies g.Repr, q.Repr
    ensures Consistent(g, q) && fresh(g.Repr - old(g.Repr)) && fresh(q.Repr - old(q.Repr))
    ensures var added := Discovered(old(g.Urls()), Resolved(page, hrefs, resolve), sane);
      g.Urls() == old(g.Urls()) + added && q.history == old(q.history) + Queued(added) &&
      q.dequeued == old(q.dequeued)
    ensures EdgesAdded(old(g.InLists()), old(g.OutDegrees()), g.Urls(), g.InLists(), g.OutDegrees(),
                       old(g.urlBlacklist)[page], Resolved(page, hrefs, resolve), sane)
  {
    ghost var urls0, h0 := g.Urls(), q.history;
    ghost var ins0, outs0, s := g.InLists(), g.OutDegrees(), g.urlBlacklist[page];
    ghost var links := Resolved(page, hrefs, resolve);
    g.IdOf(page);
    EdgesNone(ins0, outs0, urls0, s, sane);
    assert links[..0] == [];
    LinkLoop(g, q, page, hrefs, resolve, sane, urls0, links, h0, ins0, outs0, s);
    assert links[..|hrefs|] == links;
  }

  /**
   * The link loop after its first i rounds, on the values of the graph
   * (urls, in-lists, out-degrees) and of the frontier's history: the
   * pages discovered and queued so far, the edges added so far, and every
   * accepted link seen so far a page.
   */
  ghost predicate RoundsDone(urls0: seq<seq<char>>, h0: seq<Entry>, ins0: seq<seq<int>>, outs0: seq<int>, s: int,
                             links: seq<seq<char>>, sane: seq<char> -> bool, i: nat,
                             urls: seq<seq<char>>, history: seq<Entry>, ins: seq<seq<int>>, outs: seq<int>)
  {
    i <= |links| &&
    urls == urls0 + Discovered(urls0, links[..i], sane) &&
    history == h0 + Queued(Discovered(urls0, links[..i], sane)) &&
    EdgesAdded(ins0, outs0, urls, ins, outs, s, links[..i], sane) &&
    forall j :: 0 <= j < i && sane(links[j]) ==> links[j] in urls
  }

  /** The loop of RegisterLinks, from the state before its first round. */
  method LinkLoop(g: WebGraph, q: UrlQueue, page: seq<char>, hrefs: seq<seq<char>>,
                  resolve: (seq<char>, seq<char>) -> seq<char>, sane: seq<char> -> bool,
                  ghost urls0: seq<seq<char>>, ghost links: seq<seq<char>>, ghost h0: seq<Entry>,
                  ghost ins0: seq<seq<int>>, ghost outs0: seq<int>, ghost s: int)
    requires links == Resolved(page, hrefs, resolve)
    requires Consistent(g, q) && page in g.urlBlacklist && g.urlBlacklist[page] == s
    requires RoundsDone(urls0, h0, ins0, outs0, s, links, sane, 0, g.Urls(), q.history, g.InLists(), g.OutDegrees())
    modifies g.Repr, q.Repr
    ensures Consistent(g, q) && fresh(g.Repr - old(g.Repr)) && fresh(q.Repr - old(q.Repr))
    ensures q.dequeued == old(q.dequeued)
    ensures RoundsDone(urls0, h0, ins0, outs0, s, links, sane, |hrefs|, g.Urls(), q.history, g.InLists(), g.OutDegrees())
  {
    var i := 0;
    while i < |hrefs|
      invariant 0 <= i <= |hrefs|
      invariant Consistent(g, q) && page in g.urlBlacklist && g.urlBlacklist[page] == s
      invariant fresh(g.Repr - old(g.Repr))
      invariant fresh(q.Repr - old(q.Repr))
      invariant q.dequeued == old(q.dequeued)
      invariant RoundsDone(urls0, h0, ins0, outs0, s, links, sane, i, g.Urls(), q.history, g.InLists(), g.OutDegrees())
    {
      var link := resolve(page, hrefs[i]);
      LinkRound(g, q, page, link, sane, urls0, links, i, h0, ins0, outs0, s);
      i := i + 1;
    }
  }

  /**
   * One round of RegisterLinks: link is links[i]; the discoveries and the
   * edges of the run grow from links[..i] to links[..i + 1].
   */
  method LinkRound(g: WebGraph, q: UrlQueue, page: seq<char>, link: seq<char>, sane: seq<char> -> bool,
                   ghost urls0: seq<seq<char>>, ghost links: seq<seq<char>>, ghost i: nat, ghost h0: seq<Entry>,
                   ghost ins0: seq<seq<int>>, ghost outs0: seq<int>, ghost s: int)
    requires i < |links| && link == links[i]
    requires Consistent(g, q) && page in g.urlBlacklist && g.urlBlacklist[page] == s
    requires RoundsDone(urls0, h0, ins0, outs0, s, links, sane, i, g.Urls(), q.history, g.InLists(), g.OutDegrees())
    modifies g.Repr, q.Repr
    ensures Consistent(g, q) && page in g.urlBlacklist && g.urlBlacklist[page] == s
    ensures fresh(g.Repr - old(g.Repr)) && fresh(q.Repr - old(q.Repr))
    ensures q.dequeued == old(q.dequeued)
    ensures RoundsDone(urls0, h0, ins0, outs0, s, links, sane, i + 1, g.Urls(), q.history, g.InLists(), g.OutDegrees())
  {
    ghost var urls1, ins1, outs1 := g.Urls(), g.InLists(), g.OutDegrees();
    ghost var d := if link in g.urlBlacklist then g.urlBlacklist[link] else 0;
    g.KnownIffListed(link);
    if link in g.urlBlacklist {
      g.IdOf(link);
    }
    var outcome := RegisterNext(g, q, page, link, sane, urls0, links, i, h0);
    EdgesStep(ins0, outs0, s, links, i, sane, urls1, ins1, outs1, g.Urls(), g.InLists(), g.OutDegrees(), outcome, d);
  }

  /**
   * One round of RegisterLinks: link is links[i]; the discoveries of the
   * run grow from links[..i] to links[..i + 1], and the graph gains the
   * edge RegisterLink reports.
   */
  method RegisterNext(g: WebGraph, q: UrlQueue, page: seq<char>, link: seq<char>, sane: seq<char> -> bool,
                      ghost urls0: seq<seq<char>>, ghost links: seq<seq<char>>, ghost i: nat, ghost h0: seq<Entry>)
    returns (outcome: LinkOutcome)
    requires i < |links| && link == links[i]
    requires Consistent(g, q) && page in g.urlBlacklist
    requires g.Urls() == urls0 + Discovered(urls0, links[..i], sane)
    requires q.history == h0 + Queued(Discovered(urls0, links[..i], sane))
    modifies g.Repr, q.Repr
    ensures Consistent(g, q) && page in g.urlBlacklist && g.urlBlacklist[page] == old(g.urlBlacklist)[page]
    ensures fresh(g.Repr - old(g.Repr)) && fresh(q.Repr - old(q.Repr))
    ensures g.Urls() == urls0 + Discovered(urls0, links[..i + 1], sane)
    ensures q.history == h0 + Queued(Discovered(urls0, links[..i + 1], sane))
    ensures q.dequeued == old(q.dequeued)
    ensures outcome == if !sane(link) then Rejected else if link in old(g.urlBlacklist) then NewEdge else NewPage
    ensures g.Urls() == old(g.Urls()) + (if outcome == NewPage then [link] else [])
    ensures outcome == Rejected ==> g.InLists() == old(g.InLists()) && g.OutDegrees() == old(g.OutDegrees())
    ensures outcome == NewEdge ==>
      EdgeAdded(old(g.InLists()), old(g.OutDegrees()), g.InLists(), g.OutDegrees(),
                old(g.urlBlacklist)[page], old(g.urlBlacklist)[link])
    ensures outcome == NewPage ==>
      PageAdded(old(g.InLists()), old(g.OutDegrees()), g.InLists(), g.OutDegrees(), old(g.urlBlacklist)[page])
  {
    g.KnownIffListed(link);
    g.IdOf(page);
    ghost var s := g.urlBlacklist[page];
    ghost var urls1, h1 := g.Urls(), q.history;
    outcome := RegisterLink(g, q, page, link, sane);
    DiscoveredStep(urls0, links, i, sane);
    NextStep(urls0, Discovered(urls0, links[..i], sane), h0, link, sane, urls1, h1, g.Urls(), q.history, outcome);
    assert g.Urls()[s] == page;
    g.KnownIffListed(page);
    g.IdOf(page);
  }

  /** The bookkeeping of RegisterNext on values. */
  lemma NextStep(urls0: seq<seq<char>>, prior: seq<seq<char>>, h0: seq<Entry>, link: seq<char>, sane: seq<char> -> bool,
                 urls1: seq<seq<char>>, h1: seq<Entry>, urls2: seq<seq<char>>, h2: seq<Entry>, outcome: LinkOutcome)
    requires urls1 == urls0 + prior && h1 == h0 + Queued(prior)
    requires outcome == if !sane(link) then Rejected else if link in urls1 then NewEdge else NewPage
    requires urls2 == urls1 + (if outcome == NewPage then [link] else [])
    requires h2 == h1 + (if outcome == NewPage then [Entry(link, [], 0)] else [])
    ensures var next := prior + (if sane(link) && link !in urls0 && link !in prior then [link] else []);
      urls2 == urls0 + next && h2 == h0 + Queued(next)
  {
    if outcome == NewPage {
      assert sane(link) && link !in urls0 && link !in prior;
      QueuedAppend(prior, link);
    } else {
      assert !(sane(link) && link !in urls0 && link !in prior);
      assert urls2 == urls0 + prior && h2 == h0 + Queued(prior);
    }
  }


  // ---------------------------------------------------------------------
  // The seed (submit/main.c:208-236) and one retrieve_webpage call
  // (submit/main.c:48-203)
  // ---------------------------------------------------------------------

  /** The seed page and its depth. */
  const SeedUrl: seq<char> := "http://10.108.106.36/pcourse/index.html"
  const SeedDepth: int := 1
  /** The capacity webgraph_new is given. */
  const GraphCapacity: int := 500000

  /**
   * main before the dispatch loop: an empty frontier, a graph with room
   * for 500000 pages, then the seed as page 0 and as the one waiting entry.
   */
  method Seed() returns (g: WebGraph, q: UrlQueue)
    ensures Consistent(g, q) && fresh(g.Repr) && fresh(q.Repr)
    ensures g.Urls() == [SeedUrl] && g.maxSize == GraphCapacity
    ensures q.history == [Entry(SeedUrl, [], SeedDepth)] && q.Contents() == [Entry(SeedUrl, [], SeedDepth)]
  {
    q := new UrlQueue();
    g := new WebGraph(GraphCapacity);
    g.AddUrl(SeedUrl);
    q.Enqueue(SeedUrl, [], SeedDepth);
  }

  /**
   * retrieve_webpage after a successful dequeue of url (a page of the
   * graph): fetch it; only a page that comes back whole has its links
   * registered. Every other outcome leaves graph and frontier as they were.
   */
  method CrawlPage(g: WebGraph, q: UrlQueue, url: seq<char>, connected: bool, s: Http.Stream,
                   extract: seq<char> -> seq<seq<char>>, sane: seq<char> -> bool) returns (f: Fetch)
    requires Consistent(g, q) && url in g.urlBlacklist && s.Valid()
    requires s !in g.Repr && s !in q.Repr
    modifies g.Repr, q.Repr, s
    ensures Consistent(g, q) && fresh(g.Repr - old(g.Repr)) && fresh(q.Repr - old(q.Repr)) && s.Valid()
    ensures f == FetchSpec(url, connected, old(s.data[s.pos..]), s.burst, s.endsInError)
    ensures var added := if f.Page? then Discovered(old(g.Urls()), Resolved(url, extract(f.content), Resolve), sane) else [];
      g.Urls() == old(g.Urls()) + added && q.Contents() == old(q.Contents()) + Queued(added)
    ensures !f.Page? ==> g.InLists() == old(g.InLists()) && g.OutDegrees() == old(g.OutDegrees())
    ensures f.Page? ==>
      EdgesAdded(old(g.InLists()), old(g.OutDegrees()), g.Urls(), g.InLists(), g.OutDegrees(),
                 old(g.urlBlacklist)[url], Resolved(url, extract(f.content), Resolve), sane)
  {
    f := FetchPage(url, connected, s);
    RegisterFetched(g, q, url, f, extract, sane);
  }

  /** What retrieve_webpage does with the outcome f of fetching url. */
  method RegisterFetched(g: WebGraph, q: UrlQueue, url: seq<char>, f: Fetch,
                         extract: seq<char> -> seq<seq<char>>, sane: seq<char> -> bool)
    requires Consistent(g, q) && url in g.urlBlacklist
    modifies g.Repr, q.Repr
    ensures Consistent(g, q) && fresh(g.Repr - old(g.Repr)) && fresh(q.Repr - old(q.Repr))
    ensures var added := if f.Page? then Discovered(old(g.Urls()), Resolved(url, extract(f.content), Resolve), sane) else [];
      g.Urls() == old(g.Urls()) + added && q.Contents() == old(q.Contents()) + Queued(added)
    ensures !f.Page? ==> g.InLists() == old(g.InLists()) && g.OutDegrees() == old(g.OutDegrees())
    ensures f.Page? ==>
      EdgesAdded(old(g.InLists()), old(g.OutDegrees()), g.Urls(), g.InLists(), g.OutDegrees(),
                 old(g.urlBlacklist)[url], Resolved(url, extract(f.content), Resolve), sane)
  {
    if f.Page? {
      RegisterContent(g, q, url, extract(f.content), sane);
    }
  }

  /** The link loop over the hrefs of a fetched page, as the frontier sees it. */
  method RegisterContent(g: WebGraph, q: UrlQueue, url: seq<char>, hrefs: seq<seq<char>>, sane: seq<char> -> bool)
    requires Consistent(g, q) && url in g.urlBlacklist
    modifies g.Repr, q.Repr
    ensures Consistent(g, q) && fresh(g.Repr - old(g.Repr)) && fresh(q.Repr - old(q.Repr))
    ensures var added := Discovered(old(g.Urls()), Resolved(url, hrefs, Resolve), sane);
      g.Urls() == old(g.Urls()) + added && q.history == old(q.history) + Queued(added) &&
      q.dequeued == old(q.dequeued) && q.Contents() == old(q.Contents()) + Queued(added)
    ensures EdgesAdded(old(g.InLists()), old(g.OutDegrees()), g.Urls(), g.InLists(), g.OutDegrees(),
                       old(g.urlBlacklist)[url], Resolved(url, hrefs, Resolve), sane)
  {
    g.KnownIffListed(url);
    ghost var h := q.history;
    RegisterLinks(g, q, url, hrefs, Resolve, sane);
    DropAppend(h, q.history[|h|..], q.dequeued);
  }

  /**
   * submit/main.c:77-92: url_dequeue, then the idle bit of worker
   * `thread`: set when the frontier was empty, and then check_exit decides
   * `exit`; cleared when a URL came off it. The graph is not touched, and
   * the URL handed out is a page of the graph.
   */
  method TakeUrl(g: WebGraph, q: UrlQueue, flags: IdleFlags, thread: nat) returns (ok: bool, url: seq<char>, exit: bool)
    requires Consistent(g, q) && flags.Valid() && thread < NumThreads
    requires flags.queueEmpty !in g.Repr && flags.queueEmpty !in q.Repr
    modifies q, flags.queueEmpty
    ensures Consistent(g, q) && q.Repr == old(q.Repr) && q.history == old(q.history)
    ensures ok <==> old(q.Contents()) != []
    ensures ok ==> (url == old(q.Contents())[0].url && url in g.urlBlacklist &&
      q.Contents() == old(q.Contents())[1..] && q.dequeued == old(q.dequeued) + 1)
    ensures !ok ==> q.Contents() == old(q.Contents()) && q.dequeued == old(q.dequeued)
    ensures flags.Valid() && (flags.Idle(thread) <==> !ok)
    ensures forall t :: 0 <= t < NumThreads && t != thread ==> (flags.Idle(t) <==> old(flags.Idle(t)))
    ensures exit <==> !ok && forall t :: 0 <= t < NumThreads ==> flags.Idle(t)
  {
    var referer, depth;
    ok, url, referer, depth := q.Dequeue();
    flags.NoteDequeue(thread, ok);
    if ok {
      EnqueuedIsPage(g, q, q.dequeued - 1);
      exit := false;
    } else {
      exit := flags.CheckExit();
    }
  }

  /**
   * One retrieve_webpage call by worker `thread`. url_dequeue; on an empty
   * frontier the worker's idle bit is set and check_exit decides `exit`;
   * otherwise the bit is cleared and the dequeued page is crawled. The
   * connection attempt, the server's bytes and the link extractor are
   * parameters.
   */
  method RetrieveWebpage(g: WebGraph, q: UrlQueue, flags: IdleFlags, thread: nat, connected: bool, s: Http.Stream,
                         extract: seq<char> -> seq<seq<char>>, sane: seq<char> -> bool)
    returns (exit: bool, fetched: Option<Fetch>)
    requires Consistent(g, q) && flags.Valid() && thread < NumThreads && s.Valid()
    requires {flags, flags.queueEmpty, s} !! g.Repr + q.Repr
    modifies g.Repr, q.Repr, flags.queueEmpty, s
    ensures Consistent(g, q) && fresh(g.Repr - old(g.Repr)) && fresh(q.Repr - old(q.Repr))
    ensures flags.Valid() && (flags.Idle(thread) <==> old(q.Contents()) == [])
    ensures forall t :: 0 <= t < NumThreads && t != thread ==> (flags.Idle(t) <==> old(flags.Idle(t)))
    ensures exit <==> old(q.Contents()) == [] && forall t :: 0 <= t < NumThreads ==> flags.Idle(t)
    ensures fetched.None? <==> old(q.Contents()) == []
    ensures fetched.None? ==> g.Urls() == old(g.Urls()) && q.Contents() == old(q.Contents())
    ensures fetched.Some? ==>
      var url := old(q.Contents())[0].url;
      fetched.value == FetchSpec(url, connected, old(s.data[s.pos..]), s.burst, s.endsInError) &&
      var added := if fetched.value.Page? then Discovered(old(g.Urls()), Resolved(url, extract(fetched.value.content), Resolve), sane) else [];
      g.Urls() == old(g.Urls()) + added && q.Contents() == old(q.Contents())[1..] + Queued(added)
    ensures fetched.None? || !fetched.value.Page? ==>
      g.InLists() == old(g.InLists()) && g.OutDegrees() == old(g.OutDegrees())
    ensures fetched.Some? && fetched.value.Page? ==>
      var url := old(q.Contents())[0].url;
      url in old(g.urlBlacklist) &&
      EdgesAdded(old(g.InLists()), old(g.OutDegrees()), g.Urls(), g.InLists(), g.OutDegrees(),
                 old(g.urlBlacklist)[url], Resolved(url, extract(fetched.value.content), Resolve), sane)
  {
    var ok, url;
    ok, url, exit := TakeUrl(g, q, flags, thread);
    ghost var bits := flags.queueEmpty[..];
    fetched := CrawlTaken(g, q, ok, url, connected, s, extract, sane);
    assert flags.queueEmpty[..] == bits;
  }

  /** The rest of retrieve_webpage after url_dequeue: crawl url when one was taken. */
  method CrawlTaken(g: WebGraph, q: UrlQueue, ok: bool, url: seq<char>, connected: bool, s: Http.Stream,
                    extract: seq<char> -> seq<seq<char>>, sane: seq<char> -> bool)
    returns (fetched: Option<Fetch>)
    requires Consistent(g, q) && (ok ==> url in g.urlBlacklist) && s.Valid()
    requires s !in g.Repr && s !in q.Repr
    modifies g.Repr, q.Repr, s
    ensures Consistent(g, q) && fresh(g.Repr - old(g.Repr)) && fresh(q.Repr - old(q.Repr))
    ensures fetched.None? <==> !ok
    ensures !ok ==> g.Urls() == old(g.Urls()) && q.Contents() == old(q.Contents())
    ensures ok ==>
      fetched.value == FetchSpec(url, connected, old(s.data[s.pos..]), s.burst, s.endsInError) &&
      var added := if fetched.value.Page? then Discovered(old(g.Urls()), Resolved(url, extract(fetched.value.content), Resolve), sane) else [];
      g.Urls() == old(g.Urls()) + added && q.Contents() == old(q.Contents()) + Queued(added)
    ensures !ok || !fetched.value.Page? ==> g.InLists() == old(g.InLists()) && g.OutDegrees() == old(g.OutDegrees())
    ensures ok && fetched.value.Page? ==>
      EdgesAdded(old(g.InLists()), old(g.OutDegrees()), g.Urls(), g.InLists(), g.OutDegrees(),
                 old(g.urlBlacklist)[url], Resolved(url, extract(fetched.value.content), Resolve), sane)
  {
    if ok {
      var f := CrawlPage(g, q, url, connected, s, extract, sane);
      fetched := Some(f);
    } else {
      fetched := None;
    }
  }
}
