/**
 * The response framing of submit/http.c: finding the blank line that ends
 * the head (http_resp_header_terminator), reading the head off the socket
 * (read_http_resp_head), splitting it into header lines (resp_new), the
 * lookups on those lines (resp_status, resp_header_locate,
 * resp_header_copy) and reading the body (read_resp_body).
 *
 * The socket is a Stream: a fixed byte sequence with a read position.
 * recv(MSG_PEEK) returns bytes without consuming them, read consumes them;
 * each call delivers at most `burst` bytes, so a head can arrive over
 * several peeks. After the last byte a call returns 0 (the peer closed) or,
 * when `endsInError`, -1.
 */
module Http {
  import opened Wrappers
  import opened Utils

  /** HTTP_RESPONSE_MAX_SIZE: the largest head buffer read_http_resp_head allocates. */
  const HttpResponseMaxSize: nat := 65536
  /** The head buffer's first size. */
  const InitialHeadSize: nat := 512

  class Stream {
    const data: seq<char>
    var pos: nat
    const burst: nat
    const endsInError: bool

    ghost predicate Valid()
      reads this
    {
      pos <= |data| && burst >= 1
    }

    constructor (data: seq<char>, burst: nat, endsInError: bool)
      requires burst >= 1
      ensures Valid() && pos == 0
      ensures this.data == data && this.burst == burst && this.endsInError == endsInError
    {
      this.data := data;
      this.burst := burst;
      this.endsInError := endsInError;
      pos := 0;
    }

    /** The bytes one call asking for n would deliver. */
    function Available(n: nat): (k: nat)
      reads this
      requires Valid()
      ensures k <= n && k <= burst && pos + k <= |data|
    {
      Min(n, Min(burst, |data| - pos))
    }

    /** The stream has nothing left and reports an error instead of end of file. */
    predicate Failed()
      reads this
    {
      pos == |data| && endsInError
    }

    /** sock_peek: up to n bytes, without consuming them. */
    method Peek(n: nat) returns (bytes: seq<char>, r: int)
      requires Valid()
      ensures Failed() ==> r == -1 && bytes == []
      ensures !Failed() ==> r == Available(n) && bytes == data[pos..pos + r]
    {
      if Failed() {
        return [], -1;
      }
      r := Available(n);
      bytes := data[pos..pos + r];
    }

    /** sock_read: up to n bytes, consumed. */
    method Read(n: nat) returns (bytes: seq<char>, r: int)
      requires Valid()
      modifies this
      ensures Valid()
      ensures old(Failed()) ==> r == -1 && bytes == [] && pos == old(pos)
      ensures !old(Failed()) ==> r == old(Available(n)) && pos == old(pos) + r && bytes == data[old(pos)..pos]
    {
      if Failed() {
        return [], -1;
      }
      r := Available(n);
      bytes := data[pos..pos + r];
      pos := pos + r;
    }
  }

  // ---------------------------------------------------------------------
  // http_resp_header_terminator (submit/http.c:188-213)
  // ---------------------------------------------------------------------

  /**
   * The length of a blank line that starts with the '\n' at p and lies
   * wholly inside s: 3 for "\n\r\n", 2 for "\n\n", 0 when there is none.
   */
  function BlankLen(s: seq<char>, p: nat): (n: nat)
    ensures n == 0 || n == 2 || n == 3
    ensures n > 0 ==> p + n <= |s| && s[p] == '\n'
  {
    if p + 3 <= |s| && s[p] == '\n' && s[p + 1] == '\r' && s[p + 2] == '\n' then 3
    else if p + 2 <= |s| && s[p] == '\n' && s[p + 1] == '\n' then 2
    else 0
  }

  /** The first p >= q at which a blank line starts in s. */
  function FirstBlank(s: seq<char>, q: nat): (r: Option<nat>)
    ensures r.Some? ==> q <= r.value < |s| && BlankLen(s, r.value) > 0
    ensures r.Some? ==> forall p :: q <= p < r.value ==> BlankLen(s, p) == 0
    ensures r.None? ==> forall p :: q <= p < |s| ==> BlankLen(s, p) == 0
    decreases |s| - q
  {
    if q >= |s| then None
    else if BlankLen(s, q) > 0 then Some(q)
    else FirstBlank(s, q + 1)
  }

  /**
   * Where the head ends: just past the first blank line at or after q, so
   * just past a '\n'; none when no blank line starts at or after q.
   */
  function TerminatorEnd(s: seq<char>, q: nat): (r: Option<nat>)
    ensures r.Some? ==> q + 2 <= r.value <= |s| && s[r.value - 1] == '\n'
    ensures r.None? ==> forall p :: q <= p < |s| ==> BlankLen(s, p) == 0
  {
    match FirstBlank(s, q)
    case None => None
    case Some(p) => Some(p + BlankLen(s, p))
  }

  /** No blank line lies wholly inside s. */
  predicate NoBlank(s: seq<char>) {
    forall p :: 0 <= p < |s| ==> BlankLen(s, p) == 0
  }

  /** A blank line wholly inside a prefix is the same blank line in the whole. */
  lemma BlankLenPrefix(s: seq<char>, n: nat, p: nat)
    requires n <= |s|
    ensures BlankLen(s[..n], p) > 0 ==> BlankLen(s, p) == BlankLen(s[..n], p)
    ensures p + 3 <= n ==> BlankLen(s, p) == BlankLen(s[..n], p)
    ensures p + BlankLen(s, p) <= n ==> BlankLen(s, p) == BlankLen(s[..n], p)
  {
  }

  /** A prefix of a text without blank lines has none either. */
  lemma NoBlankPrefix(s: seq<char>, n: nat)
    requires NoBlank(s) && n <= |s|
    ensures NoBlank(s[..n])
  {
    forall p | 0 <= p < n
      ensures BlankLen(s[..n], p) == 0
    {
      BlankLenPrefix(s, n, p);
    }
  }

  /**
   * The first blank line of a prefix is the first blank line of the whole:
   * nothing the prefix rules out can reappear once more bytes arrive.
   */
  lemma {:induction false} FirstBlankPrefix(s: seq<char>, n: nat, q: nat)
    requires n <= |s| && FirstBlank(s[..n], q).Some?
    ensures FirstBlank(s, q) == FirstBlank(s[..n], q)
    ensures BlankLen(s, FirstBlank(s, q).value) == BlankLen(s[..n], FirstBlank(s, q).value)
    decreases n - q
  {
    var w := s[..n];
    var p := FirstBlank(w, q).value;
    BlankLenPrefix(s, n, p);
    if q < p {
      assert BlankLen(w, q) == 0;
      assert q + 3 <= n by {
        assert BlankLen(w, p) > 0;
      }
      BlankLenPrefix(s, n, q);
      assert FirstBlank(w, q) == FirstBlank(w, q + 1);
      FirstBlankPrefix(s, n, q + 1);
    }
  }

  /**
   * With no blank line inside the first `tail` bytes, a scan started two
   * bytes before `tail` finds what a scan from the start finds.
   */
  lemma {:induction false} ScanFromTailSuffices(w: seq<char>, tail: nat, q: nat)
    requires tail <= |w| && NoBlank(w[..tail])
    requires q <= ScanStart(tail)
    ensures FirstBlank(w, q) == FirstBlank(w, ScanStart(tail))
    decreases ScanStart(tail) - q
  {
    if q < ScanStart(tail) {
      BlankLenPrefix(w, tail, q);
      assert BlankLen(w[..tail], q) == 0;
      ScanFromTailSuffices(w, tail, q + 1);
    }
  }

  /**
   * A whole text whose first `n` bytes hold no blank line: its head, if it
   * has one, ends after n.
   */
  lemma TerminatorBeyondPrefix(s: seq<char>, n: nat)
    requires n <= |s| && NoBlank(s[..n])
    ensures TerminatorEnd(s, 0).Some? ==> TerminatorEnd(s, 0).value > n
  {
    if FirstBlank(s, 0).Some? {
      BlankLenPrefix(s, n, FirstBlank(s, 0).value);
    }
  }

  /** Where the scan starts: two bytes before the new data, or at the start. */
  function ScanStart(tail: nat): (q: nat)
    ensures q <= tail && q + 2 >= tail
  {
    if tail < 2 then 0 else tail - 2
  }

  /** The first-peek check: the bytes peeked agree with "HTTP" over min(peeklen, 4) bytes. */
  predicate HttpPrefixOk(w: seq<char>) {
    var m := Min(|w|, 4);
    w[..m] == "HTTP"[..m]
  }

  /**
   * http_resp_header_terminator over the buffer w, whose bytes from tail
   * on are the ones just peeked. On the first peek (tail == 0) a response
   * that does not start like "HTTP" ends at once (index 0); otherwise the
   * result is the end of the first blank line starting at or after
   * ScanStart(tail).
   */
  method HeaderTerminator(w: seq<char>, tail: nat) returns (r: Option<nat>)
    requires tail <= |w|
    ensures tail == 0 && !HttpPrefixOk(w) ==> r == Some(0)
    ensures !(tail == 0 && !HttpPrefixOk(w)) ==> r == TerminatorEnd(w, ScanStart(tail))
  {
    if tail == 0 && !HttpPrefixOk(w) {
      return Some(0);
    }
    var p := ScanStart(tail);
    while p + 2 < |w|
      invariant ScanStart(tail) <= p
      invariant FirstBlank(w, ScanStart(tail)) == FirstBlank(w, p)
    {
      if w[p] == '\n' {
        if w[p + 1] == '\r' && w[p + 2] == '\n' {
          return Some(p + 3);
        } else if w[p + 1] == '\n' {
          return Some(p + 2);
        }
      }
      p := p + 1;
    }
    if At(w, p) == '\n' && At(w, p + 1) == '\n' {
      return Some(p + 2);
    }
    return None;
  }

  // ---------------------------------------------------------------------
  // read_http_resp_head (submit/http.c:215-289)
  // ---------------------------------------------------------------------

  /** What read_http_resp_head hands back: a head, or NULL with errno 0, a socket errno, or ENOMEM. */
  datatype HeadResult = Head(head: seq<char>) | NoResponse | IoError | TooLarge

  /** How many bytes the first peek can see: the 512-byte buffer less its terminator. */
  function FirstPeekLen(d: seq<char>, burst: nat): (n: nat)
    ensures n <= |d| && n < InitialHeadSize
  {
    Min(InitialHeadSize - 1, Min(burst, |d|))
  }

  /** The first peek looks like the start of an HTTP response. */
  predicate LooksHttp(d: seq<char>, burst: nat) {
    HttpPrefixOk(d[..FirstPeekLen(d, burst)])
  }

  /**
   * The outcome of read_http_resp_head on a connection that will deliver
   * d, at most `burst` bytes per call, and then end (with an error when
   * endsInError). A head is everything up to and including the first
   * blank line; it must fit the 65536-byte buffer with its terminating NUL.
   */
  function HeadSpec(d: seq<char>, burst: nat, endsInError: bool): (r: HeadResult)
    ensures r.Head? ==> |r.head| <= |d| && r.head == d[..|r.head|] && |r.head| < HttpResponseMaxSize
    ensures r == NoResponse ==> d == [] && !endsInError
  {
    if |d| == 0 then (if endsInError then IoError else NoResponse)
    else if !LooksHttp(d, burst) then Head([])
    else match TerminatorEnd(d, 0)
      case Some(k) => if k < HttpResponseMaxSize then Head(d[..k]) else TooLarge
      case None =>
        if |d| >= HttpResponseMaxSize - 1 then TooLarge
        else if endsInError then IoError
        else Head(d)
  }

  /**
   * What a scan of the window d[..n] finds, when the first `tail` bytes
   * hold no blank line: the scan from ScanStart(tail) agrees with one from
   * the start; a blank line it finds is the first of all of d and ends past
   * tail; when it finds none, the window holds none and d's head (if any)
   * ends past n.
   */
  lemma WindowScan(d: seq<char>, tail: nat, n: nat)
    requires tail <= n <= |d| && NoBlank(d[..tail])
    ensures TerminatorEnd(d[..n], ScanStart(tail)) == TerminatorEnd(d[..n], 0)
    ensures TerminatorEnd(d[..n], 0).Some? ==>
      TerminatorEnd(d[..n], 0) == TerminatorEnd(d, 0) && tail < TerminatorEnd(d, 0).value <= n
    ensures TerminatorEnd(d[..n], 0).None? ==>
      NoBlank(d[..n]) && (TerminatorEnd(d, 0).None? || TerminatorEnd(d, 0).value > n)
  {
    var w := d[..n];
    assert w[..tail] == d[..tail];
    ScanFromTailSuffices(w, tail, 0);
    if FirstBlank(w, 0).Some? {
      FirstBlankPrefix(d, n, 0);
      TerminatorBeyondPrefix(w, tail);
    } else {
      TerminatorBeyondPrefix(d, n);
    }
  }

  /** A text with no blank line has no head terminator. */
  lemma NoBlankNoTerminator(d: seq<char>)
    requires NoBlank(d)
    ensures TerminatorEnd(d, 0).None?
  {
    assert d[..|d|] == d;
    TerminatorBeyondPrefix(d, |d|);
  }

  /** Copy bytes into a at offset `at` (what the read into hunk + tail does). */
  method Place(a: array<char>, at: nat, bytes: seq<char>)
    requires at + |bytes| <= a.Length
    modifies a
    ensures a[..at + |bytes|] == old(a[..at]) + bytes
    ensures a[at + |bytes|..] == old(a[at + |bytes|..])
  {
    forall i | 0 <= i < |bytes| {
      a[at + i] := bytes[i];
    }
  }

  /** The head ends at e, found once the window reached past it. */
  lemma HeadFound(d: seq<char>, burst: nat, endsInError: bool, e: nat)
    requires 0 < e < HttpResponseMaxSize && LooksHttp(d, burst) && TerminatorEnd(d, 0) == Some(e)
    ensures HeadSpec(d, burst, endsInError) == Head(d[..e])
  {
  }

  /** All of d was read, with no blank line in it, and the peer closed. */
  lemma HeadAtEof(d: seq<char>, burst: nat, endsInError: bool)
    requires |d| < HttpResponseMaxSize - 1 && NoBlank(d)
    requires |d| > 0 ==> LooksHttp(d, burst)
    ensures endsInError ==> HeadSpec(d, burst, endsInError) == IoError
    ensures !endsInError && |d| > 0 ==> HeadSpec(d, burst, endsInError) == Head(d)
    ensures !endsInError && |d| == 0 ==> HeadSpec(d, burst, endsInError) == NoResponse
  {
    NoBlankNoTerminator(d);
  }

  /** The buffer filled at its cap with no blank line in it. */
  lemma HeadAtCap(d: seq<char>, burst: nat, endsInError: bool)
    requires HttpResponseMaxSize - 1 <= |d| && LooksHttp(d, burst)
    requires NoBlank(d[..HttpResponseMaxSize - 1])
    ensures HeadSpec(d, burst, endsInError) == TooLarge
  {
    TerminatorBeyondPrefix(d, HttpResponseMaxSize - 1);
  }

  /** The first peek saw something other than the start of "HTTP". */
  lemma HeadNotHttp(d: seq<char>, burst: nat, endsInError: bool)
    requires !HttpPrefixOk(d[..FirstPeekLen(d, burst)])
    ensures HeadSpec(d, burst, endsInError) == Head([])
  {
  }

  /**
   * One peek of read_http_resp_head and the terminator scan over the
   * window it completes: either the stream failed (at its end), or the
   * window is d[..tail + pklen] and `end` is what the scan found.
   */
  method PeekForTerminator(s: Stream, hunk: array<char>, tail: nat, bufsize: nat, ghost d: seq<char>, ghost pos0: nat)
      returns (failed: bool, pklen: nat, end: Option<nat>)
    requires s.Valid() && s.pos == pos0 + tail && d == s.data[pos0..] && tail <= |d|
    requires tail < bufsize - 1 && hunk.Length == bufsize && hunk[..tail] == d[..tail]
    requires NoBlank(d[..tail])
    ensures failed <==> s.Failed()
    ensures failed ==> tail == |d| && s.endsInError
    ensures !failed ==> pklen == s.Available(bufsize - 1 - tail) && tail + pklen <= |d|
    ensures !failed && tail == 0 && !HttpPrefixOk(d[..pklen]) ==> end == Some(0)
    ensures !failed && !(tail == 0 && !HttpPrefixOk(d[..pklen])) ==>
      end == TerminatorEnd(d[..tail + pklen], 0)
    ensures !failed && !(tail == 0 && !HttpPrefixOk(d[..pklen])) && end.Some? ==>
      end == TerminatorEnd(d, 0) && tail < end.value <= tail + pklen
    ensures !failed && end.None? ==>
      NoBlank(d[..tail + pklen]) && (TerminatorEnd(d, 0).None? || TerminatorEnd(d, 0).value > tail + pklen)
  {
    var peeked, r := s.Peek(bufsize - 1 - tail);
    if r < 0 {
      return true, 0, None;
    }
    failed, pklen := false, r;
    var n := tail + pklen;
    assert hunk[..tail] + peeked == d[..n];
    assert tail == 0 ==> d[..n][..0] == [] && d[..pklen] == d[..n];
    WindowScan(d, tail, n);
    end := HeaderTerminator(hunk[..tail] + peeked, tail);
  }

  /**
   * The read of read_http_resp_head: up to `remain` bytes into hunk at
   * tail, which is then NUL-terminated.
   */
  method ReadInto(s: Stream, hunk: array<char>, tail: nat, remain: nat, ghost d: seq<char>, ghost pos0: nat)
      returns (rdlen: int)
    requires s.Valid() && s.pos == pos0 + tail && d == s.data[pos0..] && tail <= |d|
    requires tail + remain < hunk.Length && hunk[..tail] == d[..tail]
    modifies s, hunk
    ensures s.Valid()
    ensures old(s.Failed()) ==> rdlen == -1 && s.pos == old(s.pos)
    ensures !old(s.Failed()) ==> (rdlen == old(s.Available(remain)) && s.pos == old(s.pos) + rdlen &&
      hunk[..tail + rdlen] == d[..tail + rdlen] && hunk[tail + rdlen] == '\0')
  {
    var bytes;
    bytes, rdlen := s.Read(remain);
    if rdlen < 0 {
      return;
    }
    Place(hunk, tail, bytes);
    assert d[..tail + rdlen] == d[..tail] + bytes;
    hunk[tail + rdlen] := '\0';
    assert hunk[..tail + rdlen] == d[..tail + rdlen];
  }

  /** What holds between iterations of read_http_resp_head's loop. */
  ghost predicate HeadLoopInv(s: Stream, hunk: array<char>, tail: nat, bufsize: nat, d: seq<char>, pos0: nat)
    reads s, hunk
  {
    s.Valid() && s.pos == pos0 + tail && d == s.data[pos0..] && tail <= |d| &&
    InitialHeadSize <= bufsize <= HttpResponseMaxSize && tail < bufsize - 1 &&
    (tail == 0 ==> bufsize == InitialHeadSize) &&
    hunk.Length == bufsize && hunk[..tail] == d[..tail] &&
    (tail > 0 ==> hunk[tail] == '\0' && LooksHttp(d, s.burst)) &&
    NoBlank(d[..tail])
  }

  /**
   * One pass of read_http_resp_head's loop: it either ends the call with
   * the outcome HeadSpec describes, or reads at least one byte and keeps
   * the loop's invariant (growing the buffer when it filled).
   */
  method HeadLoopStep(s: Stream, hunk: array<char>, tail: nat, bufsize: nat, ghost d: seq<char>, ghost pos0: nat)
      returns (done: Option<HeadResult>, hunk': array<char>, tail': nat, bufsize': nat)
    requires HeadLoopInv(s, hunk, tail, bufsize, d, pos0)
    modifies s, hunk
    ensures s.Valid()
    ensures done.Some? ==> done.value == HeadSpec(d, s.burst, s.endsInError)
    ensures done.Some? && done.value.Head? ==> s.pos == pos0 + |done.value.head|
    ensures done.None? ==> HeadLoopInv(s, hunk', tail', bufsize', d, pos0) && tail' > tail
    ensures hunk' == hunk || fresh(hunk')
  {
    hunk', tail', bufsize' := hunk, tail, bufsize;
    var failed, pklen, end := PeekForTerminator(s, hunk, tail, bufsize, d, pos0);
    if failed {
      assert d[..tail] == d;
      HeadAtEof(d, s.burst, s.endsInError);
      done := Some(IoError);
    } else if end.Some? && end.value == tail {
      HeadNotHttp(d, s.burst, s.endsInError);
      hunk[tail] := '\0';
      done := Some(Head(hunk[..tail]));
    } else {
      var remain: nat;
      if end.Some? {
        remain := end.value - tail;
        // The window holds the terminator, so the buffer already has room for it.
        assert bufsize - 1 >= tail + remain;
      } else {
        remain := pklen;
      }
      var rdlen := ReadInto(s, hunk, tail, remain, d, pos0);
      if rdlen < 0 {
        done := Some(IoError);
      } else {
        tail' := tail + rdlen;
        if rdlen == 0 && tail' == 0 {
          assert d == [];
          done := Some(NoResponse);
        } else if rdlen == 0 {
          assert d[..tail'] == d;
          HeadAtEof(d, s.burst, s.endsInError);
          done := Some(Head(hunk[..tail']));
        } else if end.Some? && rdlen == remain {
          HeadFound(d, s.burst, s.endsInError, tail');
          done := Some(Head(hunk[..tail']));
        } else {
          assert tail == 0 ==> pklen == FirstPeekLen(d, s.burst);
          done, hunk', bufsize' := GrowWhenFull(s, hunk, tail', bufsize, d, pos0);
        }
      }
    }
  }

  /**
   * The end of a pass of read_http_resp_head's loop: a buffer filled to
   * its last byte doubles (up to 65536) or, already at the cap, ends the
   * call with ENOMEM.
   */
  method GrowWhenFull(s: Stream, hunk: array<char>, tail: nat, bufsize: nat, ghost d: seq<char>, ghost pos0: nat)
      returns (done: Option<HeadResult>, hunk': array<char>, bufsize': nat)
    requires s.Valid() && s.pos == pos0 + tail && d == s.data[pos0..] && 0 < tail <= |d|
    requires InitialHeadSize <= bufsize <= HttpResponseMaxSize && tail <= bufsize - 1
    requires hunk.Length == bufsize && hunk[..tail] == d[..tail] && hunk[tail] == '\0'
    requires LooksHttp(d, s.burst) && NoBlank(d[..tail])
    ensures done.Some? ==> done.value == TooLarge == HeadSpec(d, s.burst, s.endsInError)
    ensures done.None? ==> HeadLoopInv(s, hunk', tail, bufsize', d, pos0)
    ensures hunk' == hunk || fresh(hunk')
  {
    hunk', bufsize' := hunk, bufsize;
    if tail == bufsize - 1 {
      if bufsize >= HttpResponseMaxSize {
        HeadAtCap(d, s.burst, s.endsInError);
        return Some(TooLarge), hunk', bufsize';
      }
      bufsize' := Min(2 * bufsize, HttpResponseMaxSize);
      hunk' := Realloc(hunk, bufsize', '\0');
    }
    done := None;
  }

  /**
   * read_http_resp_head: peek at what the buffer can take, look for the
   * end of the head, read exactly up to it (or all that was peeked), and
   * double the buffer from 512 up to 65536 when it fills. The head it
   * returns keeps its blank line; nothing past the head is consumed.
   */
  method ReadHttpRespHead(s: Stream) returns (r: HeadResult)
    requires s.Valid()
    modifies s
    ensures s.Valid()
    ensures r == HeadSpec(old(s.data[s.pos..]), s.burst, s.endsInError)
    ensures r.Head? ==> s.pos == old(s.pos) + |r.head|
  {
    ghost var d := s.data[s.pos..];
    ghost var pos0 := s.pos;
    var bufsize: nat := InitialHeadSize;
    var hunk := new char[bufsize];
    var tail: nat := 0;
    while true
      invariant fresh(hunk) && HeadLoopInv(s, hunk, tail, bufsize, d, pos0)
      decreases |d| - tail
    {
      var done;
      done, hunk, tail, bufsize := HeadLoopStep(s, hunk, tail, bufsize, d, pos0);
      if done.Some? {
        return done.value;
      }
    }
  }

  /**
   * A head read whole ends with its blank line ("\n\n" or "\n\r\n") and
   * holds no earlier one: it stops at the first blank line.
   */
  lemma HeadEndsAtFirstBlankLine(d: seq<char>, burst: nat, endsInError: bool, k: nat)
    requires LooksHttp(d, burst) && TerminatorEnd(d, 0) == Some(k) && k < HttpResponseMaxSize
    ensures HeadSpec(d, burst, endsInError) == Head(d[..k])
    ensures (k >= 2 && d[k - 2..k] == "\n\n") || (k >= 3 && d[k - 3..k] == "\n\r\n")
    ensures NoBlank(d[..k - 1])
  {
    HeadOfTerminator(d, burst, endsInError, k);
    TerminatorEndShape(d, k);
    TerminatorEndFirst(d, k);
  }

  /** The first blank line ends in "\n\n" or "\n\r\n". */
  lemma TerminatorEndShape(d: seq<char>, k: nat)
    requires TerminatorEnd(d, 0) == Some(k)
    ensures (k >= 2 && d[k - 2..k] == "\n\n") || (k >= 3 && d[k - 3..k] == "\n\r\n")
  {
    var p := FirstBlank(d, 0).value;
    assert k == p + BlankLen(d, p);
    TerminatorShape(d, p, k);
  }

  /** No blank line ends before the first one. */
  lemma TerminatorEndFirst(d: seq<char>, k: nat)
    requires TerminatorEnd(d, 0) == Some(k)
    ensures 0 < k <= |d| && NoBlank(d[..k - 1])
  {
    var p := FirstBlank(d, 0).value;
    assert k == p + BlankLen(d, p);
    NoBlankBeforeTerminator(d, p);
  }

  /** A reply that looks like HTTP and has its blank line within the cap yields the head through it. */
  lemma HeadOfTerminator(d: seq<char>, burst: nat, endsInError: bool, k: nat)
    requires LooksHttp(d, burst) && TerminatorEnd(d, 0) == Some(k) && k < HttpResponseMaxSize
    ensures HeadSpec(d, burst, endsInError) == Head(d[..k])
  {
    assert |d| > 0;
  }

  /** The blank line found at p ends in "\n\n" or "\n\r\n". */
  lemma TerminatorShape(d: seq<char>, p: nat, k: nat)
    requires BlankLen(d, p) > 0 && k == p + BlankLen(d, p)
    ensures (k >= 2 && d[k - 2..k] == "\n\n") || (k >= 3 && d[k - 3..k] == "\n\r\n")
  {
    if BlankLen(d, p) == 2 {
      assert d[p] == '\n' && d[p + 1] == '\n';
      assert d[k - 2..k] == [d[p], d[p + 1]];
    } else {
      assert d[p] == '\n' && d[p + 1] == '\r' && d[p + 2] == '\n';
      assert d[k - 3..k] == [d[p], d[p + 1], d[p + 2]];
    }
  }

  /** Cutting the last byte of the terminator leaves no blank line at all. */
  lemma NoBlankBeforeTerminator(d: seq<char>, p: nat)
    requires BlankLen(d, p) > 0 && forall q :: 0 <= q < p ==> BlankLen(d, q) == 0
    ensures NoBlank(d[..p + BlankLen(d, p) - 1])
  {
    var n := p + BlankLen(d, p) - 1;
    var w := d[..n];
    forall q | 0 <= q < |w|
      ensures BlankLen(w, q) == 0
    {
      if q < p {
        BlankLenPrefix(d, n, q);
      } else if q == p {
        assert q + BlankLen(d, p) > |w|;
        if BlankLen(d, p) == 3 {
          assert w[q + 1] == '\r';
        }
      } else {
        assert BlankLen(d, p) == 3 && q == p + 1 && w[q] == '\r';
      }
    }
  }

  /**
   * Once the first peek has at least four bytes to compare, how the bytes
   * are split across peeks does not change the outcome.
   */
  lemma HeadIndependentOfBurst(d: seq<char>, b1: nat, b2: nat, endsInError: bool)
    requires b1 >= 4 && b2 >= 4
    ensures HeadSpec(d, b1, endsInError) == HeadSpec(d, b2, endsInError)
  {
    var m := Min(|d|, 4);
    assert d[..FirstPeekLen(d, b1)][..m] == d[..m] == d[..FirstPeekLen(d, b2)][..m];
  }

  /**
   * With one-byte peeks only the first byte is held against "HTTP": a
   * response starting "HXYZ" is read as a head, where a larger peek would
   * have returned an empty one.
   */
  lemma FirstPeekSeesOneByte()
    ensures HeadSpec("HXYZ\n\n", 1, false) == Head("HXYZ\n\n")
    ensures HeadSpec("HXYZ\n\n", 4, false) == Head([])
  {
    var d := "HXYZ\n\n";
    assert d[..1] == "H";
    assert FirstPeekLen(d, 4) == 4;
    assert !HttpPrefixOk(d[..4]) by {
      assert d[..4][..4][1] != "HTTP"[..4][1];
    }
    assert BlankLen(d, 4) == 2;
    assert forall p :: 0 <= p < 4 ==> BlankLen(d, p) == 0;
    assert FirstBlank(d, 0) == Some(4);
    assert d[..6] == d;
  }

  // ---------------------------------------------------------------------
  // resp_new (submit/http.c:139-163)
  // ---------------------------------------------------------------------

  /**
   * response_t: the head text and the start of each header line (the
   * status line first). `headers` is None when the head was empty (the
   * NULL the calloc leaves); the NULL closing the list is implicit.
   */
  datatype Response = Response(data: seq<char>, headers: Option<seq<nat>>)

  /** The entry that closes the list: the end of the text, or an empty line. */
  predicate IsStop(head: seq<char>, hdr: nat) {
    At(head, hdr) == '\0' || (At(head, hdr) == '\r' && At(head, hdr + 1) == '\n') || At(head, hdr) == '\n'
  }

  /**
   * Just past the '\n' that ends the line at hdr, or the NUL that ends the
   * C string: strchr gives up at the first NUL, and strlen stops on it.
   */
  function SkipLine(head: seq<char>, hdr: nat): (n: nat)
    requires hdr <= |head|
    ensures hdr <= n <= |head|
    ensures At(head, hdr) != '\0' ==> hdr < n
    ensures At(head, n) == '\0' || (hdr < n && head[n - 1] == '\n')
    ensures forall i :: hdr <= i < n - 1 ==> head[i] != '\n' && head[i] != '\0'
  {
    var z := MemChr(head, '\0', hdr, |head|);
    var e := MemChr(head, '\n', hdr, z);
    if e < z then e + 1 else z
  }

  /** A line starting with space or tab continues the one before (folding). */
  predicate Folded(head: seq<char>, n: nat) {
    At(head, n) == ' ' || At(head, n) == '\t'
  }

  /** From a line start n, skip every folded continuation line. */
  function FoldEnd(head: seq<char>, n: nat): (m: nat)
    requires n <= |head|
    ensures n <= m <= |head| && !Folded(head, m)
    decreases |head| - n
  {
    if Folded(head, n) then FoldEnd(head, SkipLine(head, n)) else n
  }

  /** The start of the header line after the one at hdr. */
  function NextHeaderStart(head: seq<char>, hdr: nat): (n: nat)
    requires hdr <= |head|
  {
    FoldEnd(head, SkipLine(head, hdr))
  }

  /** The header-line starts from hdr on, up to and including the stop entry. */
  function HeaderStarts(head: seq<char>, hdr: nat): (hs: seq<nat>)
    requires hdr <= |head|
    ensures |hs| >= 1 && hs[0] == hdr
    decreases |head| - hdr
  {
    if IsStop(head, hdr) then [hdr]
    else [hdr] + HeaderStarts(head, NextHeaderStart(head, hdr))
  }

  /**
   * What resp_new builds from a head: the head itself, and a header list
   * exactly when the head is not empty, which starts at the first byte and
   * increases within the head.
   */
  function RespSpec(head: seq<char>): (r: Response)
    ensures r.data == head && WellFormed(r)
    ensures r.headers.None? <==> At(head, 0) == '\0'
    ensures r.headers.Some? ==> r.headers.value[0] == 0
  {
    if At(head, 0) == '\0' then Response(head, None)
    else
      HeaderListShape(head);
      Response(head, Some(HeaderStarts(head, 0)))
  }

  /** The do-while of resp_new: past the line at hdr and every folded line after it. */
  method SkipHeaderLine(head: seq<char>, hdr: nat) returns (next: nat)
    requires hdr <= |head|
    ensures next == NextHeaderStart(head, hdr)
    ensures At(head, hdr) != '\0' ==> hdr < next
  {
    next := hdr;
    while true
      invariant hdr <= next <= |head|
      invariant next == hdr || (hdr < next && Folded(head, next) && FoldEnd(head, next) == NextHeaderStart(head, hdr))
      decreases |head| - next
    {
      ghost var prev := next;
      var z := MemChr(head, '\0', next, |head|);
      var e := MemChr(head, '\n', next, z);
      if e < z {
        next := e + 1;
      } else {
        next := z;
      }
      assert next == SkipLine(head, prev);
      if !Folded(head, next) {
        break;
      }
    }
  }

  /** The list from a line that is not the last: that line, then the list from the next one. */
  lemma HeaderStartsStep(head: seq<char>, hdr: nat, next: nat)
    requires hdr <= |head| && !IsStop(head, hdr) && next == NextHeaderStart(head, hdr)
    ensures HeaderStarts(head, hdr) == [hdr] + HeaderStarts(head, next)
  {
  }

  /** headers[count++] = value, after DO_REALLOC made room for it. */
  method PushHeader(headers: array<int>, size: nat, count: nat, value: int) returns (headers': array<int>, size': nat)
    requires count <= size && headers.Length == size
    modifies headers
    ensures count < size' && headers'.Length == size'
    ensures headers'[..count + 1] == old(headers[..count]) + [value]
    ensures headers' == headers || fresh(headers')
  {
    headers', size' := DoRealloc(headers, size, count + 1, 0);
    headers'[count] := value;
    assert headers'[..count + 1] == headers'[..count] + [value];
  }

  /**
   * One turn of the loop of resp_new: push hdr, then stop at the end of the
   * text or an empty line, or move on to the next header line.
   */
  method CollectStep(head: seq<char>, headers: array<int>, size: nat, count: nat, hdr: nat)
    returns (headers': array<int>, size': nat, count': nat, next: nat, stop: bool)
    requires hdr <= |head| && count <= size && headers.Length == size
    modifies headers
    ensures headers' == headers || fresh(headers')
    ensures count' <= size' && headers'.Length == size' && count' == count + 1
    ensures stop ==> headers'[..count'] == old(headers[..count]) + HeaderStarts(head, hdr)
    ensures !stop ==> hdr < next <= |head|
    ensures !stop ==>
      headers'[..count'] + HeaderStarts(head, next) == old(headers[..count]) + HeaderStarts(head, hdr)
  {
    ghost var done := headers[..count];
    headers', size' := PushHeader(headers, size, count, hdr);
    count' := count + 1;
    next := hdr;
    stop := IsStop(head, hdr);
    if stop {
      assert HeaderStarts(head, hdr) == [hdr];
    } else {
      next := SkipHeaderLine(head, hdr);
      HeaderStartsStep(head, hdr, next);
      assert done + [hdr] + HeaderStarts(head, next) == done + HeaderStarts(head, hdr);
    }
  }

  /**
   * The loop of resp_new: collect the start of each header line, growing
   * the list with DO_REALLOC, until an entry at the end of the text or at
   * an empty line.
   */
  method CollectHeaders(head: seq<char>) returns (headers: array<int>, size: nat, count: nat)
    ensures fresh(headers) && count <= size && headers.Length == size
    ensures headers[..count] == HeaderStarts(head, 0)
  {
    size := 0;
    count := 0;
    headers := new int[0];
    var hdr: nat := 0;
    while true
      invariant hdr <= |head| && count <= size && fresh(headers) && headers.Length == size
      invariant headers[..count] + HeaderStarts(head, hdr) == HeaderStarts(head, 0)
      decreases |head| - hdr
    {
      var stop;
      headers, size, count, hdr, stop := CollectStep(head, headers, size, count, hdr);
      if stop {
        break;
      }
    }
  }

  /** resp_new: an empty head has no header list; any other is split into lines, closed by NULL (-1 here). */
  method RespNew(head: seq<char>) returns (resp: Response)
    ensures resp == RespSpec(head)
  {
    if At(head, 0) == '\0' {
      return Response(head, None);
    }
    var headers, size, count := CollectHeaders(head);
    headers, size := PushHeader(headers, size, count, -1);
    assert headers[..count] == headers[..count + 1][..count];
    var starts := Naturals(headers[..count]);
    assert starts == HeaderStarts(head, 0);
    resp := Response(head, Some(starts));
  }

  /** The entries of a list known to hold no negative value, as naturals. */
  function Naturals(a: seq<int>): (r: seq<nat>)
    requires forall i :: 0 <= i < |a| ==> a[i] >= 0
    ensures |r| == |a| && forall i :: 0 <= i < |a| ==> r[i] == a[i]
  {
    if a == [] then [] else [a[0] as nat] + Naturals(a[1..])
  }

  /**
   * The list resp_new builds from hdr on: increasing starts within the
   * text, each after the first at the line NextHeaderStart finds.
   */
  lemma {:induction false} HeaderStartsOrdered(head: seq<char>, hdr: nat)
    requires hdr <= |head|
    ensures var hs := HeaderStarts(head, hdr);
      (forall i :: 0 <= i < |hs| ==> hdr <= hs[i] <= |head|) &&
      (forall i :: 0 <= i < |hs| - 1 ==> hs[i] < hs[i + 1]) &&
      (forall i :: 0 <= i < |hs| - 1 ==> hs[i + 1] == NextHeaderStart(head, hs[i]))
    decreases |head| - hdr
  {
    if !IsStop(head, hdr) {
      var next := NextHeaderStart(head, hdr);
      HeaderStartsOrdered(head, next);
      var hs := HeaderStarts(head, hdr);
      assert hs[1..] == HeaderStarts(head, next);
    }
  }

  /** Every entry but the last starts an ordinary line; the last is the stop entry. */
  lemma {:induction false} HeaderStartsStop(head: seq<char>, hdr: nat)
    requires hdr <= |head|
    ensures var hs := HeaderStarts(head, hdr);
      (forall i :: 0 <= i < |hs| - 1 ==> !IsStop(head, hs[i])) && IsStop(head, hs[|hs| - 1])
    decreases |head| - hdr
  {
    if !IsStop(head, hdr) {
      var next := NextHeaderStart(head, hdr);
      HeaderStartsStop(head, next);
      var hs := HeaderStarts(head, hdr);
      assert hs[1..] == HeaderStarts(head, next);
    }
  }

  /** FoldEnd lands on the NUL ending the text or just after a '\n', given that it starts at one. */
  lemma {:induction false} FoldEndAfterNewline(head: seq<char>, n: nat)
    requires n <= |head| && (At(head, n) == '\0' || (n > 0 && head[n - 1] == '\n'))
    ensures var m := FoldEnd(head, n); At(head, m) == '\0' || (m > 0 && head[m - 1] == '\n')
    decreases |head| - n
  {
    if Folded(head, n) {
      FoldEndAfterNewline(head, SkipLine(head, n));
    }
  }

  /**
   * Each header line after the status line starts right after a '\n' that
   * is not followed by a space or tab (folded lines stay in their header),
   * or at the NUL that ends the text.
   */
  lemma NextHeaderStartAfterNewline(head: seq<char>, hdr: nat)
    requires hdr <= |head| && At(head, hdr) != '\0'
    ensures var n := NextHeaderStart(head, hdr);
      hdr < n <= |head| && !Folded(head, n) && (At(head, n) == '\0' || head[n - 1] == '\n')
  {
    FoldEndAfterNewline(head, SkipLine(head, hdr));
  }

  /** Well-formed header lists: increasing starts within the text, closed by a stop entry. */
  ghost predicate WellFormed(r: Response) {
    r.headers.Some? ==>
      var hs := r.headers.value;
      |hs| >= 1 && (forall i :: 0 <= i < |hs| ==> hs[i] <= |r.data|) &&
      (forall i :: 0 <= i < |hs| - 1 ==> hs[i] < hs[i + 1])
  }

  /**
   * resp_new's result: no list for an empty head; otherwise the first entry
   * is the start of the head, entries increase, and every later entry
   * starts a new unfolded line.
   */
  lemma RespNewShape(head: seq<char>)
    ensures var r := RespSpec(head);
      WellFormed(r) && r.data == head &&
      (r.headers.None? <==> At(head, 0) == '\0') &&
      (r.headers.Some? ==>
        r.headers.value[0] == 0 && IsStop(head, r.headers.value[|r.headers.value| - 1]) &&
        forall i :: 1 <= i < |r.headers.value| ==>
          var h := r.headers.value[i];
          0 < h <= |head| && !Folded(head, h) && (At(head, h) == '\0' || head[h - 1] == '\n'))
  {
    if At(head, 0) != '\0' {
      HeaderListShape(head);
    }
  }

  /** The header starts of a head, listed from its first byte. */
  lemma HeaderListShape(head: seq<char>)
    ensures var hs := HeaderStarts(head, 0);
      |hs| >= 1 && (forall i :: 0 <= i < |hs| ==> hs[i] <= |head|) &&
      (forall i :: 0 <= i < |hs| - 1 ==> hs[i] < hs[i + 1]) &&
      hs[0] == 0 && IsStop(head, hs[|hs| - 1]) &&
      forall i :: 1 <= i < |hs| ==>
        0 < hs[i] <= |head| && !Folded(head, hs[i]) && (At(head, hs[i]) == '\0' || head[hs[i] - 1] == '\n')
  {
    HeaderStartsOrdered(head, 0);
    HeaderStartsStop(head, 0);
    HeaderStartsAfterNewline(head);
  }

  /** Every header start after the first begins a new, unfolded line. */
  lemma HeaderStartsAfterNewline(head: seq<char>)
    ensures var hs := HeaderStarts(head, 0);
      forall i :: 1 <= i < |hs| ==>
        0 < hs[i] <= |head| && !Folded(head, hs[i]) && (At(head, hs[i]) == '\0' || head[hs[i] - 1] == '\n')
  {
    var hs := HeaderStarts(head, 0);
    forall i | 1 <= i < |hs|
      ensures 0 < hs[i] <= |head| && !Folded(head, hs[i]) && (At(head, hs[i]) == '\0' || head[hs[i] - 1] == '\n')
    {
      HeaderStartAt(head, 0, i);
      NextHeaderStartAfterNewline(head, hs[i - 1]);
    }
  }

  /** Entry i > 0 of the list is the line NextHeaderStart finds after entry i - 1. */
  lemma {:induction false} HeaderStartAt(head: seq<char>, hdr: nat, i: nat)
    requires hdr <= |head| && 1 <= i < |HeaderStarts(head, hdr)|
    ensures var hs := HeaderStarts(head, hdr);
      hs[i - 1] < |head| && !IsStop(head, hs[i - 1]) && hs[i] == NextHeaderStart(head, hs[i - 1])
    decreases |head| - hdr
  {
    var next := NextHeaderStart(head, hdr);
    var hs := HeaderStarts(head, hdr);
    assert !IsStop(head, hdr) && hs[1..] == HeaderStarts(head, next);
    if i > 1 {
      HeaderStartAt(head, next, i - 1);
    }
  }

  /** strlen(head): the offset of the first NUL, or the length of the text. */
  function CStrLen(head: seq<char>): (z: nat)
    ensures z <= |head| && At(head, z) == '\0'
    ensures forall i :: 0 <= i < z ==> head[i] != '\0'
  {
    MemChr(head, '\0', 0, |head|)
  }

  /** Skipping a line never passes the NUL that ends the C string. */
  lemma SkipLineWithinString(head: seq<char>, n: nat)
    requires n <= CStrLen(head)
    ensures SkipLine(head, n) <= CStrLen(head)
  {
    var z' := MemChr(head, '\0', n, |head|);
    assert z' <= CStrLen(head);
  }

  /** Nor does skipping the folded lines after a line start. */
  lemma {:induction false} FoldEndWithinString(head: seq<char>, n: nat)
    requires n <= CStrLen(head)
    ensures FoldEnd(head, n) <= CStrLen(head)
    decreases |head| - n
  {
    if Folded(head, n) {
      SkipLineWithinString(head, n);
      FoldEndWithinString(head, SkipLine(head, n));
    }
  }

  /**
   * resp_new reads the head as a C string: no header start lies past its
   * first NUL, whatever follows the NUL.
   */
  lemma {:induction false} HeaderStartsWithinString(head: seq<char>, hdr: nat)
    requires hdr <= CStrLen(head)
    ensures var hs := HeaderStarts(head, hdr);
      forall i :: 0 <= i < |hs| ==> hs[i] <= CStrLen(head)
    decreases |head| - hdr
  {
    if !IsStop(head, hdr) {
      var next := NextHeaderStart(head, hdr);
      SkipLineWithinString(head, hdr);
      FoldEndWithinString(head, SkipLine(head, hdr));
      HeaderStartsWithinString(head, next);
      var hs := HeaderStarts(head, hdr);
      assert hs[1..] == HeaderStarts(head, next);
    }
  }

  /** A NUL inside the second header line ends the list there, a line before the '\n'. */
  lemma HeaderStartsStopAtNul()
    ensures HeaderStarts("H\nAB\0C\nD\n\n", 0) == [0, 2, 4]
  {
    var head := "H\nAB\0C\nD\n\n";
    assert head[1] == '\n' && head[4] == '\0';
    assert SkipLine(head, 0) == 2;
    assert SkipLine(head, 2) == 4;
    assert HeaderStarts(head, 4) == [4];
  }

  // ---------------------------------------------------------------------
  // resp_status (submit/http.c:89-123)
  // ---------------------------------------------------------------------

  /** The first index in [p, e) whose byte is not a digit, or e. */
  function SkipDigits(s: seq<char>, p: nat, e: nat): (q: nat)
    requires p <= e <= |s|
    ensures p <= q <= e && (q == e || !IsDigit(s[q]))
    ensures forall i :: p <= i < q ==> IsDigit(s[i])
    decreases e - p
  {
    if p < e && IsDigit(s[p]) then SkipDigits(s, p + 1, e) else p
  }

  /** The first index in [p, e) whose byte is not white space, or e. */
  function SkipSpaces(s: seq<char>, p: nat, e: nat): (q: nat)
    requires p <= e <= |s|
    ensures p <= q <= e && (q == e || !IsSpace(s[q]))
    ensures forall i :: p <= i < q ==> IsSpace(s[i])
    decreases e - p
  {
    if p < e && IsSpace(s[p]) then SkipSpaces(s, p + 1, e) else p
  }

  /** Past an optional "/digits.digits" version at p. */
  function SkipVersion(s: seq<char>, p: nat, e: nat): (q: nat)
    requires p <= e <= |s|
    ensures p <= q <= e
  {
    if p < e && s[p] == '/' then
      var major := SkipDigits(s, p + 1, e);
      SkipDigits(s, if major < e && s[major] == '.' then major + 1 else major, e)
    else p
  }

  /** The value of a decimal digit. */
  function Digit(c: char): (v: int)
    requires IsDigit(c)
    ensures 0 <= v <= 9
  {
    c as int - '0' as int
  }

  /** The code the status line holds, read from the first three digits at p. */
  function StatusCode(s: seq<char>, p: nat): (code: int)
    requires p + 3 <= |s| && IsDigit(s[p]) && IsDigit(s[p + 1]) && IsDigit(s[p + 2])
    ensures 0 <= code <= 999
  {
    100 * Digit(s[p]) + 10 * Digit(s[p + 1]) + Digit(s[p + 2])
  }

  /**
   * The status a line [b, e) holds: -1 unless it starts with "HTTP" and,
   * after an optional version and white space, holds three digits;
   * otherwise the code those digits spell.
   */
  function StatusOfLine(s: seq<char>, b: nat, e: nat): (status: int)
    requires b <= e <= |s|
    ensures status == -1 || 0 <= status <= 999
  {
    if e - b < 4 || s[b..b + 4] != "HTTP" then -1
    else
      var p := SkipSpaces(s, SkipVersion(s, b + 4, e), e);
      if e - p < 3 || !IsDigit(s[p]) || !IsDigit(s[p + 1]) || !IsDigit(s[p + 2]) then -1
      else StatusCode(s, p)
  }

  /**
   * What resp_status returns: 200 for a response with no header list, -1
   * when the list holds only the status line, else the status line's code.
   */
  function StatusSpec(r: Response): (status: int)
    requires WellFormed(r)
    ensures status == 200 || status == -1 || 0 <= status <= 999
  {
    match r.headers
    case None => 200
    case Some(hs) => if |hs| < 2 then -1 else StatusOfLine(r.data, hs[0], hs[1])
  }

  /** A status line "HTTP/1.1 xyz ..." yields the code xyz. */
  lemma StatusOfHttp11Line(line: seq<char>, x: char, y: char, z: char, rest: seq<char>)
    requires line == "HTTP/1.1 " + [x, y, z] + rest && IsDigit(x) && IsDigit(y) && IsDigit(z)
    ensures StatusOfLine(line, 0, |line|) == 100 * Digit(x) + 10 * Digit(y) + Digit(z)
  {
    var e := |line|;
    assert line[..4] == "HTTP";
    assert line[4] == '/' && line[5] == '1' && line[6] == '.' && line[7] == '1' && line[8] == ' ';
    assert line[9] == x && line[10] == y && line[11] == z;
    assert SkipDigits(line, 6, e) == 6;
    assert SkipDigits(line, 5, e) == 6;
    assert SkipDigits(line, 8, e) == 8;
    assert SkipDigits(line, 7, e) == 8;
    assert SkipVersion(line, 4, e) == 8;
    assert SkipSpaces(line, 9, e) == 9;
    assert SkipSpaces(line, 8, e) == 9;
  }

  /** A status other than 200 or -1 comes from a head that starts with "HTTP". */
  lemma StatusNeedsHttp(head: seq<char>)
    requires WellFormed(RespSpec(head))
    ensures var st := StatusSpec(RespSpec(head)); st != 200 && st != -1 ==> |head| >= 4 && head[..4] == "HTTP"
  {
    RespNewShape(head);
  }

  /**
   * A reply whose first bytes are not "HTTP" is read as an empty head,
   * which has no header list, and so has status 200.
   */
  lemma NonHttpReplyHasStatus200(d: seq<char>, burst: nat, endsInError: bool)
    requires |d| > 0 && !LooksHttp(d, burst)
    ensures HeadSpec(d, burst, endsInError) == Head([])
    ensures RespSpec([]).headers.None? && StatusSpec(RespSpec([])) == 200
  {
  }

  /** while (p < end && isdigit(*p)) ++p; */
  method ScanDigits(s: seq<char>, p0: nat, end: nat) returns (p: nat)
    requires p0 <= end <= |s|
    ensures p == SkipDigits(s, p0, end)
  {
    p := p0;
    while p < end && IsDigit(s[p])
      invariant p0 <= p <= end
      invariant SkipDigits(s, p, end) == SkipDigits(s, p0, end)
    {
      p := p + 1;
    }
  }

  /** while (p < end && isspace(*p)) ++p; */
  method ScanSpaces(s: seq<char>, p0: nat, end: nat) returns (p: nat)
    requires p0 <= end <= |s|
    ensures p == SkipSpaces(s, p0, end)
  {
    p := p0;
    while p < end && IsSpace(s[p])
      invariant p0 <= p <= end
      invariant SkipSpaces(s, p, end) == SkipSpaces(s, p0, end)
    {
      p := p + 1;
    }
  }

  /** resp_status: the code on the status line, or -1 when it is malformed. */
  method RespStatus(r: Response) returns (status: int)
    requires WellFormed(r)
    ensures status == StatusSpec(r)
  {
    if r.headers.None? {
      return 200;
    }
    var hs := r.headers.value;
    if |hs| < 2 {
      return -1;
    }
    status := ParseStatusLine(r.data, hs[0], hs[1]);
  }

  /** The scan of resp_status over the status line [p, end). */
  method ParseStatusLine(s: seq<char>, p0: nat, end: nat) returns (status: int)
    requires p0 <= end <= |s|
    ensures status == StatusOfLine(s, p0, end)
  {
    var p := p0;
    if end - p < 4 || s[p..p + 4] != "HTTP" {
      return -1;
    }
    p := p + 4;
    if p < end && s[p] == '/' {
      p := ScanDigits(s, p + 1, end);
      if p < end && s[p] == '.' {
        p := p + 1;
      }
      p := ScanDigits(s, p, end);
    }
    assert p == SkipVersion(s, p0 + 4, end);
    p := ScanSpaces(s, p, end);
    if end - p < 3 || !IsDigit(s[p]) || !IsDigit(s[p + 1]) || !IsDigit(s[p + 2]) {
      return -1;
    }
    status := 100 * (s[p] as int - '0' as int) + 10 * (s[p + 1] as int - '0' as int) + (s[p + 2] as int - '0' as int);
    assert status == StatusCode(s, p);
  }

  // ---------------------------------------------------------------------
  // resp_header_locate, resp_header_get, resp_header_copy
  // (submit/http.c:22-82)
  // ---------------------------------------------------------------------

  /** Where a header was found: its list index and its trimmed value [b, e). */
  datatype Location = Found(index: nat, b: nat, e: nat) | NotFound

  /** The line [b, e) is the header `name`: the name, in any case, then ':' at once. */
  predicate NameMatches(s: seq<char>, b: nat, e: nat, name: seq<char>)
    requires b <= e <= |s|
  {
    e - b > |name| && s[b + |name|] == ':' && CaseEq(s[b..b + |name|], name)
  }

  /** The last index in (lo, hi] before which the bytes down to lo are not white space. */
  function TrimEnd(s: seq<char>, lo: nat, hi: nat): (q: nat)
    requires lo <= hi <= |s|
    ensures lo <= q <= hi && (q == lo || !IsSpace(s[q - 1]))
    ensures forall i :: q <= i < hi ==> IsSpace(s[i])
    decreases hi - lo
  {
    if lo < hi && IsSpace(s[hi - 1]) then TrimEnd(s, lo, hi - 1) else hi
  }

  /** The value of the header line [b, e) named `name`, trimmed of white space at both ends. */
  function ValueBounds(s: seq<char>, b: nat, e: nat, name: seq<char>): (r: (nat, nat))
    requires b <= e <= |s| && NameMatches(s, b, e, name)
    ensures b + |name| + 1 <= r.0 <= r.1 <= e
  {
    var vb := SkipSpaces(s, b + |name| + 1, e);
    (vb, TrimEnd(s, vb, e))
  }

  /**
   * The scan of resp_header_locate from list index i: the first line
   * before the stop entry that is the header `name`.
   */
  function LocateFrom(s: seq<char>, hs: seq<nat>, name: seq<char>, i: nat): (loc: Location)
    requires forall k :: 0 <= k < |hs| ==> hs[k] <= |s|
    requires forall k :: 0 <= k < |hs| - 1 ==> hs[k] < hs[k + 1]
    ensures loc.Found? ==> i <= loc.index && loc.index + 1 < |hs| && loc.b <= loc.e <= |s|
    decreases |hs| - i
  {
    if i + 1 >= |hs| then NotFound
    else if NameMatches(s, hs[i], hs[i + 1], name) then
      var v := ValueBounds(s, hs[i], hs[i + 1], name);
      Found(i, v.0, v.1)
    else LocateFrom(s, hs, name, i + 1)
  }

  /**
   * The first match wins: a found line is the header `name` with its
   * trimmed value and no earlier line from i is; NotFound means no line
   * from i before the stop entry is.
   */
  lemma {:induction false} LocateFromFirstMatch(s: seq<char>, hs: seq<nat>, name: seq<char>, i: nat)
    requires forall k :: 0 <= k < |hs| ==> hs[k] <= |s|
    requires forall k :: 0 <= k < |hs| - 1 ==> hs[k] < hs[k + 1]
    ensures var loc := LocateFrom(s, hs, name, i);
      (loc.Found? ==> (NameMatches(s, hs[loc.index], hs[loc.index + 1], name) &&
        (loc.b, loc.e) == ValueBounds(s, hs[loc.index], hs[loc.index + 1], name) &&
        forall k :: i <= k < loc.index ==> !NameMatches(s, hs[k], hs[k + 1], name))) &&
      (loc.NotFound? ==> forall k :: i <= k < |hs| - 1 ==> !NameMatches(s, hs[k], hs[k + 1], name))
    decreases |hs| - i
  {
    if i + 1 < |hs| && !NameMatches(s, hs[i], hs[i + 1], name) {
      LocateFromFirstMatch(s, hs, name, i + 1);
    }
  }

  /**
   * resp_header_locate: nothing without a header list or with only a
   * status line; otherwise the scan from `start` (from 1, past the status
   * line, when start is 0).
   */
  function LocateSpec(r: Response, name: seq<char>, start: nat): (loc: Location)
    requires WellFormed(r)
    ensures loc.Found? ==>
      r.headers.Some? && 1 <= loc.index && start <= loc.index && loc.index + 1 < |r.headers.value| &&
      loc.b <= loc.e <= |r.data|
  {
    match r.headers
    case None => NotFound
    case Some(hs) => if |hs| < 2 then NotFound else LocateFrom(r.data, hs, name, if start > 0 then start else 1)
  }

  /** The trimmed value has no white space at either end and lies inside its line. */
  lemma LocatedValueTrimmed(r: Response, name: seq<char>, start: nat)
    requires WellFormed(r) && LocateSpec(r, name, start).Found?
    ensures var loc := LocateSpec(r, name, start); var hs := r.headers.value;
      1 <= loc.index && hs[loc.index] + |name| + 1 <= loc.b <= loc.e <= hs[loc.index + 1] &&
      (loc.b < loc.e ==> !IsSpace(r.data[loc.b]) && !IsSpace(r.data[loc.e - 1]))
  {
    LocateFromFirstMatch(r.data, r.headers.value, name, if start > 0 then start else 1);
  }

  /** while (b < e && isspace(e[-1])) --e; */
  method ScanTrailingSpaces(s: seq<char>, b: nat, e0: nat) returns (e: nat)
    requires b <= e0 <= |s|
    ensures e == TrimEnd(s, b, e0)
  {
    e := e0;
    while b < e && IsSpace(s[e - 1])
      invariant b <= e <= e0
      invariant TrimEnd(s, b, e) == TrimEnd(s, b, e0)
    {
      e := e - 1;
    }
  }

  /** The scan of resp_header_locate from list index i. */
  method LocateLoop(s: seq<char>, hs: seq<nat>, name: seq<char>, i0: nat) returns (loc: Location)
    requires forall k :: 0 <= k < |hs| ==> hs[k] <= |s|
    requires forall k :: 0 <= k < |hs| - 1 ==> hs[k] < hs[k + 1]
    requires i0 < |hs|
    ensures loc == LocateFrom(s, hs, name, i0)
  {
    var i := i0;
    while i + 1 < |hs| && !NameMatches(s, hs[i], hs[i + 1], name)
      invariant i0 <= i < |hs|
      invariant LocateFrom(s, hs, name, i) == LocateFrom(s, hs, name, i0)
    {
      i := i + 1;
    }
    if i + 1 < |hs| {
      var b, e := FoundValue(s, hs[i], hs[i + 1], name);
      loc := Found(i, b, e);
    } else {
      loc := NotFound;
    }
  }

  /** The value of a matching line: past the name, the ':' and the spaces, without trailing spaces. */
  method FoundValue(s: seq<char>, b0: nat, e0: nat, name: seq<char>) returns (b: nat, e: nat)
    requires b0 < e0 <= |s| && NameMatches(s, b0, e0, name)
    ensures (b, e) == ValueBounds(s, b0, e0, name)
  {
    b := ScanSpaces(s, b0 + |name| + 1, e0);
    e := ScanTrailingSpaces(s, b, e0);
  }

  /** resp_header_locate: the list index of the header and its value, or -1 (NotFound). */
  method RespHeaderLocate(r: Response, name: seq<char>, start: nat) returns (loc: Location)
    requires WellFormed(r)
    requires r.headers.Some? && |r.headers.value| >= 2 && start > 0 ==> start < |r.headers.value|
    ensures loc == LocateSpec(r, name, start)
  {
    if r.headers.None? || |r.headers.value| < 2 {
      return NotFound;
    }
    var i := if start > 0 then start else 1;
    loc := LocateLoop(r.data, r.headers.value, name, i);
  }

  /** The value resp_header_get finds for `name`, if the header is present. */
  function HeaderValue(r: Response, name: seq<char>): (v: Option<seq<char>>)
    requires WellFormed(r)
    ensures v.None? <==> LocateSpec(r, name, 0).NotFound?
    ensures v.Some? && v.value != [] ==> !IsSpace(v.value[0]) && !IsSpace(v.value[|v.value| - 1])
  {
    match LocateSpec(r, name, 0)
    case NotFound => None
    case Found(_, b, e) =>
      LocatedValueTrimmed(r, name, 0);
      Some(r.data[b..e])
  }

  /**
   * resp_header_copy: 0 when the header is absent; otherwise 1, and unless
   * bufsize is 0 the first min(len, bufsize - 1) bytes of the value,
   * NUL-terminated, are written to buf; nothing else in buf changes.
   */
  method RespHeaderCopy(r: Response, name: seq<char>, buf: array<char>, bufsize: nat) returns (found: int)
    requires WellFormed(r) && bufsize <= buf.Length
    modifies buf
    ensures found == if HeaderValue(r, name).Some? then 1 else 0
    ensures found == 0 || bufsize == 0 ==> buf[..] == old(buf[..])
    ensures found == 1 && bufsize > 0 ==>
      var v := HeaderValue(r, name).value;
      var len := Min(|v|, bufsize - 1);
      buf[..len] == v[..len] && buf[len] == '\0' && buf[len + 1..] == old(buf[len + 1..])
  {
    var loc := RespHeaderLocate(r, name, 0);
    if loc.NotFound? {
      return 0;
    }
    if bufsize > 0 {
      var len := Min(loc.e - loc.b, bufsize - 1);
      forall k | 0 <= k < len {
        buf[k] := r.data[loc.b + k];
      }
      buf[len] := '\0';
      assert buf[..len] == r.data[loc.b..loc.e][..len];
    }
    return 1;
  }

  // ---------------------------------------------------------------------
  // read_resp_body (submit/http.c:400-419)
  // ---------------------------------------------------------------------

  /** How many body bytes read_resp_body places: toread, or what the connection still has. */
  function BodyLength(available: nat, toread: int): (n: nat)
    ensures toread <= 0 ==> n == 0
    ensures toread > 0 ==> n <= toread && n <= available && (n == toread || n == available)
  {
    if toread <= 0 then 0 else Min(toread, available)
  }

  /**
   * One turn of the loop of read_resp_body: one read of what is still
   * missing, placed after the sumRead bytes already in buf.
   */
  method BodyStep(s: Stream, toread: int, buf: array<char>, sumRead: nat, ghost pos0: nat, ghost buf0: seq<char>)
    returns (sumRead': nat, r: int)
    requires s.Valid() && s.pos == pos0 + sumRead && sumRead < toread <= buf.Length && |buf0| == buf.Length
    requires buf[..sumRead] == s.data[pos0..s.pos] && buf[sumRead..] == buf0[sumRead..]
    modifies s, buf
    ensures s.Valid() && s.pos == pos0 + sumRead'
    ensures r <= 0 ==> sumRead' == sumRead && s.pos == |s.data| && r == (if s.endsInError then -1 else 0)
    ensures r > 0 ==> sumRead' == sumRead + r <= toread
    ensures buf[..sumRead'] == s.data[pos0..s.pos] && buf[sumRead'..] == buf0[sumRead'..]
  {
    var bytes;
    bytes, r := s.Read(toread - sumRead);
    sumRead' := sumRead;
    if r > 0 {
      Place(buf, sumRead, bytes);
      assert s.data[pos0..s.pos] == s.data[pos0..pos0 + sumRead] + bytes;
      assert buf0[sumRead + r..] == buf0[sumRead..][r..];
      sumRead' := sumRead + r;
    }
  }

  /**
   * read_resp_body: read into buf until toread bytes are in or a read
   * returns 0 or -1. The result is the last read's return value; when
   * toread <= 0 no read happens and the C returns an uninitialised value
   * (None here).
   */
  method ReadRespBody(s: Stream, toread: int, buf: array<char>) returns (ret: Option<int>)
    requires s.Valid() && toread <= buf.Length
    modifies s, buf
    ensures s.Valid()
    ensures var n := BodyLength(|s.data| - old(s.pos), toread);
      s.pos == old(s.pos) + n && buf[..n] == s.data[old(s.pos)..s.pos] && buf[n..] == old(buf[n..])
    ensures toread <= 0 <==> ret.None?
    ensures toread > 0 && BodyLength(|s.data| - old(s.pos), toread) < toread ==>
      ret == Some(if s.endsInError then -1 else 0)
    ensures toread > 0 && BodyLength(|s.data| - old(s.pos), toread) == toread ==> ret.Some? && ret.value > 0
  {
    ghost var pos0 := s.pos;
    ghost var buf0 := buf[..];
    var sumRead: nat := 0;
    ret := None;
    while sumRead < toread
      invariant s.Valid() && s.pos == pos0 + sumRead && sumRead <= |s.data| - pos0
      invariant sumRead <= buf.Length && (toread > 0 ==> sumRead <= toread)
      invariant buf[..sumRead] == s.data[pos0..s.pos] && buf[sumRead..] == buf0[sumRead..]
      invariant toread <= 0 ==> ret.None?
      invariant sumRead > 0 ==> ret.Some? && ret.value > 0
      decreases toread - sumRead
    {
      var r;
      sumRead, r := BodyStep(s, toread, buf, sumRead, pos0, buf0);
      ret := Some(r);
      if r <= 0 {
        break;
      }
    }
    if ret.Some? && ret.value < -1 {
      ret := Some(-1);
    }
  }
}
