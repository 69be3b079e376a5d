/**
 * The URL resolver of submit/url.c: url_simplify, uri_merge, url_parse and
 * url_error. Strings are seq<char> without the terminating NUL (see Utils).
 */
module Url {
  import opened Wrappers
  import opened Utils

  const HttpScheme: seq<char> := "http://"
  const HttpDefaultPort: nat := 80
  const MaxPort: nat := 0xffff

  /**
   * URL_HAS_SCHEME (submit/url.c:15-16): a case-insensitive "http://" prefix;
   * the letters may be in either case, the "://" is exact.
   */
  function HasScheme(url: seq<char>): (r: bool)
    ensures r <==> (|url| >= |HttpScheme| &&
      forall i :: 0 <= i < |HttpScheme| ==> url[i] == HttpScheme[i] || UpperLower(url[i], HttpScheme[i]))
    ensures r ==> url[4] == ':' && url[5] == '/' && url[6] == '/'
  {
    |url| >= |HttpScheme| && CaseEq(url[..|HttpScheme|], HttpScheme)
  }

  /**
   * path_end (submit/url.c:22-26): the index of the first '?' or '#', or the
   * end of the string.
   */
  function PathEnd(url: seq<char>): (r: nat)
    ensures r <= |url|
    ensures r < |url| ==> url[r] == '?' || url[r] == '#'
    ensures forall i :: 0 <= i < r ==> url[i] != '?' && url[i] != '#'
  {
    StrpbrkOrEos(url, "?#")
  }

  // ---------------------------------------------------------------------
  // url_simplify (submit/url.c:30-75)
  // ---------------------------------------------------------------------

  /** A "." segment at h: "./" or a final ".". */
  predicate DotSegAt(s: seq<char>, h: nat) {
    h < |s| && s[h] == '.' && (h + 1 == |s| || s[h + 1] == '/')
  }

  /** A ".." segment at h: "../" or a final "..". */
  predicate DotDotSegAt(s: seq<char>, h: nat) {
    h + 1 < |s| && s[h] == '.' && s[h + 1] == '.' && (h + 2 == |s| || s[h + 2] == '/')
  }

  /** The index of the first '/' at or after h, or |s|. */
  function NextSlash(s: seq<char>, h: nat): (k: nat)
    requires h <= |s|
    ensures h <= k <= |s|
    ensures k < |s| ==> s[k] == '/'
    ensures forall i :: h <= i < k ==> s[i] != '/'
    decreases |s| - h
  {
    if h == |s| || s[h] == '/' then h else NextSlash(s, h + 1)
  }

  /** The end of the segment starting at h, its '/' included when there is one. */
  function SegEnd(s: seq<char>, h: nat): (k: nat)
    requires h < |s|
    ensures h < k <= |s|
  {
    var k := NextSlash(s, h);
    if k < |s| then k + 1 else k
  }

  /** The cursor t walking back over the previous segment: stops at 0 or after a '/'. */
  function BackTo(out: seq<char>, t: nat): (r: nat)
    requires t <= |out|
    ensures r <= t
    ensures r == 0 || out[r - 1] == '/'
    ensures forall i :: r <= i < t ==> out[i] != '/'
  {
    if t > 0 && out[t - 1] != '/' then BackTo(out, t - 1) else t
  }

  /**
   * What ".." does to the output written so far: nothing at the start of
   * the buffer, otherwise it drops the last segment together with its '/'.
   */
  function BackUp(out: seq<char>): (r: seq<char>)
  {
    if |out| == 0 then out else out[..BackTo(out, |out| - 1)]
  }

  /** The state of url_simplify's loop: the read cursor and what has been written. */
  datatype Cursor = Cursor(h: nat, out: seq<char>)

  /**
   * One pass of url_simplify's loop on s at read cursor h: skip a "."
   * segment, back up over the previous segment for "..", copy any other.
   */
  function Step(s: seq<char>, h: nat, out: seq<char>): (c: Cursor)
    requires h < |s|
    ensures c.h > h
    ensures |c.out| <= |out| + (c.h - h)
    ensures c.h > |s| ==> |c.out| <= |out|
  {
    if DotSegAt(s, h) then Cursor(h + 2, out)
    else if DotDotSegAt(s, h) then Cursor(h + 3, BackUp(out))
    else Cursor(SegEnd(s, h), out + s[h..SegEnd(s, h)])
  }

  /**
   * The two-cursor loop of url_simplify as a function: h reads s, out is
   * what has been written before the write cursor t. What it writes is
   * never more than it reads.
   */
  function Run(s: seq<char>, h: nat, out: seq<char>): (r: seq<char>)
    ensures h <= |s| ==> |r| <= |out| + (|s| - h)
    decreases |s| - h
  {
    if h >= |s| then out
    else var c := Step(s, h, out); Run(s, c.h, c.out)
  }

  /**
   * The string url_simplify leaves in its buffer, as the code is written:
   * never longer than the input, so working in place is safe, and without
   * any "." or ".." segment.
   */
  function SimplifyAsWritten(s: seq<char>): (r: seq<char>)
    ensures |r| <= |s|
    ensures NoDotSegments(r)
  {
    RunNoDots(s, 0, []);
    Run(s, 0, [])
  }

  /** strchr(buf, '\0'): the length of the C string held in buf. */
  function CLength(buf: seq<char>): (n: nat)
    requires '\0' in buf
    ensures n < |buf| && buf[n] == '\0'
    ensures forall i :: 0 <= i < n ==> buf[i] != '\0'
  {
    StrpbrkOrEos(buf, "\0")
  }

  /**
   * The ".." step of url_simplify (submit/url.c:46-50): the write cursor
   * backs up over the previous segment, never before the buffer start.
   */
  method BackUpCursor(a: array<char>, t: nat) returns (t': nat)
    requires t <= a.Length
    ensures t' <= t && a[..t'] == BackUp(a[..t])
  {
    ghost var out := a[..t];
    t' := t;
    if t' > 0 {
      t' := t' - 1;
      while t' > 0 && a[t' - 1] != '/'
        invariant 0 <= t' < |out|
        invariant BackTo(out, t') == BackTo(out, |out| - 1)
      {
        t' := t' - 1;
      }
      assert a[..t'] == out[..t'];
    }
  }

  /**
   * The copy step of url_simplify when the cursors coincide
   * (submit/url.c:55-61): both step over the segment, nothing is written.
   */
  method SkipSegment(a: array<char>, ghost s: seq<char>, end: nat, h: nat) returns (h': nat)
    requires end < a.Length && |s| == end
    requires h < end
    requires a[h..end] == s[h..]
    ensures h' == SegEnd(s, h)
  {
    h' := h;
    while h' < end && a[h'] != '/'
      invariant h <= h' <= end
      invariant NextSlash(s, h') == NextSlash(s, h)
    {
      assert a[h'] == s[h'];
      h' := h' + 1;
    }
    if h' < end {
      assert a[h'] == s[h'];
      h' := h' + 1;
    }
  }

  /**
   * The copy step of url_simplify when the write cursor lags
   * (submit/url.c:62-68): the segment at h, with its '/', is moved down to t.
   */
  method MoveSegment(a: array<char>, ghost s: seq<char>, end: nat, h: nat, t: nat) returns (h': nat, t': nat)
    requires end < a.Length && |s| == end
    requires t < h < end
    requires a[h..end] == s[h..]
    modifies a
    ensures h' == SegEnd(s, h) && t' - t == h' - h
    ensures a[..t'] == old(a[..t]) + s[h..h']
    ensures a[h'..end] == s[h'..]
    ensures a[end..] == old(a[end..])
  {
    ghost var out := a[..t];
    h', t' := h, t;
    while h' < end && a[h'] != '/'
      invariant h <= h' <= end
      invariant t' - t == h' - h
      invariant a[..t'] == out + s[h..h']
      invariant a[h'..end] == s[h'..]
      invariant a[end..] == old(a[end..])
      invariant NextSlash(s, h') == NextSlash(s, h)
    {
      MoveByte(a, s, end, h, h', t', out);
      t', h' := t' + 1, h' + 1;
    }
    if h' < end {
      MoveByte(a, s, end, h, h', t', out);
      t', h' := t' + 1, h' + 1;
    }
  }

  /** One byte of MoveSegment: s[k] is written at t, which lags k. */
  method MoveByte(a: array<char>, ghost s: seq<char>, end: nat, ghost h: nat, k: nat, t: nat, ghost out: seq<char>)
    requires end < a.Length && |s| == end
    requires h <= k < end && t < k
    requires a[..t] == out + s[h..k] && a[k..end] == s[k..]
    modifies a
    ensures a[..t + 1] == out + s[h..k + 1]
    ensures a[k + 1..end] == s[k + 1..]
    ensures a[end..] == old(a[end..])
  {
    assert a[k] == a[k..end][0] == s[k];
    a[t] := a[k];
    assert a[..t + 1] == a[..t] + [s[k]];
    assert s[h..k + 1] == s[h..k] + [s[k]];
    assert a[k + 1..end] == old(a[k + 1..end]);
  }

  /**
   * One pass of the loop of url_simplify (submit/url.c:39-69): a "."
   * segment is skipped, a ".." segment backs the write cursor up, any
   * other segment is copied down. The loop's result is preserved.
   */
  method SimplifyStep(a: array<char>, ghost s: seq<char>, end: nat, h: nat, t: nat) returns (h': nat, t': nat)
    requires end < a.Length && |s| == end && a[end] == '\0'
    requires forall i :: 0 <= i < end ==> s[i] != '\0'
    requires t <= h < end
    requires a[h..end] == s[h..]
    requires t == h ==> a[..h] == s[..h]
    modifies a
    ensures h < h' <= end + 1 && t' <= h' && t' <= end
    ensures Cursor(h', a[..t']) == Step(s, h, old(a[..t]))
    ensures h' > end ==> t' < end
    ensures h' <= end ==> a[h'..end] == s[h'..]
    ensures a[end..] == old(a[end..])
    ensures t' == h' ==> t == h && a[..] == old(a[..])
  {
    assert a[h..end][0] == s[h..][0];
    assert forall i :: h <= i < end ==> a[i] == a[h..end][i - h] == s[i];
    ghost var out := a[..t];
    if a[h] == '.' && (a[h + 1] == '/' || a[h + 1] == '\0') {
      assert DotSegAt(s, h);
      h', t' := h + 2, t;
    } else if a[h] == '.' && a[h + 1] == '.' && (a[h + 2] == '/' || a[h + 2] == '\0') {
      assert !DotSegAt(s, h) && DotDotSegAt(s, h);
      t' := BackUpCursor(a, t);
      h' := h + 3;
    } else {
      assert !DotSegAt(s, h) && !DotDotSegAt(s, h);
      h', t' := CopySegment(a, s, end, h, t);
    }
  }

  /**
   * The copy branch of url_simplify's loop (submit/url.c:55-68): the
   * segment at h, with its '/', ends up right after what was written.
   */
  method CopySegment(a: array<char>, ghost s: seq<char>, end: nat, h: nat, t: nat) returns (h': nat, t': nat)
    requires end < a.Length && |s| == end
    requires t <= h < end
    requires a[h..end] == s[h..]
    requires t == h ==> a[..h] == s[..h]
    modifies a
    ensures h' == SegEnd(s, h) && t' - t == h' - h
    ensures a[..t'] == old(a[..t]) + s[h..h']
    ensures a[h'..end] == s[h'..]
    ensures a[end..] == old(a[end..])
    ensures t' == h' ==> t == h && a[..] == old(a[..])
  {
    if t == h {
      h' := SkipSegment(a, s, end, h);
      t' := h';
      assert a[..t'] == a[..h] + a[h..t'] && s[..t'] == s[..h] + s[h..t'];
      assert a[h..t'] == a[h..end][..t' - h] == s[h..t'];
      assert a[h'..end] == a[h..end][h' - h..] == s[h..][h' - h..];
    } else {
      h', t' := MoveSegment(a, s, end, h, t);
    }
  }


  /**
   * url_simplify (submit/url.c:30-75), in place on the buffer a that holds a
   * NUL-terminated string s. The cursor h reads, the cursor t writes; the
   * result is SimplifyAsWritten(s). It reports a change exactly when the
   * result is shorter, and only then writes a new terminator; otherwise the
   * buffer is untouched. Nothing from the old terminator on is written.
   */
  method UrlSimplify(a: array<char>) returns (changed: bool)
    requires '\0' in a[..]
    modifies a
    ensures var s := old(a[..])[..CLength(old(a[..]))];
            var r := SimplifyAsWritten(s);
            && (changed <==> |r| < |s|)
            && (changed ==> a[..|r|] == r && a[|r|] == '\0')
            && (!changed ==> r == s && a[..] == old(a[..]))
            && a[|s|..] == old(a[|s|..])
  {
    var end := CLength(a[..]);
    ghost var s := a[..end];
    var h, t := 0, 0;
    while h < end
      invariant 0 <= t <= h <= end + 1
      invariant t <= end
      invariant h > end ==> t < end
      invariant h <= end ==> a[h..end] == s[h..]
      invariant a[end..] == old(a[end..])
      invariant Run(s, h, a[..t]) == SimplifyAsWritten(s)
      invariant t == h ==> a[..] == old(a[..])
      decreases end - h
    {
      h, t := SimplifyStep(a, s, end, h, t);
    }
    if t != h {
      a[t] := '\0';
    }
    changed := t != h;
  }

  // Properties of url_simplify's result.

  /** No segment of s, that is no run of bytes after a '/' or at the start, is "." or "..". */
  predicate NoDotSegments(s: seq<char>) {
    forall i :: 0 <= i < |s| && (i == 0 || s[i - 1] == '/') ==> !DotSegAt(s, i) && !DotDotSegAt(s, i)
  }

  /** Cutting a clean string just after a '/' leaves it clean. */
  lemma PrefixKeepsNoDots(out: seq<char>, k: nat)
    requires NoDotSegments(out) && k <= |out| && (k == 0 || out[k - 1] == '/')
    ensures NoDotSegments(out[..k])
  {
    var p := out[..k];
    forall i | 0 <= i < |p| && (i == 0 || p[i - 1] == '/')
      ensures !DotSegAt(p, i) && !DotDotSegAt(p, i)
    {
      assert !DotSegAt(out, i) && !DotDotSegAt(out, i);
    }
  }

  /** The segment copied at h is neither "." nor "..". */
  lemma CopiedSegmentNotDot(s: seq<char>, h: nat)
    requires h < |s| && !DotSegAt(s, h) && !DotDotSegAt(s, h)
    ensures var seg := s[h..SegEnd(s, h)];
            !DotSegAt(seg, 0) && !DotDotSegAt(seg, 0)
            && (forall i :: 0 <= i < |seg| - 1 ==> seg[i] != '/')
  {
  }

  /** Appending a clean segment after a '/' keeps a string clean. */
  lemma AppendSegmentKeepsNoDots(out: seq<char>, seg: seq<char>)
    requires NoDotSegments(out) && (|out| == 0 || out[|out| - 1] == '/')
    requires |seg| > 0 && !DotSegAt(seg, 0) && !DotDotSegAt(seg, 0)
    requires forall i :: 0 <= i < |seg| - 1 ==> seg[i] != '/'
    ensures NoDotSegments(out + seg)
  {
    var r := out + seg;
    forall i | 0 <= i < |r| && (i == 0 || r[i - 1] == '/')
      ensures !DotSegAt(r, i) && !DotDotSegAt(r, i)
    {
      if i < |out| {
        assert !DotSegAt(out, i) && !DotDotSegAt(out, i);
      } else {
        assert i == |out|;
      }
    }
  }

  /** The loop, started clean at a segment boundary, writes a clean string. */
  lemma {:induction false} RunNoDots(s: seq<char>, h: nat, out: seq<char>)
    requires h <= |s| && (h == 0 || s[h - 1] == '/')
    requires NoDotSegments(out) && (|out| == 0 || out[|out| - 1] == '/')
    ensures NoDotSegments(Run(s, h, out))
    decreases |s| - h
  {
    if h < |s| {
      var c := Step(s, h, out);
      if DotSegAt(s, h) || DotDotSegAt(s, h) {
        var out' := c.out;
        if DotDotSegAt(s, h) && |out| > 0 {
          PrefixKeepsNoDots(out, BackTo(out, |out| - 1));
        }
        if c.h <= |s| {
          RunNoDots(s, c.h, out');
        }
      } else {
        CopiedSegmentNotDot(s, h);
        AppendSegmentKeepsNoDots(out, s[h..c.h]);
        if c.h < |s| {
          RunNoDots(s, c.h, c.out);
        }
      }
    }
  }

  /** On a clean string the loop copies everything. */
  lemma {:induction false} RunOnClean(s: seq<char>, h: nat)
    requires NoDotSegments(s) && h <= |s| && (h == 0 || s[h - 1] == '/')
    ensures Run(s, h, s[..h]) == s
    decreases |s| - h
  {
    if h < |s| {
      var c := Step(s, h, s[..h]);
      assert c.out == s[..c.h];
      if c.h < |s| {
        RunOnClean(s, c.h);
      }
    }
  }

  /** url_simplify changes nothing in a string without dot segments ... */
  lemma SimplifyClean(s: seq<char>)
    requires NoDotSegments(s)
    ensures SimplifyAsWritten(s) == s
  {
    RunOnClean(s, 0);
  }

  /** ... so simplifying twice is simplifying once. */
  lemma SimplifyIdempotent(s: seq<char>)
    ensures SimplifyAsWritten(SimplifyAsWritten(s)) == SimplifyAsWritten(s)
  {
    SimplifyClean(SimplifyAsWritten(s));
  }

  /** The tail of the worked case below: "../c" after "/a/b/". */
  lemma DotDotExampleTail()
    ensures Run("/a/b/../c", 5, "/a/b/") == "/a/c"
  {
    var s := "/a/b/../c";
    assert DotDotSegAt(s, 5);
    assert BackTo("/a/b/", 4) == 3;
    assert BackUp("/a/b/") == "/a/";
    assert Run(s, 5, "/a/b/") == Run(s, 8, "/a/");
    assert NextSlash(s, 8) == 9;
    assert Run(s, 8, "/a/") == "/a/c";
  }

  /** Worked case: ".." drops the previous segment. */
  lemma SimplifyDotDotExample()
    ensures SimplifyAsWritten("/a/b/../c") == "/a/c"
  {
    var s := "/a/b/../c";
    assert NextSlash(s, 0) == 0 && NextSlash(s, 1) == 2 && NextSlash(s, 3) == 4;
    assert Step(s, 0, []) == Cursor(1, "/");
    assert Step(s, 1, "/") == Cursor(3, "/a/");
    assert Step(s, 3, "/a/") == Cursor(5, "/a/b/");
    DotDotExampleTail();
  }

  /** Worked case: a "." segment disappears. */
  lemma SimplifyDotExample()
    ensures SimplifyAsWritten("/a/./b") == "/a/b"
  {
    var u := "/a/./b";
    assert NextSlash(u, 0) == 0 && NextSlash(u, 1) == 2 && NextSlash(u, 5) == 6;
    assert Step(u, 0, []) == Cursor(1, "/");
    assert Step(u, 1, "/") == Cursor(3, "/a/");
    assert Step(u, 3, "/a/") == Cursor(5, "/a/");
    assert Step(u, 5, "/a/") == Cursor(6, "/a/b");
  }

  /**
   * The code as written escapes above the root: a leading ".." after the
   * initial '/' backs the write cursor up to the start of the buffer, so the
   * leading '/' is lost and "/../a" becomes "a".
   */
  lemma SimplifyDropsLeadingSlash()
    ensures SimplifyAsWritten("/../a") == "a"
  {
    var s := "/../a";
    assert NextSlash(s, 0) == 0 && NextSlash(s, 4) == 5;
    assert Step(s, 0, []) == Cursor(1, "/");
    assert BackTo("/", 0) == 0;
    assert Step(s, 1, "/") == Cursor(4, "");
    assert Step(s, 4, "") == Cursor(5, "a");
  }

  /**
   * The end of the part of a URL that ".." must never climb above: just past
   * the '/' that follows the host of an "http://" URL (the whole string when
   * there is none), just past a leading '/' of an absolute path, and the
   * start otherwise.
   */
  function RootEnd(s: seq<char>): (k: nat)
    ensures k <= |s|
    ensures 0 < k < |s| ==> s[k - 1] == '/'
  {
    if HasScheme(s) then
      var k := NextSlash(s, |HttpScheme|);
      if k < |s| then k + 1 else |s|
    else if |s| > 0 && s[0] == '/' then 1
    else 0
  }

  /**
   * url_simplify as intended: the root (RootEnd) is kept verbatim and the
   * rest is simplified by the same cursor loop, so ".." at the root is a
   * no-op instead of an escape. The result keeps the root, is never longer
   * than its input, and has no "." or ".." segment below the root.
   */
  function Simplify(s: seq<char>): (r: seq<char>)
    ensures RootEnd(s) <= |r| <= |s| && r[..RootEnd(s)] == s[..RootEnd(s)]
    ensures NoDotSegments(r[RootEnd(s)..])
  {
    var k := RootEnd(s);
    var r := s[..k] + SimplifyAsWritten(s[k..]);
    assert r[k..] == SimplifyAsWritten(s[k..]);
    r
  }

  /** With the root kept, "/../a" becomes "/a". */
  lemma SimplifyKeepsLeadingSlash()
    ensures Simplify("/../a") == "/a"
  {
    var s := "/../a";
    assert RootEnd(s) == 1 && s[1..] == "../a";
    assert NextSlash("../a", 3) == 4;
    assert Run("../a", 0, []) == Run("../a", 3, []);
    assert Run("../a", 3, []) == "a";
  }

  /** Where the code does not escape the root, the correction agrees with it. */
  lemma SimplifyRootDotDotExample()
    ensures Simplify("/a/b/../c") == "/" + "a/c"
  {
    assert RootEnd("/a/b/../c") == 1;
    assert "/a/b/../c"[..1] == "/" && "/a/b/../c"[1..] == "a/b/../c";
    RootDotDotRelative();
  }

  /** The relative part of the example above: "b/.." cancels out. */
  lemma RootDotDotRelative()
    ensures SimplifyAsWritten("a/b/../c") == "a/c"
  {
    var u := "a/b/../c";
    assert NextSlash(u, 0) == 1 && NextSlash(u, 2) == 3 && NextSlash(u, 7) == 8;
    assert Step(u, 0, []) == Cursor(2, "a/");
    assert Step(u, 2, "a/") == Cursor(4, "a/b/");
    assert BackTo("a/b/", 3) == 2;
    assert Step(u, 4, "a/b/") == Cursor(7, "a/");
    assert Step(u, 7, "a/") == Cursor(8, "a/c");
  }

  /** The relative part of the example below: "a/../../b" collapses to "b". */
  lemma HostExampleRelative()
    ensures SimplifyAsWritten("a/../../b") == "b"
  {
    var w' := "a/../../b";
    assert NextSlash(w', 0) == 1;
    assert Step(w', 0, []) == Cursor(2, "a/");
    assert BackTo("a/", 1) == 0;
    assert Step(w', 2, "a/") == Cursor(5, "");
    assert Step(w', 5, "") == Cursor(8, "");
    assert NextSlash(w', 8) == 9;
    assert Step(w', 8, "") == Cursor(9, "b");
  }

  /** The host of an "http://" URL survives any number of "..". */
  lemma SimplifyKeepsHost()
    ensures Simplify("http://x.com/a/../../b") == "http://x.com/b"
  {
    var w := "http://x.com/a/../../b";
    assert HasScheme(w);
    assert NextSlash(w, 7) == 12;
    assert RootEnd(w) == 13 && w[13..] == "a/../../b";
    HostExampleRelative();
  }

  // ---------------------------------------------------------------------
  // uri_merge (submit/url.c:77-202)
  // ---------------------------------------------------------------------

  /** Where a "#" link is appended: the base's first '#', or its end. */
  function FragmentStart(base: seq<char>): (k: nat)
    ensures k <= |base|
    ensures k < |base| ==> base[k] == '#'
    ensures forall i :: 0 <= i < k ==> base[i] != '#'
  {
    StrpbrkOrEos(base, "#")
  }

  /**
   * Where a "//" link is inserted: at the base's first '/' before its path
   * end when a second '/' follows it, otherwise at the very start.
   */
  function NetPathInsert(base: seq<char>): (k: nat)
    ensures k <= PathEnd(base)
  {
    var end := PathEnd(base);
    var slash := MemChr(base, '/', 0, end);
    if slash < end && At(base, slash + 1) == '/' then slash else 0
  }

  /**
   * Where a "/" link is inserted, as the loop at submit/url.c:141-165
   * decides: after a leading "//", at the next '/' before the path end (or
   * at the path end when there is none); without a "//", at the start.
   */
  function AbsPathInsert(base: seq<char>): (k: nat)
    ensures k <= PathEnd(base)
  {
    var end := PathEnd(base);
    var slash := MemChr(base, '/', 0, end);
    if slash < end && At(base, slash + 1) == '/' then
      MemChr(base, '/', slash + 2, end)
    else 0
  }

  /**
   * A relative link: everything after the base's last '/' (before its path
   * end) is replaced; when that '/' is the second one of "://", the link is
   * appended to the whole base after an explicit '/'; with no '/' at all,
   * the link stands alone.
   */
  function RelativeMerge(base: seq<char>, link: seq<char>): (r: seq<char>)
    ensures |link| <= |r| && r[|r| - |link|..] == link
  {
    var end := PathEnd(base);
    match MemRChr(base, '/', end)
    case None => link
    case Some(ls) =>
      if SchemeSlashAt(base, ls) then base[..end] + "/" + link
      else base[..ls + 1] + link
  }

  /** The '/' at ls is the second one of a "://". */
  predicate SchemeSlashAt(base: seq<char>, ls: nat)
    requires ls < |base|
  {
    ls > 2 && base[ls - 2] == ':' && base[ls - 1] == '/'
  }

  /** uri_merge: resolve link against base. */
  function UriMerge(base: seq<char>, link: seq<char>): (r: seq<char>)
    ensures HasScheme(link) ==> r == link
    ensures link == [] ==> r == base
    ensures !HasScheme(link) && link != [] ==>
      |link| <= |r| && r[|r| - |link|..] == link
  {
    if HasScheme(link) then link
    else if link == [] then base
    else
      var insert :=
        if link[0] == '?' then PathEnd(base)
        else if link[0] == '#' then FragmentStart(base)
        else if link[0] == '/' && At(link, 1) == '/' then NetPathInsert(base)
        else AbsPathInsert(base);
      if link[0] in "?#/" then base[..insert] + link
      else RelativeMerge(base, link)
  }

  /**
   * The end of the authority of an "http://" URL: the first '/', '?' or
   * '#' after the scheme, or the end of the string.
   */
  function AuthorityEnd(url: seq<char>): (k: nat)
    requires HasScheme(url)
    ensures |HttpScheme| <= k <= |url|
  {
    |HttpScheme| + StrpbrkOrEos(url[|HttpScheme|..], "/?#")
  }

  /** What an "http://" prefix, in any case, says about the first bytes. */
  lemma SchemeBytes(url: seq<char>)
    requires HasScheme(url)
    ensures url[4] == ':' && url[5] == '/' && url[6] == '/'
    ensures forall i :: 0 <= i < 4 ==> url[i] != '/' && url[i] != '?' && url[i] != '#' && url[i] != ':'
  {
    assert ToLower(url[4]) == ':' && ToLower(url[5]) == '/' && ToLower(url[6]) == '/';
    assert ToLower(url[0]) == 'h' && ToLower(url[1]) == 't' && ToLower(url[2]) == 't' && ToLower(url[3]) == 'p';
  }

  /** Where the scans of uri_merge stop on an "http://" URL. */
  lemma SchemeShape(url: seq<char>)
    requires HasScheme(url)
    ensures url[4] == ':' && url[5] == '/' && url[6] == '/'
    ensures PathEnd(url) >= |HttpScheme|
    ensures MemChr(url, '/', 0, PathEnd(url)) == 5
    ensures forall i :: |HttpScheme| <= i < AuthorityEnd(url) ==> url[i] != '/' && url[i] != '?' && url[i] != '#'
    ensures AuthorityEnd(url) <= PathEnd(url)
    ensures AuthorityEnd(url) < PathEnd(url) ==> url[AuthorityEnd(url)] == '/'
  {
    SchemeBytes(url);
    SchemePathEnd(url);
    SchemeAuthority(url);
  }

  /** The path of an "http://" URL ends after the scheme, and its first '/' is at 5. */
  lemma SchemePathEnd(url: seq<char>)
    requires HasScheme(url)
    ensures PathEnd(url) >= |HttpScheme|
    ensures MemChr(url, '/', 0, PathEnd(url)) == 5
  {
    SchemeBytes(url);
    assert forall i :: 0 <= i < |HttpScheme| ==> url[i] != '?' && url[i] != '#';
    assert forall i :: 0 <= i < 5 ==> url[i] != '/';
  }

  /** The authority of an "http://" URL runs up to its first '/', '?' or '#'. */
  lemma SchemeAuthority(url: seq<char>)
    requires HasScheme(url)
    ensures forall i :: |HttpScheme| <= i < AuthorityEnd(url) ==> url[i] != '/' && url[i] != '?' && url[i] != '#'
    ensures AuthorityEnd(url) <= PathEnd(url)
    ensures AuthorityEnd(url) < PathEnd(url) ==> url[AuthorityEnd(url)] == '/'
  {
    var a := AuthorityEnd(url);
    var e := PathEnd(url);
    var rest := url[|HttpScheme|..];
    forall i | |HttpScheme| <= i < a
      ensures url[i] != '/' && url[i] != '?' && url[i] != '#'
    {
      assert url[i] == rest[i - |HttpScheme|];
      assert rest[i - |HttpScheme|] !in "/?#";
    }
    if a < |url| {
      assert url[a] == rest[a - |HttpScheme|];
      assert url[a] in "/?#";
    }
    SchemePathEnd(url);
  }

  /** A "?" link keeps the base up to its query or fragment and replaces the rest. */
  lemma MergeQuery(base: seq<char>, link: seq<char>)
    requires link != [] && link[0] == '?'
    ensures var r := UriMerge(base, link);
      PathEnd(r) == PathEnd(base) && r[..PathEnd(r)] == base[..PathEnd(base)] && r[PathEnd(r)..] == link
  {
    assert !HasScheme(link) by {
      if |link| >= |HttpScheme| { assert ToLower(link[0]) != ToLower(HttpScheme[0]); }
    }
    var r := UriMerge(base, link);
    var e := PathEnd(base);
    assert r == base[..e] + link;
    assert r[e] == '?';
    assert forall i :: 0 <= i < e ==> r[i] == base[i];
  }

  /** A "#" link keeps the base up to its first '#' and replaces the rest. */
  lemma MergeFragment(base: seq<char>, link: seq<char>)
    requires link != [] && link[0] == '#'
    ensures var r := UriMerge(base, link);
      FragmentStart(r) == FragmentStart(base) && r[..FragmentStart(r)] == base[..FragmentStart(base)] && r[FragmentStart(r)..] == link
  {
    assert !HasScheme(link) by {
      if |link| >= |HttpScheme| { assert ToLower(link[0]) != ToLower(HttpScheme[0]); }
    }
    var r := UriMerge(base, link);
    var e := FragmentStart(base);
    assert r == base[..e] + link;
    assert r[e] == '#';
    assert forall i :: 0 <= i < e ==> r[i] == base[i];
  }

  /** A "//" link against an "http://" base keeps only "http:" (in the base's case). */
  lemma MergeNetworkPath(base: seq<char>, link: seq<char>)
    requires HasScheme(base)
    requires |link| >= 2 && link[0] == '/' && link[1] == '/'
    ensures UriMerge(base, link) == base[..5] + link
  {
    SchemeShape(base);
    assert !HasScheme(link) by {
      if |link| >= |HttpScheme| { assert ToLower(link[0]) != ToLower(HttpScheme[0]); }
    }
    assert NetPathInsert(base) == 5;
  }

  /** A "/" link against an "http://" base keeps the scheme and the authority. */
  lemma MergeAbsolutePath(base: seq<char>, link: seq<char>)
    requires HasScheme(base)
    requires link != [] && link[0] == '/' && At(link, 1) != '/'
    ensures UriMerge(base, link) == base[..AuthorityEnd(base)] + link
  {
    SchemeShape(base);
    assert !HasScheme(link) by {
      if |link| >= |HttpScheme| { assert ToLower(link[0]) != ToLower(HttpScheme[0]); }
    }
    var e := PathEnd(base);
    var m := MemChr(base, '/', 7, e);
    var a := AuthorityEnd(base);
    assert AbsPathInsert(base) == a;
  }

  /** A link that none of the first five cases of uri_merge takes. */
  predicate RelativeLink(link: seq<char>) {
    link != [] && link[0] != '?' && link[0] != '#' && link[0] != '/' && !HasScheme(link)
  }

  /**
   * A relative link against an "http://" base with an empty path gets a
   * '/' of its own between the authority and the link.
   */
  lemma MergeRelativeAtAuthority(base: seq<char>, link: seq<char>)
    requires HasScheme(base) && RelativeLink(link)
    requires AuthorityEnd(base) == PathEnd(base)
    ensures UriMerge(base, link) == base[..PathEnd(base)] + "/" + link
  {
    SchemeShape(base);
    var e := PathEnd(base);
    assert forall i :: 6 < i < e ==> base[i] != '/';
    assert MemRChr(base, '/', e) == Some(6);
  }

  /**
   * A relative link against an "http://" base whose path has a '/' (and no
   * empty segment) replaces the last segment of that path: the result is
   * the base through its last '/' before the query, then the link.
   */
  lemma MergeRelativeInPath(base: seq<char>, link: seq<char>)
    requires HasScheme(base) && RelativeLink(link)
    requires AuthorityEnd(base) < PathEnd(base)
    requires forall i :: AuthorityEnd(base) <= i && i + 1 < PathEnd(base) ==> !(base[i] == '/' && base[i + 1] == '/')
    ensures var r := UriMerge(base, link); var k := |r| - |link|;
      AuthorityEnd(base) < k <= PathEnd(base) && r[..k] == base[..k] && base[k - 1] == '/' &&
      forall i :: k <= i < PathEnd(base) ==> base[i] != '/'
  {
    SchemeShape(base);
    var e := PathEnd(base);
    var a := AuthorityEnd(base);
    var ls := MemRChr(base, '/', e).value;
    assert a <= ls;
    assert ls == 7 || a <= ls - 1 || base[ls - 1] != '/';
    assert !SchemeSlashAt(base, ls);
    assert UriMerge(base, link) == base[..ls + 1] + link;
  }

  /** A link that starts with neither 'h' nor 'H' has no scheme. */
  lemma NoSchemeByFirst(link: seq<char>)
    requires link != [] && link[0] != 'h' && link[0] != 'H'
    ensures !HasScheme(link)
  {
    if |link| >= |HttpScheme| {
      assert ToLower(link[0]) != ToLower(HttpScheme[0]);
    }
  }

  /** The example base used below: its path end and its last '/'. */
  lemma ExampleBase()
    ensures HasScheme("http://x.com/a/b.html")
    ensures PathEnd("http://x.com/a/b.html") == 21
    ensures MemRChr("http://x.com/a/b.html", '/', 21) == Some(14)
  {
    var base := "http://x.com/a/b.html";
    assert forall i :: 0 <= i < |base| ==> base[i] != '?' && base[i] != '#';
    MemRChrFinds(base, '/', 21, 14);
  }

  /** uri_merge on a relative link, once the base's last '/' is known. */
  lemma MergeRelativeAt(base: seq<char>, link: seq<char>, ls: nat)
    requires RelativeLink(link)
    requires MemRChr(base, '/', PathEnd(base)) == Some(ls)
    ensures SchemeSlashAt(base, ls) ==> UriMerge(base, link) == base[..PathEnd(base)] + "/" + link
    ensures !SchemeSlashAt(base, ls) ==> UriMerge(base, link) == base[..ls + 1] + link
  {
    MergeOfRelative(base, link);
  }

  /** uri_merge sends a relative link to the relative branch. */
  lemma MergeOfRelative(base: seq<char>, link: seq<char>)
    requires RelativeLink(link)
    ensures UriMerge(base, link) == RelativeMerge(base, link)
  {
    assert link[0] !in "?#/";
  }

  /** uri_merge of "../c.html" against the example base, before simplification. */
  lemma ExampleParentMerge()
    ensures UriMerge("http://x.com/a/b.html", "../c.html") == "http://x.com/a/b.html"[..15] + "../c.html"
  {
    ExampleBase();
    ExampleParentLink();
    MergeRelativeAt("http://x.com/a/b.html", "../c.html", 14);
  }

  /** The link of the example above is relative. */
  lemma ExampleParentLink()
    ensures RelativeLink("../c.html")
  {
    NoSchemeByFirst("../c.html");
  }

  /** The merged text of the example above, split at its root. */
  lemma ExampleParentText()
    ensures "http://x.com/a/b.html"[..15] + "../c.html" == "http://x.com/" + "a/../c.html"
  {
  }

  /** "../c.html" against "/a/b.html" on a host: merge, then simplify. */
  lemma ResolveParentExample()
    ensures Simplify(UriMerge("http://x.com/a/b.html", "../c.html")) == "http://x.com/" + "c.html"
  {
    ExampleParentMerge();
    ExampleParentText();
    SimplifyParentExample();
  }

  /** Simplifying the merged URL of the example above: "a/.." cancels out. */
  lemma SimplifyParentExample()
    ensures Simplify("http://x.com/" + "a/../c.html") == "http://x.com/" + "c.html"
  {
    ParentExampleRoot();
    SimplifyAfterRoot("http://x.com/", "a/../c.html");
    ParentExampleRelative();
  }

  /** Below a root that RootEnd finds, Simplify runs the cursor loop on the rest. */
  lemma SimplifyAfterRoot(root: seq<char>, rel: seq<char>)
    requires RootEnd(root + rel) == |root|
    ensures Simplify(root + rel) == root + SimplifyAsWritten(rel)
  {
    var s := root + rel;
    assert s[..|root|] == root && s[|root|..] == rel;
  }

  /** The root of the example above is "http://x.com/". */
  lemma ParentExampleRoot()
    ensures RootEnd("http://x.com/" + "a/../c.html") == 13
  {
    var root := "http://x.com/";
    var m := root + "a/../c.html";
    assert m[..|HttpScheme|] == root[..|HttpScheme|] == HttpScheme;
    assert CaseEq(m[..|HttpScheme|], HttpScheme);
    assert forall i :: 0 <= i < |root| ==> m[i] == root[i];
    assert m[7] != '/' && m[8] != '/' && m[9] != '/' && m[10] != '/' && m[11] != '/' && m[12] == '/';
    assert NextSlash(m, 7) == 12;
  }

  /** The relative part of the example above. */
  lemma ParentExampleRelative()
    ensures SimplifyAsWritten("a/../c.html") == "c.html"
  {
    var w := "a/../c.html";
    assert NextSlash(w, 0) == 1;
    assert Step(w, 0, []) == Cursor(2, "a/");
    assert BackTo("a/", 1) == 0;
    assert Step(w, 2, "a/") == Cursor(5, "");
    assert NextSlash(w, 5) == 11;
    assert Step(w, 5, "") == Cursor(11, "c.html");
  }

  // ---------------------------------------------------------------------
  // url_parse and url_error (submit/url.c:300-403)
  // ---------------------------------------------------------------------

  /** url_t: the URL it was parsed from, its host, port and path. */
  datatype ParsedUrl = ParsedUrl(url: seq<char>, host: seq<char>, port: nat, path: seq<char>)

  /** The three failures url_parse reports through *error. */
  datatype ParseError = MissingScheme | InvalidHostName | BadPortNumber

  /** The URL_* code url_parse stores for each failure. */
  function ErrorCode(e: ParseError): (code: nat)
    ensures 1 <= code < |ParseErrors|
  {
    match e
    case MissingScheme => 1
    case InvalidHostName => 2
    case BadPortNumber => 3
  }

  /** parse_errors, indexed by error code (0 is URL_NO_ERROR). */
  const ParseErrors: seq<seq<char>> := ["No error", "Scheme missing", "Invalid host name", "Bad port number"]

  /** url_error: the message of an error code; codes past the table are not valid input. */
  function UrlError(code: nat): (msg: seq<char>)
    requires code < |ParseErrors|
    ensures msg in ParseErrors
  {
    ParseErrors[code]
  }

  /** Each failure has its own message, distinct from "No error". */
  lemma ErrorMessagesDistinct(e1: ParseError, e2: ParseError)
    ensures UrlError(ErrorCode(e1)) != UrlError(0)
    ensures UrlError(ErrorCode(e1)) == UrlError(ErrorCode(e2)) ==> e1 == e2
  {
  }

  /** The value of a decimal digit. */
  function DigitValue(c: char): (d: nat)
    requires IsDigit(c)
    ensures d <= 9
  {
    c as int - '0' as int
  }

  predicate AllDigits(s: seq<char>) {
    forall i :: 0 <= i < |s| ==> IsDigit(s[i])
  }

  /** The number a string of decimal digits denotes, most significant first. */
  function DecimalValue(s: seq<char>): nat
    requires AllDigits(s)
  {
    if s == [] then 0 else 10 * DecimalValue(s[..|s| - 1]) + DigitValue(s[|s| - 1])
  }

  /** The port a ":port" text denotes: 80 when empty, nothing when malformed or too large. */
  function PortSpec(text: seq<char>): Option<nat>
  {
    if text == [] then Some(HttpDefaultPort)
    else if AllDigits(text) && DecimalValue(text) <= MaxPort then Some(DecimalValue(text))
    else None
  }

  /** A longer digit string never denotes a smaller number. */
  lemma {:induction false} DecimalPrefixNotLarger(s: seq<char>, k: nat)
    requires AllDigits(s) && k <= |s|
    ensures AllDigits(s[..k]) && DecimalValue(s[..k]) <= DecimalValue(s)
    decreases |s| - k
  {
    if k < |s| {
      var s' := s[..|s| - 1];
      assert s'[..k] == s[..k];
      assert AllDigits(s');
      DecimalPrefixNotLarger(s', k);
      assert DecimalValue(s) == 10 * DecimalValue(s') + DigitValue(s[|s| - 1]);
    } else {
      assert s[..k] == s;
    }
  }

  /**
   * The digit loop of url_parse (submit/url.c:360-374) over url[b..e]: a
   * non-digit or a running value past 0xffff stops it with no port.
   */
  method ScanPort(url: seq<char>, b: nat, e: nat) returns (port: Option<nat>)
    requires b < e <= |url|
    ensures port == PortSpec(url[b..e])
  {
    var value := 0;
    var pp := b;
    while pp < e
      invariant b <= pp <= e
      invariant AllDigits(url[b..pp]) && value == DecimalValue(url[b..pp]) && value <= MaxPort
    {
      if !IsDigit(url[pp]) {
        assert url[b..e][pp - b] == url[pp];
        return None;
      }
      assert url[b..pp + 1][..pp - b] == url[b..pp];
      value := 10 * value + DigitValue(url[pp]);
      if value > MaxPort {
        if AllDigits(url[b..e]) {
          assert url[b..e][..pp + 1 - b] == url[b..pp + 1];
          DecimalPrefixNotLarger(url[b..e], pp + 1 - b);
        }
        return None;
      }
      pp := pp + 1;
    }
    port := Some(value);
  }

  /** The length of the host: up to the first ':' or '/' after the scheme. */
  function HostLength(url: seq<char>): (n: nat)
    requires HasScheme(url)
    ensures |HttpScheme| + n <= |url|
  {
    StrpbrkOrEos(url[|HttpScheme|..], ":/")
  }

  /** The port text of what follows the host: after a ':', up to the next '/'. */
  function PortText(rest: seq<char>): (t: seq<char>)
  {
    if rest != [] && rest[0] == ':' then rest[1..][..StrpbrkOrEos(rest[1..], "/")] else []
  }

  /** What follows the host and the optional ":port". */
  function AfterPort(rest: seq<char>): seq<char>
  {
    if rest != [] && rest[0] == ':' then rest[1 + |PortText(rest)|..] else rest
  }

  /** The path: everything after the leading '/', or nothing. */
  function PathText(afterPort: seq<char>): seq<char>
  {
    if afterPort == [] then [] else afterPort[1..]
  }

  /**
   * What url_parse accepts and returns, stated over the text: a scheme, a
   * non-empty host up to the first ':' or '/', an optional ":port" up to
   * the next '/', then a path that is everything after that '/'. A
   * success needs the scheme, keeps the whole URL, has a host, and a port
   * that fits in 16 bits.
   */
  function ParseSpec(url: seq<char>): (r: Result<ParsedUrl, ParseError>)
    ensures r.Success? ==> HasScheme(url) && r.value.url == url && r.value.host != [] && r.value.port <= MaxPort
  {
    if !HasScheme(url) then Failure(MissingScheme)
    else if HostLength(url) == 0 then Failure(InvalidHostName)
    else
      var hostEnd := |HttpScheme| + HostLength(url);
      var rest := url[hostEnd..];
      match PortSpec(PortText(rest))
      case None => Failure(BadPortNumber)
      case Some(port) => Success(ParsedUrl(url, url[|HttpScheme|..hostEnd], port, PathText(AfterPort(rest))))
  }

  /**
   * The port part of url_parse (submit/url.c:350-376), from the end of the
   * host: the port, and where the path part starts.
   */
  method ParsePortField(url: seq<char>, hostE: nat) returns (port: Option<nat>, p: nat)
    requires hostE <= |url|
    requires hostE == |url| || url[hostE] == ':' || url[hostE] == '/'
    ensures port == PortSpec(PortText(url[hostE..]))
    ensures hostE <= p <= |url| && url[p..] == AfterPort(url[hostE..])
    ensures p == |url| || url[p] == '/'
  {
    ghost var rest := url[hostE..];
    p := hostE;
    port := Some(HttpDefaultPort);
    if At(url, p) == ':' {
      p := p + 1;
      var portB := p;
      assert rest[1..] == url[portB..];
      p := p + StrpbrkOrEos(url[p..], "/");
      assert PortText(rest) == url[portB..p];
      if portB != p {
        port := ScanPort(url, portB, p);
      }
    }
  }

  /** The path part of url_parse (submit/url.c:377-386). */
  method ParsePathField(url: seq<char>, p: nat) returns (path: seq<char>)
    requires p <= |url| && (p == |url| || url[p] == '/')
    ensures path == PathText(url[p..])
  {
    path := [];
    if At(url, p) == '/' {
      var b := p + 1;
      StrpbrkOrEosEmptyAccept(url[b..]);
      path := StrDupDelim(url, b, b + StrpbrkOrEos(url[b..], []));
    }
  }

  /** url_parse. */
  method UrlParse(url: seq<char>) returns (r: Result<ParsedUrl, ParseError>)
    ensures r == ParseSpec(url)
  {
    if !HasScheme(url) {
      r := Failure(MissingScheme);
    } else {
      var hostB := |HttpScheme|;
      var hostE := hostB + StrpbrkOrEos(url[hostB..], ":/");
      if hostB == hostE {
        r := Failure(InvalidHostName);
      } else {
        var port, p := ParsePortField(url, hostE);
        if port.None? {
          r := Failure(BadPortNumber);
        } else {
          var path := ParsePathField(url, p);
          r := Success(ParsedUrl(url, StrDupDelim(url, hostB, hostE), port.value, path));
        }
      }
    }
  }

  /** url_parse fails with code 1 exactly when the "http://" prefix is missing. */
  lemma ParseMissingScheme(url: seq<char>)
    ensures ParseSpec(url) == Failure(MissingScheme) <==> !HasScheme(url)
  {
  }

  /** With a scheme, code 2 exactly when the host is empty: ':' or '/' or the end right after it. */
  lemma ParseInvalidHost(url: seq<char>)
    requires HasScheme(url)
    ensures ParseSpec(url) == Failure(InvalidHostName) <==>
      (|url| == |HttpScheme| || url[|HttpScheme|] == ':' || url[|HttpScheme|] == '/')
  {
    if |url| > |HttpScheme| {
      assert url[|HttpScheme|..][0] == url[|HttpScheme|];
    }
  }

  /** Code 3 exactly when a non-empty ":port" has a non-digit or exceeds 0xffff. */
  lemma ParseBadPort(url: seq<char>)
    requires HasScheme(url) && HostLength(url) > 0
    ensures var t := PortText(url[|HttpScheme| + HostLength(url)..]);
      ParseSpec(url) == Failure(BadPortNumber) <==> (t != [] && (!AllDigits(t) || DecimalValue(t) > MaxPort))
  {
  }

  /** A successful parse: the fields are pieces of the URL, and the port is a valid one. */
  lemma ParseSuccessFields(url: seq<char>)
    requires ParseSpec(url).Success?
    ensures var u := ParseSpec(url).value;
      u.url == url && u.host != [] && ':' !in u.host && '/' !in u.host && u.port <= MaxPort &&
      url[|HttpScheme|..|HttpScheme| + |u.host|] == u.host && |u.path| <= |url| && url[|url| - |u.path|..] == u.path
  {
    ParsedFields(url);
    var u := ParseSpec(url).value;
    var hostEnd := |HttpScheme| + HostLength(url);
    assert u.host == url[|HttpScheme|..hostEnd];
    HostHasNoDelimiter(url);
    PathIsSuffix(url);
    assert |u.host| == HostLength(url);
  }

  /** The fields of a successful parse, named by the scans that find them. */
  lemma ParsedFields(url: seq<char>)
    requires ParseSpec(url).Success?
    ensures HasScheme(url) && HostLength(url) > 0
    ensures var u := ParseSpec(url).value;
      u.url == url && u.port <= MaxPort &&
      u.host == url[|HttpScheme|..|HttpScheme| + HostLength(url)] &&
      u.path == PathText(AfterPort(url[|HttpScheme| + HostLength(url)..]))
  {
  }

  /** The path found after the host is a suffix of the URL. */
  lemma PathIsSuffix(url: seq<char>)
    requires HasScheme(url)
    ensures var path := PathText(AfterPort(url[|HttpScheme| + HostLength(url)..]));
      |path| <= |url| && url[|url| - |path|..] == path
  {
    var rest := url[|HttpScheme| + HostLength(url)..];
    var a := AfterPort(rest);
    var path := PathText(a);
    assert url[|url| - |rest|..] == rest;
    AfterPortIsSuffix(rest);
    PathTextIsSuffix(a);
    SuffixOfSuffix(rest, a, path);
    SuffixOfSuffix(url, rest, path);
  }

  /** What follows the port is a suffix of what follows the host. */
  lemma AfterPortIsSuffix(rest: seq<char>)
    ensures var a := AfterPort(rest); |a| <= |rest| && rest[|rest| - |a|..] == a
  {
  }

  /** The path is a suffix of what follows the port. */
  lemma PathTextIsSuffix(a: seq<char>)
    ensures var path := PathText(a); |path| <= |a| && a[|a| - |path|..] == path
  {
  }

  /** A suffix of a suffix of s is a suffix of s. */
  lemma SuffixOfSuffix(s: seq<char>, t: seq<char>, u: seq<char>)
    requires |t| <= |s| && s[|s| - |t|..] == t
    requires |u| <= |t| && t[|t| - |u|..] == u
    ensures s[|s| - |u|..] == u
  {
    assert s[|s| - |u|..] == s[|s| - |t|..][|t| - |u|..];
  }

  /** The host of an "http://" URL holds neither ':' nor '/'. */
  lemma HostHasNoDelimiter(url: seq<char>)
    requires HasScheme(url)
    ensures var host := url[|HttpScheme|..|HttpScheme| + HostLength(url)];
      ':' !in host && '/' !in host
  {
    var n := HostLength(url);
    var tail := url[|HttpScheme|..];
    assert url[|HttpScheme|..|HttpScheme| + n] == tail[..n];
    forall i | 0 <= i < n
      ensures tail[i] != ':' && tail[i] != '/'
    {
      assert tail[i] !in ":/";
    }
  }

  /** The decimal spelling of n, most significant digit first, without leading zeros. */
  function DecimalString(n: nat): (s: seq<char>)
    ensures s != [] && AllDigits(s)
  {
    if n < 10 then [('0' as int + n) as char]
    else DecimalString(n / 10) + [('0' as int + n % 10) as char]
  }

  /** Reading the decimal spelling of n gives n back. */
  lemma {:induction false} DecimalStringValue(n: nat)
    ensures DecimalValue(DecimalString(n)) == n
  {
    var s := DecimalString(n);
    if n >= 10 {
      DecimalStringValue(n / 10);
      assert s[..|s| - 1] == DecimalString(n / 10);
    }
  }

  /** No '/' in a string of digits. */
  lemma DigitsHaveNoSlash(s: seq<char>)
    requires AllDigits(s)
    ensures StrpbrkOrEos(s, "/") == |s|
  {
  }

  /** Parsing "http://host:port/path" returns host, port and path. */
  lemma ParseRoundTrip(host: seq<char>, port: nat, path: seq<char>)
    requires host != [] && ':' !in host && '/' !in host
    requires port <= MaxPort
    ensures var url := HttpScheme + host + ":" + DecimalString(port) + "/" + path;
      ParseSpec(url) == Success(ParsedUrl(url, host, port, path))
  {
    var rest := ":" + DecimalString(port) + "/" + path;
    assert HttpScheme + host + ":" + DecimalString(port) + "/" + path == HttpScheme + host + rest;
    assert rest != [] && rest[0] == ':';
    assert PortSpec(PortText(rest)) == Some(port) && PathText(AfterPort(rest)) == path by {
      PortPart(port, path);
    }
    ParseOfParts(host, rest, port);
  }

  /** Parsing "http://host/path" returns host, port 80 and path. */
  lemma ParseRoundTripDefaultPort(host: seq<char>, path: seq<char>)
    requires host != [] && ':' !in host && '/' !in host
    ensures var url := HttpScheme + host + "/" + path;
      ParseSpec(url) == Success(ParsedUrl(url, host, HttpDefaultPort, path))
  {
    var rest := "/" + path;
    assert HttpScheme + host + "/" + path == HttpScheme + host + rest;
    assert PortText(rest) == [] && AfterPort(rest) == rest;
    ParseOfParts(host, rest, HttpDefaultPort);
  }

  /** A URL made of the scheme, a plain host and a rest whose port text is valid. */
  lemma ParseOfParts(host: seq<char>, rest: seq<char>, port: nat)
    requires host != [] && ':' !in host && '/' !in host
    requires rest != [] && (rest[0] == ':' || rest[0] == '/')
    requires PortSpec(PortText(rest)) == Some(port)
    ensures ParseSpec(HttpScheme + host + rest) ==
      Success(ParsedUrl(HttpScheme + host + rest, host, port, PathText(AfterPort(rest))))
  {
    HostPart(host, rest);
  }

  /** The host scan stops right after a host free of ':' and '/'. */
  lemma HostPart(host: seq<char>, rest: seq<char>)
    requires host != [] && ':' !in host && '/' !in host
    requires rest != [] && (rest[0] == ':' || rest[0] == '/')
    ensures var url := HttpScheme + host + rest;
      HasScheme(url) && HostLength(url) == |host| &&
      url[|HttpScheme|..|HttpScheme| + |host|] == host && url[|HttpScheme| + |host|..] == rest
  {
    var url := HttpScheme + host + rest;
    assert url[..|HttpScheme|] == HttpScheme;
    assert CaseEq(url[..|HttpScheme|], HttpScheme);
    var tail := url[|HttpScheme|..];
    assert tail == host + rest;
    StrpbrkOrEosFrom(tail, ":/", |host|);
    assert tail[|host|..] == rest;
  }

  /** After the host, ":port/path" yields the port and the path. */
  lemma PortPart(port: nat, path: seq<char>)
    requires port <= MaxPort
    ensures var rest := ":" + DecimalString(port) + "/" + path;
      PortSpec(PortText(rest)) == Some(port) && PathText(AfterPort(rest)) == path
  {
    var digits := DecimalString(port);
    var rest := ":" + digits + "/" + path;
    assert rest[1..] == digits + ("/" + path);
    StrpbrkOrEosFrom(rest[1..], "/", |digits|);
    assert PortText(rest) == digits;
    DecimalStringValue(port);
    assert rest[1 + |digits|..] == "/" + path;
  }

  /** The path runs to the end of the URL: a query or fragment stays in it. */
  lemma ParsePathKeepsQuery()
    ensures ParseSpec("http://h/p?q#f") == Success(ParsedUrl("http://h/p?q#f", "h", HttpDefaultPort, "p?q#f"))
  {
    ParseRoundTripDefaultPort("h", "p?q#f");
    assert HttpScheme + "h" + "/" + "p?q#f" == "http://h/p?q#f";
  }
}
