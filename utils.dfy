/**
 * The helpers of submit/utils.c and submit/utils.h, and the <ctype.h> and
 * <string.h> character tests the rest of the crawler relies on.
 *
 * A C string is modelled as the seq<char> of its bytes before the
 * terminating NUL; a "pointer" into it is an index, and the index |s|
 * stands for the terminator itself.
 */
module Utils {
  import opened Wrappers

  /** The byte a C scan reads at index i: past the end it meets the NUL. */
  function At(s: seq<char>, i: int): (c: char)
    ensures 0 <= i < |s| ==> c == s[i]
    ensures !(0 <= i < |s|) ==> c == '\0'
  {
    if 0 <= i < |s| then s[i] else '\0'
  }

  /** isdigit in the C locale. */
  predicate IsDigit(c: char) {
    '0' <= c <= '9'
  }

  /** isspace in the C locale: space, \t, \n, \v, \f, \r. */
  predicate IsSpace(c: char) {
    c == ' ' || c == '\t' || c == '\n' || c as int == 11 || c as int == 12 || c == '\r'
  }

  /** tolower in the C locale. */
  function ToLower(c: char): (r: char)
    ensures 'A' <= c <= 'Z' ==> 'a' <= r <= 'z' && r as int - 'a' as int == c as int - 'A' as int
    ensures !('A' <= c <= 'Z') ==> r == c
  {
    if 'A' <= c <= 'Z' then (c as int + 32) as char else c
  }

  /** The same letter of the alphabet, upper-case in x and lower-case in y. */
  predicate UpperLower(x: char, y: char) {
    'A' <= x <= 'Z' && 'a' <= y <= 'z' && y as int - 'a' as int == x as int - 'A' as int
  }

  /**
   * strncasecmp(a, b, n) == 0 where both have at least n bytes: position by
   * position the characters are equal or are one letter in its two cases.
   */
  function CaseEq(a: seq<char>, b: seq<char>): (r: bool)
    requires |a| == |b|
    ensures r <==> forall i :: 0 <= i < |a| ==>
      a[i] == b[i] || UpperLower(a[i], b[i]) || UpperLower(b[i], a[i])
  {
    forall i :: 0 <= i < |a| ==> ToLower(a[i]) == ToLower(b[i])
  }

  /**
   * strpbrk_or_eos (submit/utils.c:5-12): the index of the first byte of s
   * that occurs in accept, or |s| (the terminator) when there is none.
   */
  function StrpbrkOrEos(s: seq<char>, accept: seq<char>): (r: nat)
    ensures r <= |s|
    ensures r < |s| ==> s[r] in accept
    ensures forall i :: 0 <= i < r ==> s[i] !in accept
  {
    if |s| == 0 then 0
    else if s[0] in accept then 0
    else 1 + StrpbrkOrEos(s[1..], accept)
  }

  /** With an empty accept set, the scan always stops at the terminator. */
  lemma StrpbrkOrEosEmptyAccept(s: seq<char>)
    ensures StrpbrkOrEos(s, []) == |s|
  {
  }

  /**
   * Searching a suffix: the result of a scan started at index k is the
   * result from the start when no accepted byte precedes k.
   */
  lemma {:induction false} StrpbrkOrEosFrom(s: seq<char>, accept: seq<char>, k: nat)
    requires k <= |s|
    requires forall i :: 0 <= i < k ==> s[i] !in accept
    ensures StrpbrkOrEos(s, accept) == k + StrpbrkOrEos(s[k..], accept)
  {
    if k > 0 {
      assert s[1..][k - 1..] == s[k..];
      StrpbrkOrEosFrom(s[1..], accept, k - 1);
    }
  }

  /**
   * memchr(s + lo, c, hi - lo): the index of the first c in s[lo..hi],
   * or hi when there is none.
   */
  function MemChr(s: seq<char>, c: char, lo: nat, hi: nat): (k: nat)
    requires lo <= hi <= |s|
    ensures lo <= k <= hi
    ensures k < hi ==> s[k] == c
    ensures forall i :: lo <= i < k ==> s[i] != c
    decreases hi - lo
  {
    if lo == hi || s[lo] == c then lo else MemChr(s, c, lo + 1, hi)
  }

  /** memrchr(s, c, hi): the index of the last c in s[..hi], if any. */
  function MemRChr(s: seq<char>, c: char, hi: nat): (r: Option<nat>)
    requires hi <= |s|
    ensures r.Some? ==> r.value < hi && s[r.value] == c
    ensures r.Some? ==> forall i :: r.value < i < hi ==> s[i] != c
    ensures r.None? ==> forall i :: 0 <= i < hi ==> s[i] != c
  {
    if hi == 0 then None
    else if s[hi - 1] == c then Some(hi - 1)
    else MemRChr(s, c, hi - 1)
  }

  /** memrchr finds the c at k when no other c follows it before hi. */
  lemma {:induction false} MemRChrFinds(s: seq<char>, c: char, hi: nat, k: nat)
    requires k < hi <= |s| && s[k] == c
    requires forall i :: k < i < hi ==> s[i] != c
    ensures MemRChr(s, c, hi) == Some(k)
    decreases hi
  {
    if hi - 1 != k {
      MemRChrFinds(s, c, hi - 1, k);
    }
  }

  /**
   * strdupdelim (submit/utils.c:14-20): a fresh string holding exactly the
   * bytes [beg, end) of s (the copy's NUL is implicit in seq<char>).
   */
  function StrDupDelim(s: seq<char>, beg: nat, end: nat): (r: seq<char>)
    requires beg <= end <= |s|
    ensures |r| == end - beg
    ensures forall i :: 0 <= i < |r| ==> r[i] == s[beg + i]
  {
    s[beg..end]
  }

  /** MIN (submit/utils.h:4): the smaller argument, the first on a tie. */
  function Min(i: int, j: int): (r: int)
    ensures r <= i && r <= j
    ensures r == i || r == j
    ensures i <= j ==> r == i
  {
    if i <= j then i else j
  }

  /** The smallest capacity DO_REALLOC starts from once it has to grow. */
  const MinGrowth: nat := 16

  /** One doubling step of DO_REALLOC, with its floor of 16. */
  function NextSize(size: nat): (r: nat)
    ensures r > size && r >= MinGrowth
    ensures r >= 2 * size && (r == 2 * size || r == MinGrowth)
  {
    if 2 * size < MinGrowth then MinGrowth else 2 * size
  }

  /**
   * The capacity DO_REALLOC (submit/utils.h:9-16) ends with: unchanged when
   * it already suffices, otherwise doubled (floor 16) until it does. The
   * grown capacity meets the need, is at least 16 when growth happened, and
   * is reached by whole doubling steps: never more than twice the need (or 16).
   */
  function GrownSize(size: nat, needed: int): (r: nat)
    ensures r >= needed && r >= size
    ensures size >= needed ==> r == size
    ensures size < needed ==> r >= MinGrowth && (r < 2 * needed || r == MinGrowth)
    decreases if needed > size then needed - size else 0
  {
    if size >= needed then size else GrownSize(NextSize(size), needed)
  }

  /**
   * The size loop of DO_REALLOC: sizevar doubles in place, with a floor of
   * 16, until it reaches the need; grown reports whether it moved (the
   * macro's DR_newsize != 0, which decides whether it reallocates).
   */
  method GrowCapacity(size: nat, needed: int) returns (newSize: nat, grown: bool)
    ensures newSize == GrownSize(size, needed)
    ensures grown <==> size < needed
    ensures !grown ==> newSize == size
  {
    newSize := size;
    grown := false;
    while newSize < needed
      invariant newSize >= size
      invariant GrownSize(newSize, needed) == GrownSize(size, needed)
      invariant grown <==> newSize != size
      invariant grown ==> size < needed
      decreases needed - newSize
    {
      newSize := NextSize(newSize);
      grown := true;
    }
  }

  /**
   * DO_REALLOC on a buffer: when the capacity is short it grows as above
   * and the buffer is reallocated to the new capacity, keeping its old
   * elements (new slots hold fill, realloc leaves them unspecified);
   * otherwise neither the buffer nor the capacity changes.
   */
  method DoRealloc<T>(buf: array<T>, size: nat, needed: int, fill: T) returns (nbuf: array<T>, newSize: nat)
    requires buf.Length == size
    ensures newSize == GrownSize(size, needed)
    ensures size >= needed ==> nbuf == buf && newSize == size
    ensures size < needed ==> fresh(nbuf) && newSize >= needed && newSize >= MinGrowth
    ensures nbuf.Length == newSize
    ensures nbuf[..size] == old(buf[..])
  {
    var grown;
    newSize, grown := GrowCapacity(size, needed);
    if !grown {
      nbuf := buf;
      return;
    }
    nbuf := Realloc(buf, newSize, fill);
  }

  /** realloc to a larger block: the old elements keep their places, the new ones are unspecified (`fill`). */
  method Realloc<T>(buf: array<T>, newSize: nat, fill: T) returns (nbuf: array<T>)
    requires buf.Length <= newSize
    ensures fresh(nbuf) && nbuf.Length == newSize
    ensures nbuf[..buf.Length] == buf[..]
    ensures forall i :: buf.Length <= i < newSize ==> nbuf[i] == fill
  {
    nbuf := new T[newSize](_ => fill);
    var i := 0;
    while i < buf.Length
      invariant 0 <= i <= buf.Length
      invariant nbuf[..i] == buf[..i]
      invariant forall k :: buf.Length <= k < newSize ==> nbuf[k] == fill
      modifies nbuf
    {
      nbuf[i] := buf[i];
      i := i + 1;
    }
  }
}
