# A verified model of a small multi-threaded web crawler

The crawler starts from one seed page. It downloads pages over plain HTTP/1.x
and pulls the links out of each page. Every link is turned into an absolute,
simplified URL. It then records the link in a web graph: pages are nodes, links
are edges, and each page keeps the list of pages that link to it, its
out-degree and a "dangling" bit. A URL that has not been seen before is also
put on a FIFO frontier. Once the frontier stays empty for every worker, the
program ranks the pages and prints the best ones.

This project models that core in Dafny and proves what each part promises:

- `utils.dfy` (module `Utils`): the C-string helpers of `submit/utils.c` and
  the `MIN` and `DO_REALLOC` macros of `submit/utils.h`.
- `bitmap.dfy` (module `Bitmap`): the `SETBIT`/`CLRBIT`/`GETBIT` macros over
  byte arrays.
- `url.dfy` (module `Url`): `url_simplify` (in place on a NUL-terminated
  `array<char>`), `uri_merge`, `url_parse` with its error table, and
  `url_error`.
- `urlqueue.dfy` (module `UrlQueues`): the frontier, a singly linked queue
  with head, tail, count and maxcount, as a class over heap nodes.
- `http.dfy` (module `Http`): the socket as a `Stream` object;
  `read_http_resp_head` with its peek/read loop and buffer growth;
  `http_resp_header_terminator`; `resp_new`, `resp_status`,
  `resp_header_locate`, `resp_header_copy` and `read_resp_body`.
- `webgraph.dfy` (module `WebGraphs`): the web graph as a class over arrays.
  It covers `webgraph_new`, `_add_url`, `_resize`, `_add_link`, `_contains`
  and `_get_size`.
- `topn.dfy` (module `TopN`): `heap` and `print_top_n`, an in-place heap
  selection over an index array.
- `crawler.dfy` (module `Crawler`): `retrieve_webpage`, `check_exit`, the
  Content-Length handling and the seeding in `main`, run sequentially.
- `wrappers.dfy` (module `Wrappers`): `Option` and `Result`.

Conventions used throughout:

- A C string is a `seq<char>` without its NUL. A read past the end yields
  `'\0'` (`Utils.At`), so a check the C code makes for the terminating NUL
  becomes a check on `At`.
- `long` values are unbounded integers. `strtoll` saturates explicitly to
  `LONG_MIN`/`LONG_MAX`.
- A NULL referer is modelled as the empty string and a NULL depth as 0.
- The head `read_http_resp_head` returns is raw bytes and may hold a NUL.
  `resp_new` reads it as a C string, so its scans stop at the first NUL
  (`Http.CStrLen`), whatever follows.
- The socket is a `Stream` object. It holds the bytes the server will
  send, the most any single `recv` returns (`burst`), and whether the
  connection then ends in an error.

Where the comments in the code and its behaviour differ, the model follows
the code:

- `print_top_n` prints nothing when asked for more pages than the graph
  holds.
- The head returned by `read_http_resp_head` includes its terminating blank
  line.
- The path `url_parse` returns keeps the query and the fragment
  (`ParsePathKeepsQuery`).
- A reply that does not start with `HTTP` yields an empty head. `resp_status`
  then reports 200 for it (`NonHttpReplyHasStatus200`).

## Model

| member | source | states |
|---|---|---|
| Utils.At | submit/url.c:30-75 | reading inside the string gives that character; any read past the end gives the NUL |
| Utils.ToLower | submit/url.c:15-16 | tolower in the C locale: an upper-case letter becomes the lower-case letter at the same place in the alphabet; every other character is left alone |
| Utils.CaseEq | submit/url.c:15-16 | strncasecmp(a, b, n) == 0: position by position the characters are equal or are one letter in its two cases |
| Utils.StrpbrkOrEos | submit/utils.c:5-12 | result is the first position holding a character of `accept`, or the string's length when there is none |
| Utils.StrpbrkOrEosEmptyAccept | submit/utils.c:5-12 | with an empty accept set the scan always reaches the end of the string |
| Utils.StrpbrkOrEosFrom | submit/utils.c:5-12 | skipping a prefix free of accepted characters shifts the result by that prefix's length |
| Utils.MemChr | submit/url.c:113-169 | first occurrence of c in [lo, hi), or hi when c does not occur there |
| Utils.MemRChr | submit/url.c:170-199 | last occurrence of c before hi, or None exactly when c does not occur before hi |
| Utils.MemRChrFinds | submit/url.c:170-199 | a c with no c after it before hi is what the backward search returns |
| Utils.StrDupDelim | submit/utils.c:14-20 | the copy has length end - beg and holds exactly the characters s[beg..end) |
| Utils.Min | submit/utils.h:4 | the result is the smaller of the two, and the first one on a tie |
| Utils.NextSize | submit/utils.h:10-12 | one doubling step of DO_REALLOC: exactly twice the old size, or 16 when twice is less; always larger than the old size |
| Utils.GrownSize | submit/utils.h:6-17 | the capacity DO_REALLOC ends with covers the need and the old size, is the old size when that sufficed, and otherwise is at least 16 and under twice the need, or exactly 16 |
| Utils.GrowCapacity | submit/utils.h:9-14 | the doubling loop ends at the grown size; it grows exactly when the old size was short of the need, and otherwise keeps the old size |
| Utils.DoRealloc | submit/utils.h:6-17 | a short buffer is replaced by a fresh one of the grown size that keeps the old contents; a big enough buffer is kept as it is |
| Utils.Realloc | submit/utils.h:15-16 | a fresh, larger buffer that starts with the old contents and is filled after them |
| Bitmap.BytesFor | submit/webgraph.c:80 | size / CHAR_BIT + 1 bytes hold a bit for every index up to and including size |
| Bitmap.GetBit | submit/webgraph.c:12 | GETBIT(a, n) is bit n % 8 of byte n / 8 |
| Bitmap.SetBit | submit/webgraph.c:10 | after SETBIT(n), GETBIT(n) holds and every other byte is unchanged |
| Bitmap.ClrBit | submit/webgraph.c:11 | after CLRBIT(n), GETBIT(n) fails and every other byte is unchanged |
| Bitmap.MaskOr | submit/webgraph.c:10-12 | after or-ing in bit i, bit j is set iff j == i or it was set before |
| Bitmap.MaskAndNot | submit/webgraph.c:10-12 | after clearing bit i, bit j is set iff j != i and it was set before |
| Bitmap.GetSetBit | submit/webgraph.c:10-12 | after SETBIT(n), GETBIT(m) holds iff m == n or it held before |
| Bitmap.GetClrBit | submit/webgraph.c:10-12 | after CLRBIT(n), GETBIT(m) holds iff m != n and it held before |
| Bitmap.GetBitOfFull | submit/webgraph.c:83 | every bit of a byte set to 0xFF reads as set |
| Bitmap.GetBitOfZero | submit/main.c:26-30 | every bit of a zero byte reads as clear |
| Bitmap.SetBitIn | submit/webgraph.c:10 | SETBIT in place: the array becomes SetBit of its old contents |
| Bitmap.ClrBitIn | submit/webgraph.c:11 | CLRBIT in place: the array becomes ClrBit of its old contents |
| Url.HasScheme | submit/url.c:15-16 | URL_HAS_SCHEME: at least 7 bytes whose first four are "http" in any mix of cases and whose next three are exactly "://" |
| Url.PathEnd | submit/url.c:22-26 | the first '?' or '#', or the end; nothing before it is '?' or '#' |
| Url.NextSlash | submit/url.c:53-68 | the next '/' at or after h, or the end, with no '/' in between |
| Url.BackTo | submit/url.c:43-52 | the start of the last segment written: position 0 or just after a '/', with no '/' from there to t |
| Url.CLength | submit/url.c:30-75 | strlen: the first NUL, with no NUL before it |
| Url.Step | submit/url.c:39-68 | one pass of the loop moves the read cursor forward and writes no more bytes than it read |
| Url.Run | submit/url.c:30-75 | the loop never writes more than it has read |
| Url.SimplifyAsWritten | submit/url.c:30-75 | url_simplify never lengthens a URL, so working in place is safe, and leaves no "." or ".." segment |
| Url.BackUpCursor | submit/url.c:43-52 | the write cursor moves back to where the previous segment began |
| Url.SkipSegment | submit/url.c:53-68 | a segment copied onto itself ends where the next one starts |
| Url.MoveSegment | submit/url.c:53-68 | the byte loop appends s[h..SegEnd) at the write cursor and leaves the unread input and the bytes past the end alone |
| Url.MoveByte | submit/url.c:53-68 | one copied byte extends the output by that input byte and keeps the unread input |
| Url.SimplifyStep | submit/url.c:39-68 | one iteration of the in-place loop does what Step says to the output written so far |
| Url.CopySegment | submit/url.c:53-68 | copying a segment appends exactly that segment to the output |
| Url.UrlSimplify | submit/url.c:30-75 | in place, the string becomes SimplifyAsWritten of its old contents and is NUL-terminated; the result is 1 exactly when it got shorter; bytes past the old NUL are untouched |
| Url.PrefixKeepsNoDots | submit/url.c:43-52 | backing up over a segment leaves a clean output clean |
| Url.CopiedSegmentNotDot | submit/url.c:53-68 | a segment the loop copies is neither "." nor ".." and holds no inner '/' |
| Url.AppendSegmentKeepsNoDots | submit/url.c:53-68 | appending such a segment after a '/' keeps the output clean |
| Url.RunNoDots | submit/url.c:30-75 | the output of the loop has no "." or ".." segment |
| Url.RunOnClean | submit/url.c:30-75 | on a clean string the loop rewrites each byte with itself |
| Url.SimplifyClean | submit/url.c:30-75 | a string with no dot segments is left unchanged |
| Url.SimplifyIdempotent | submit/url.c:30-75 | simplifying twice is the same as simplifying once |
| Url.SimplifyDotDotExample | submit/url.c:43-52 | "/a/b/../c" becomes "/a/c" |
| Url.SimplifyDotExample | submit/url.c:39-42 | "/a/./b" becomes "/a/b" |
| Url.SimplifyDropsLeadingSlash | submit/url.c:43-52 | as written, "/../a" becomes "a": the leading '/' is lost (see Findings) |
| Url.RootEnd | submit/url.c:43-52 | where the part kept by the corrected simplifier ends: after "scheme://host/" or after a leading '/' |
| Url.Simplify | submit/url.c:43-52 | corrected url_simplify: keeps the root, is never longer than its input, and leaves no dot segment after the root |
| Url.SimplifyKeepsLeadingSlash | submit/url.c:43-52 | corrected: "/../a" becomes "/a" |
| Url.SimplifyRootDotDotExample | submit/url.c:43-52 | corrected, "/a/b/../c" still becomes "/a/c" |
| Url.RootDotDotRelative | submit/url.c:43-52 | as written, "a/b/../c" becomes "a/c" |
| Url.HostExampleRelative | submit/url.c:43-52 | as written, ".." past the start is dropped: "a/../../b" becomes "b" |
| Url.SimplifyKeepsHost | submit/url.c:43-52 | corrected, ".." never climbs over the host: "http://x.com/a/../../b" becomes "http://x.com/b" |
| Url.FragmentStart | submit/url.c:101-112 | the first '#', or the end, with no '#' before it |
| Url.NetPathInsert | submit/url.c:113-132 | where a "//" link is spliced in lies within the base's path part |
| Url.AbsPathInsert | submit/url.c:133-169 | where a "/" link is spliced in lies within the base's path part |
| Url.RelativeMerge | submit/url.c:170-199 | a relative link ends the merged URL |
| Url.UriMerge | submit/url.c:77-202 | a link with a scheme is returned as it is; an empty link gives the base; every other link ends the merged URL |
| Url.AuthorityEnd | submit/url.c:133-169 | the authority of an "http://" URL ends after the scheme and within the URL |
| Url.SchemeShape | submit/url.c:113-169 | in an "http://" base, the first '/' is at index 5, the authority holds no '/', '?' or '#', and it ends at a '/' or at the end of the path |
| Url.SchemePathEnd | submit/url.c:113-132 | in an "http://" base the path part starts after the scheme and its first '/' is at index 5 |
| Url.SchemeAuthority | submit/url.c:133-169 | the authority holds no '/', '?' or '#' and ends at a '/' or at the end of the path |
| Url.MergeQuery | submit/url.c:93-100 | a "?" link replaces the base's query and fragment and keeps its path |
| Url.MergeFragment | submit/url.c:101-112 | a "#" link replaces only the base's fragment |
| Url.MergeNetworkPath | submit/url.c:113-132 | a "//" link keeps only the base's "http:" |
| Url.MergeAbsolutePath | submit/url.c:133-169 | a "/" link keeps the base's scheme and authority and replaces the rest |
| Url.MergeRelativeAtAuthority | submit/url.c:170-199 | a relative link against a base with no path gets a '/' of its own after the host |
| Url.MergeRelativeInPath | submit/url.c:170-199 | a relative link replaces the last segment of the base's path and keeps everything up to that segment's '/' |
| Url.NoSchemeByFirst | submit/url.c:15-16 | a link whose first letter is not 'h' or 'H' has no scheme |
| Url.ExampleBase | submit/url.c:22-26 | on "http://x.com/a/b.html", the path ends at 21 and its last '/' is at 14 |
| Url.MergeRelativeAt | submit/url.c:170-199 | the relative case decided by the last '/' before the query: after "http:/" insert a '/', otherwise splice after that '/' |
| Url.MergeOfRelative | submit/url.c:170-199 | every relative link takes the relative branch of uri_merge |
| Url.ExampleParentMerge | submit/url.c:170-199 | "../c.html" against "http://x.com/a/b.html" is spliced after "http://x.com/a/" |
| Url.ResolveParentExample | submit/main.c:161-163 | merge then the corrected simplify resolve "../c.html" against "http://x.com/a/b.html" to "http://x.com/c.html" |
| Url.SimplifyParentExample | submit/url.c:30-75 | the corrected simplifier turns "http://x.com/a/../c.html" into "http://x.com/c.html" |
| Url.SimplifyAfterRoot | submit/url.c:30-75 | the corrected simplifier keeps the root and simplifies the rest as written |
| Url.ParentExampleRelative | submit/url.c:43-52 | "a/../c.html" simplifies to "c.html" |
| Url.ErrorCode | submit/url.c:299-308 | every parse error has a code between 1 and the table size |
| Url.UrlError | submit/url.c:396-399 | url_error returns an entry of the message table |
| Url.ErrorMessagesDistinct | submit/url.c:299-308 | no error's message is the "no error" message, and different errors have different messages |
| Url.DigitValue | submit/url.c:361-374 | a digit's value is 0..9 |
| Url.DecimalPrefixNotLarger | submit/url.c:361-374 | a prefix of a digit string denotes no larger number, so the digit loop can reject as soon as the value exceeds 65535 |
| Url.ScanPort | submit/url.c:350-376 | the digit loop yields PortSpec of the port text: its value when it is all digits and at most 65535, and none otherwise |
| Url.ParseSpec | submit/url.c:311-394 | a successful parse needs the scheme, keeps the whole URL, and has a non-empty host and a port of at most 65535 |
| Url.HostLength | submit/url.c:337-348 | the host ends within the URL |
| Url.ParsePortField | submit/url.c:350-376 | the port field yields PortSpec of the text after ':' up to the next '/', and stops at a '/' or the end |
| Url.ParsePathField | submit/url.c:377-380 | the path is the text after the '/' |
| Url.UrlParse | submit/url.c:311-394 | url_parse returns exactly ParseSpec: an error code or the parsed fields |
| Url.ParseMissingScheme | submit/url.c:327-331 | the missing-scheme error happens iff the URL does not start with "http://" in any case |
| Url.ParseInvalidHost | submit/url.c:337-348 | the invalid-host error happens iff the host is empty |
| Url.ParseBadPort | submit/url.c:350-376 | the bad-port error happens iff the port text is non-empty and either not all digits or above 65535 |
| Url.ParseSuccessFields | submit/url.c:382-388 | a parsed URL keeps the whole URL, has a non-empty host without ':' or '/' taken right after the scheme, a port of at most 65535, and a path that is a suffix of the URL |
| Url.ParsedFields | submit/url.c:382-388 | the host is the text after "http://" and the path is the text after the port |
| Url.PathIsSuffix | submit/url.c:377-380 | the parsed path is a suffix of the URL |
| Url.AfterPortIsSuffix | submit/url.c:350-376 | what follows the port is a suffix of what follows the host |
| Url.PathTextIsSuffix | submit/url.c:377-380 | the path is a suffix of the text it is taken from |
| Url.HostHasNoDelimiter | submit/url.c:337-348 | the host holds no ':' and no '/' |
| Url.DecimalString | submit/url.c:361-374 | the decimal text of a number is a non-empty digit string |
| Url.DecimalStringValue | submit/url.c:361-374 | reading the decimal text of n back yields n |
| Url.DigitsHaveNoSlash | submit/url.c:350-376 | a digit string contains no '/' |
| Url.ParseRoundTrip | submit/url.c:311-394 | "http://" + host + ":" + port + "/" + path parses back to exactly that host, port and path |
| Url.ParseRoundTripDefaultPort | submit/url.c:350-376 | without a port the parse yields port 80 and the same host and path |
| Url.ParseOfParts | submit/url.c:311-394 | with a valid host and a valid port text, the parse succeeds with that host, that port and the path after it |
| Url.HostPart | submit/url.c:337-348 | a valid host followed by ':' or '/' is what the host scan finds |
| Url.PortPart | submit/url.c:350-380 | ":" + port + "/" + path yields that port and that path |
| Url.ParsePathKeepsQuery | submit/url.c:377-388 | the path keeps the query and the fragment: "http://h/p?q#f" gives path "p?q#f" and port 80 |
| UrlQueues.QueueElement.constructor | submit/url.c:233-238 | a new node carries the url, referer and depth and has no successor |
| UrlQueues.UrlQueue.constructor | submit/url.c:208-220 | a new queue is empty, has count and maxcount 0, and has never held an entry |
| UrlQueues.UrlQueue.Enqueue | submit/url.c:228-254 | the entry goes at the back, count grows by one, maxcount becomes the highest count so far, and the list stays well linked |
| UrlQueues.UrlQueue.Append | submit/url.c:246-251 | linking a fresh node after the tail adds it to the node list and to the history |
| UrlQueues.UrlQueue.Dequeue | submit/url.c:256-287 | fails iff the queue is empty; otherwise returns the front entry, removes exactly it and decrements count |
| UrlQueues.UrlQueue.EndsAgree | submit/url.c:265-274 | head is null iff tail is null iff the queue is empty |
| UrlQueues.UrlQueue.GetCount | submit/url.c:289-297 | count is the number of waiting entries |
| UrlQueues.FifoOrder | submit/url.c:228-287 | two entries enqueued come out in the order they went in, and the queue is then empty |
| WebGraphs.AddUrlKeepsInv | submit/webgraph.c:157-180 | adding an unknown URL as the next id keeps the graph invariant; the new page has no links and is dangling |
| WebGraphs.GrowKeepsInv | submit/webgraph.c:182-196 | arrays grown with empty lists, zero degrees and set dangling bits keep the graph invariant |
| WebGraphs.AddLinkKeepsInv | submit/webgraph.c:100-140 | recording an edge s -> d keeps the graph invariant |
| WebGraphs.WebGraph.constructor | submit/webgraph.c:50-86 | an empty graph with the given capacity; every slot has no in-links, out-degree 0 and is dangling |
| WebGraphs.WebGraph.GetSize | submit/webgraph.c:88-98 | the number of pages |
| WebGraphs.WebGraph.KnownIffListed | submit/webgraph.c:142-180 | a URL is in the hash table iff it is one of the stored page URLs |
| WebGraphs.WebGraph.IdOf | submit/webgraph.c:142-180 | a known URL's id is a valid page index holding that URL, and no other index holds it |
| WebGraphs.WebGraph.DanglingIffNoLinks | submit/webgraph.c:132-135 | a page is dangling iff its out-degree is 0 |
| WebGraphs.WebGraph.Contains | submit/webgraph.c:142-155 | true iff the URL is a page of the graph |
| WebGraphs.WebGraph.AddUrl | submit/webgraph.c:157-180 | the URL becomes the next page id with no links and dangling; everything else is unchanged; capacity doubles when it was full |
| WebGraphs.WebGraph.MakeRoom | submit/webgraph.c:170-173 | after it there is a free slot; capacity doubles only when it was full; pages, links and dangling bits are unchanged |
| WebGraphs.WebGraph.PutUrl | submit/webgraph.c:175-177 | the URL takes the next id and is recorded in the table and the URL list |
| WebGraphs.WebGraph.Resize | submit/webgraph.c:182-196 | corrected: capacity becomes the new size and every page, link, degree and dangling bit is kept |
| WebGraphs.WebGraph.ResizeAsWritten | submit/webgraph.c:182-196 | as written: max_size changes but the arrays stay the same, so the graph invariant breaks whenever the size really changes |
| WebGraphs.WebGraph.AddLink | submit/webgraph.c:100-140 | src is appended to dest's in-list, src's out-degree grows by one and only src stops being dangling |
| WebGraphs.SecondUrlOverflowsAsWritten | submit/webgraph.c:170-196 | with capacity 1, adding a second URL gives it id 1 in an array of 1 slot |
| WebGraphs.GrowBitmap | submit/webgraph.c:194-195 | a grown dangling bitmap keeps the old bits and has every new bit set |
| WebGraphs.LinkBitsAgree | submit/webgraph.c:132-133 | clearing src's bit only when it is set leaves exactly the other bits as they were |
| TopN.SwapKeepsFrame | submit/webgraph.c:317-325 | moving entries inside [m, n) keeps the index array a permutation and leaves the outside alone |
| TopN.SwapKeepsOrder | submit/webgraph.c:317-325 | moving the larger child up restores the heap order everywhere except below the moved child |
| TopN.SiftStep | submit/webgraph.c:317-325 | one step of the sift-down keeps the hole invariant one level lower |
| TopN.SiftDone | submit/webgraph.c:322-326 | when the sifted key dominates its children, the range is a heap |
| TopN.SiftOnce | submit/webgraph.c:317-325 | one iteration either stops at a place where the key dominates its children or moves one level down |
| TopN.Heap | submit/webgraph.c:309-327 | sifting index[m] down makes [m, n) a heap, is a permutation, and changes nothing outside [m, n) |
| TopN.Ids | submit/webgraph.c:340 | the identity index: entry t is t |
| TopN.IdsOnce | submit/webgraph.c:340 | every page id occurs exactly once in the identity index |
| TopN.RootIsMax | submit/webgraph.c:345-347 | in a heap the root's rank is at least that of every entry |
| TopN.RootDominates | submit/webgraph.c:345-347 | the root dominates every entry of the heap range |
| TopN.HeapBelowRoot | submit/webgraph.c:348 | replacing the root leaves the rest of the shrunk range a heap |
| TopN.PopMax | submit/webgraph.c:347-353 | takes the highest-ranked id out of the heap and leaves the rest a heap of the remaining ids |
| TopN.PopEntries | submit/webgraph.c:347-353 | the popped root plus the shrunk range are exactly the old range |
| TopN.Heapify | submit/webgraph.c:342-343 | corrected: the index array becomes a heap and stays a permutation of itself |
| TopN.HeapifyCallsAsWritten | submit/webgraph.c:342-343 | as written the first sift call starts at m == size, one past the end of the index array |
| TopN.TakeNext | submit/webgraph.c:345-354 | one extraction appends the next best id and keeps the extraction invariant |
| TopN.ExtractStep | submit/webgraph.c:345-354 | a popped maximum extends the best-first prefix |
| TopN.PrintTopN | submit/webgraph.c:329-355 | nothing when n exceeds the page count; otherwise n distinct valid ids in non-increasing rank, none ranked below a page left out |
| TopN.SelectTop | submit/webgraph.c:340-354 | n distinct ids best first, and every unselected page ranks no higher than the last one chosen |
| TopN.IdentityIndex | submit/webgraph.c:340 | a fresh index array holding 0..size-1 |
| TopN.TopNFromPool | submit/webgraph.c:345-354 | ids taken from the pool without repetition, with the rest ranked no higher, are a top-n selection |
| Http.Stream.constructor | submit/http.c:215-232 | a connection positioned at the start of what the server sends |
| Http.Stream.Available | submit/http.c:225-232 | one recv returns no more than asked, no more than one burst, and no more than is left |
| Http.Stream.Peek | submit/http.c:225-232 | MSG_PEEK: after an error, -1; otherwise the next available bytes, without consuming them |
| Http.Stream.Read | submit/http.c:252-259 | recv: after an error -1 and no progress; otherwise the available bytes, consumed |
| Http.BlankLen | submit/http.c:197-212 | a terminator found at p is "\n\n" or "\n\r\n" and lies inside the text |
| Http.FirstBlank | submit/http.c:197-212 | the first position at or after q where a blank line starts, with none before it; none means no blank line at all |
| Http.TerminatorEnd | submit/http.c:197-212 | the head ends just past a '\n' at least two bytes after the scan start; none means no blank line starts there or later |
| Http.BlankLenPrefix | submit/http.c:197-212 | a blank line seen in a prefix is the same blank line in the whole response |
| Http.NoBlankPrefix | submit/http.c:233-250 | a prefix of text without a blank line has none either |
| Http.FirstBlankPrefix | submit/http.c:233-250 | the first blank line found in a prefix is the first blank line of the whole |
| Http.ScanFromTailSuffices | submit/http.c:197-212 | starting the scan two bytes before the old tail finds the same terminator as scanning from the start |
| Http.TerminatorBeyondPrefix | submit/http.c:233-250 | when the bytes already read hold no blank line, any terminator ends after them |
| Http.ScanStart | submit/http.c:197-199 | the rescan starts at most two bytes before the tail |
| Http.HeaderTerminator | submit/http.c:188-213 | on the first peek, a reply not starting like "HTTP" ends at once; otherwise the end of the first blank line from the rescan start |
| Http.FirstPeekLen | submit/http.c:225-232 | the first peek sees at most what is there and less than the initial buffer |
| Http.WindowScan | submit/http.c:233-250 | scanning the peeked window finds the first terminator of the whole response, or proves none ends within the window |
| Http.NoBlankNoTerminator | submit/http.c:197-212 | text without a blank line has no terminator |
| Http.Place | submit/http.c:252-259 | bytes read land at the tail and nothing else changes |
| Http.HeadFound | submit/http.c:273-274 | a terminator inside the size limit gives the head up to it |
| Http.HeadAtEof | submit/http.c:261-271 | at the end of the data: an I/O error gives an error; otherwise a partial head is returned, and an empty one means no response |
| Http.HeadAtCap | submit/http.c:276-288 | no blank line within 65535 bytes means the head is too large |
| Http.HeadNotHttp | submit/http.c:193-195 | a reply whose first peek does not look like "HTTP" yields an empty head |
| Http.PeekForTerminator | submit/http.c:225-250 | one peek either fails at an error or finds the first terminator of the whole response in the window, or shows there is none so far |
| Http.ReadInto | submit/http.c:252-259 | one read appends the next available bytes after the tail and NUL-terminates them |
| Http.HeadLoopStep | submit/http.c:225-288 | one loop iteration either finishes with HeadSpec's answer or keeps the invariant and makes progress |
| Http.GrowWhenFull | submit/http.c:276-288 | a full buffer doubles, up to the 65536 limit, beyond which the head is too large |
| Http.ReadHttpRespHead | submit/http.c:215-290 | the result is HeadSpec of what the server sends, and exactly the head's bytes are consumed |
| Http.HeadSpec | submit/http.c:215-290 | a head is a prefix of what the server sends and shorter than 65536 bytes; no response only when nothing came and no error occurred |
| Http.HeadEndsAtFirstBlankLine | submit/http.c:188-290 | a head ends with "\n\n" or "\n\r\n" and has no blank line before that |
| Http.TerminatorEndShape | submit/http.c:197-212 | the terminator ends with "\n\n" or "\n\r\n" |
| Http.TerminatorEndFirst | submit/http.c:197-212 | nothing before the terminator is a blank line |
| Http.HeadOfTerminator | submit/http.c:233-274 | a response that looks like HTTP and has a terminator within the limit yields the head up to the terminator |
| Http.TerminatorShape | submit/http.c:197-212 | a blank line at p ends with "\n\n" or "\n\r\n" |
| Http.NoBlankBeforeTerminator | submit/http.c:197-212 | no blank line starts before the first terminator's last newline |
| Http.HeadIndependentOfBurst | submit/http.c:215-290 | once a recv can return 4 bytes, the head does not depend on how the server splits its data |
| Http.FirstPeekSeesOneByte | submit/http.c:193-195 | a 1-byte first peek accepts a reply the 4-byte peek rejects: the "HTTP" check depends on how the bytes arrive |
| Http.SkipLine | submit/http.c:148-156 | just past the '\n' ending the line, or at the NUL that ends the C string when that comes first; nothing in between is a '\n' or a NUL |
| Http.FoldEnd | submit/http.c:146-156 | skips folded continuation lines: stops at a line that does not start with a space or tab |
| Http.HeaderStarts | submit/http.c:139-160 | the header list starts with the start of the head |
| Http.SkipHeaderLine | submit/http.c:146-156 | the do-while finds the start of the next header, strictly after the current one unless that is at the NUL |
| Http.HeaderStartsStep | submit/http.c:139-158 | a header line that is not the end adds its start and continues at the next header |
| Http.PushHeader | submit/http.c:150-156 | the offset is appended to the list, growing the array when it is full |
| Http.CollectStep | submit/http.c:139-158 | one loop iteration records the current header start and moves strictly forward, or records the stopping line and stops |
| Http.CollectHeaders | submit/http.c:139-160 | the collected list is exactly HeaderStarts of the head |
| Http.RespNew | submit/http.c:126-162 | resp_new yields exactly RespSpec: no list for an empty head, otherwise the header starts |
| Http.RespSpec | submit/http.c:126-162 | the response keeps the head; it has a header list iff the head is not empty, and the list starts at 0 and increases within the head |
| Http.HeaderStartsOrdered | submit/http.c:139-158 | header starts lie in the head, strictly increase, and each follows from the one before |
| Http.HeaderStartsStop | submit/http.c:139-158 | only the last entry is a stopping line (the blank line or the end) |
| Http.FoldEndAfterNewline | submit/http.c:139-158 | skipping folded lines from a line start ends at a line start |
| Http.NextHeaderStartAfterNewline | submit/http.c:139-158 | the next header starts after a '\n' and is not a continuation line |
| Http.RespNewShape | submit/http.c:126-162 | the response keeps the head; it has no list iff the head is empty; otherwise the list starts at 0, increases, ends at the stopping line, and every later entry starts a new unfolded line |
| Http.HeaderListShape | submit/http.c:139-160 | the shape of the collected header list |
| Http.HeaderStartsAfterNewline | submit/http.c:139-158 | every entry after the first starts just after a '\n' and is not folded |
| Http.HeaderStartAt | submit/http.c:139-158 | consecutive entries are related by the next-header step |
| Http.CStrLen | submit/http.c:152-153 | strlen: the first NUL, or the end of the text, with no NUL before it |
| Http.SkipLineWithinString | submit/http.c:148-156 | skipping a line never passes the NUL that ends the head |
| Http.FoldEndWithinString | submit/http.c:146-156 | skipping folded lines never passes that NUL either |
| Http.HeaderStartsWithinString | submit/http.c:139-156 | every header start lies at or before the head's first NUL, whatever follows it |
| Http.HeaderStartsStopAtNul | submit/http.c:139-156 | a NUL inside the second line ends the list there: "H\nAB\0C\nD\n\n" gives the starts 0, 2, 4 |
| Http.SkipDigits | submit/http.c:84-124 | the end of a digit run |
| Http.SkipSpaces | submit/http.c:84-124 | the end of a run of white space |
| Http.SkipVersion | submit/http.c:84-124 | the end of the version token lies within the line |
| Http.StatusCode | submit/http.c:84-124 | a three-digit status is between 0 and 999 |
| Http.StatusOfLine | submit/http.c:84-124 | the status read from a line is -1 or three decimal digits |
| Http.StatusSpec | submit/http.c:84-124 | resp_status is 200 without a header list, otherwise -1 or a three-digit code |
| Http.StatusOfHttp11Line | submit/http.c:84-124 | "HTTP/1.1 xyz ..." has status xyz |
| Http.StatusNeedsHttp | submit/http.c:84-124 | a status other than 200 or -1 comes only from a head starting with "HTTP" |
| Http.NonHttpReplyHasStatus200 | submit/http.c:84-124 | a reply not starting like "HTTP" yields an empty head, and its status counts as 200 |
| Http.ScanDigits | submit/http.c:84-124 | the digit loop ends where SkipDigits says |
| Http.ScanSpaces | submit/http.c:84-124 | the white-space loop ends where SkipSpaces says |
| Http.RespStatus | submit/http.c:84-124 | resp_status returns exactly StatusSpec |
| Http.ParseStatusLine | submit/http.c:84-124 | the status-line parse returns exactly StatusOfLine |
| Http.TrimEnd | submit/http.c:23-59 | trailing white space is dropped: what remains ends in a non-space or is empty |
| Http.ValueBounds | submit/http.c:23-59 | the value lies after "name:" and inside the header line |
| Http.LocateFrom | submit/http.c:23-59 | a found header lies at or after the start index, within the list, with its value inside the head |
| Http.LocateFromFirstMatch | submit/http.c:23-59 | the first header line whose name matches (ignoring case) is the one found, with its trimmed value; not found means no line matches |
| Http.LocatedValueTrimmed | submit/http.c:23-59 | a located value starts after "name:", ends within its line, and has no leading or trailing white space |
| Http.ScanTrailingSpaces | submit/http.c:23-59 | the backward loop ends where TrimEnd says |
| Http.LocateLoop | submit/http.c:23-59 | the search loop returns exactly LocateFrom |
| Http.FoundValue | submit/http.c:23-59 | the value bounds of a matched header line |
| Http.RespHeaderLocate | submit/http.c:23-59 | resp_header_locate returns exactly LocateSpec |
| Http.LocateSpec | submit/http.c:23-59 | a found header is a real header line: not the status line, not the closing entry, at or after the start index, with its value inside the head |
| Http.HeaderValue | submit/http.c:61-66 | resp_header_get: a value exactly when the header is located, and that value has no white space at either end |
| Http.RespHeaderCopy | submit/http.c:62-82 | 1 iff the header exists; then the value is copied, truncated to bufsize - 1, and NUL-terminated; otherwise the buffer is untouched |
| Http.BodyLength | submit/http.c:398-418 | nothing for a non-positive length; otherwise the full length, or all that is left when the connection ends first |
| Http.BodyStep | submit/http.c:398-418 | one recv either ends the body (0 or -1) or adds the bytes it got, never past toread |
| Http.ReadRespBody | submit/http.c:398-418 | exactly BodyLength bytes are read into the buffer and consumed, and nothing after them is touched; returns -1 or 0 when the connection ended early and a positive count when the body is complete |
| Crawler.IdleFlags.constructor | submit/main.c:26-30 | all queue_empty bits start clear: no worker is idle |
| Crawler.IdleFlags.CheckExit | submit/main.c:32-46 | exit iff every one of the 200 workers is idle |
| Crawler.IdleFlags.NoteDequeue | submit/main.c:79-92 | the worker's bit is set iff it found the frontier empty; every other worker's bit is unchanged |
| Crawler.SkipWhite | submit/main.c:127 | strtoll skips leading white space |
| Crawler.DigitsEnd | submit/main.c:127 | the end of the digit run strtoll reads |
| Crawler.Strtoll | submit/main.c:127 | strtoll's value lies in the range of long |
| Crawler.Clamped | submit/main.c:127 | in range, the signed magnitude itself; out of range, saturated to LONG_MIN or LONG_MAX |
| Crawler.SkipWhiteStopsAtNul | submit/main.c:122-127 | the white-space skip never passes the NUL |
| Crawler.DigitsEndStopsAtNul | submit/main.c:122-127 | the digit scan never passes the NUL |
| Crawler.StrtollStopsAtNul | submit/main.c:122-127 | strtoll reads only up to the NUL the copy wrote |
| Crawler.StrtollDecimal | submit/main.c:127 | the decimal text of n is read back as n |
| Crawler.StrtollNegative | submit/main.c:127 | "-" followed by the decimal text of n is read as -n |
| Crawler.ContentLength | submit/main.c:122-138 | corrected: -1 (skip the page) or a length of at most LONG_MAX |
| Crawler.LengthOfValue | submit/main.c:122-135 | -1 without the header; otherwise -1 for a negative value, else the value |
| Crawler.AbsentLengthDecidesOnGarbage | submit/main.c:54-55 | as written, without the header the stale value decides: one stale value skips the page, another reads it |
| Crawler.ContentLengthCases | submit/main.c:122-138 | no header gives -1; a number n that fits gives n; a negative number gives -1 |
| Crawler.ReadContentLength | submit/main.c:122-138 | the crawl step's length is ContentLength of the response |
| Crawler.CStr | submit/main.c:140-148 | the text up to the first NUL of the zeroed buffer |
| Crawler.CStrOfPadded | submit/main.c:140-148 | trailing zeros from calloc do not change the text |
| Crawler.ResponseSpec | submit/main.c:115-148 | a bad status exactly when the status is not 200; a page has a non-negative Content-Length, is no longer than it or than the rest of the data, is a prefix of that data and holds no NUL |
| Crawler.FetchSpec | submit/main.c:98-148 | a bad URL exactly when url_parse fails; no connection exactly when it parses but does not connect; no head exactly when the head read fails; a page is at most as long as the data and holds no NUL |
| Crawler.FetchPage | submit/main.c:98-148 | the fetch outcome is FetchSpec of the URL, the connection and what the server sends: parse error, no connection, no head, bad status, no length, or the page |
| Crawler.HandleResponse | submit/main.c:115-148 | the outcome after the head is ResponseSpec of the head and the rest of the data |
| Crawler.ResponsePage | submit/main.c:119-148 | status 200 with a length n gives a page of the first BodyLength bytes, up to the first NUL |
| Crawler.ReadBody | submit/main.c:140-148 | the page is the text of the bytes read, up to its first NUL |
| Crawler.UrlsOf | submit/url.c:276 | one URL per frontier entry |
| Crawler.EnqueuedOnce | submit/main.c:159-183 | every URL ever enqueued is a page of the graph, and no URL is enqueued twice |
| Crawler.EnqueuedIsPage | submit/main.c:159-183 | every entry the frontier ever held is a page of the graph |
| Crawler.RegisterLink | submit/main.c:165-182 | an insane link changes nothing; a link to a known page appends the page's id to that page's in-list and adds one to the page's out-degree; an unknown link becomes the next page id with the page as its only in-link, the page's out-degree grows by one, and the link goes on the frontier |
| Crawler.AddTarget | submit/main.c:167-177 | a new target becomes the next page, gets the referring page as its one in-link and is enqueued; a known one gains an in-link; either way the referring page's out-degree grows by one |
| Crawler.LinkKnownPage | submit/main.c:167-173 | a link to a known page appends the page's id to the target's in-list and adds one to the page's out-degree, and keeps the pages and the frontier |
| Crawler.AddPage | submit/main.c:175-176 | the new page takes the next id with the referring page as its one in-link and out-degree 0; the referring page's out-degree grows by one |
| Crawler.DiscoverPage | submit/main.c:175-177 | an unknown link becomes the next page with the referring page as its one in-link, the referring page's out-degree grows by one, and the link is enqueued |
| Crawler.NewPageLinked | submit/webgraph.c:100-180 | adding an empty page and then the edge to it is the PageAdded change of in-lists and out-degrees |
| Crawler.EnqueueNewPage | submit/main.c:177 | the new page goes on the frontier, restoring the crawl invariant |
| Crawler.Resolved | submit/main.c:159-163 | one resolved link per extracted href |
| Crawler.Resolve | submit/main.c:159-163 | a resolved link keeps the root of the merged URL and has no "." or ".." segment below it |
| Crawler.Discovered | submit/main.c:159-183 | the pages a run of links adds: no more than there are links, and no page twice |
| Crawler.DiscoveredStep | submit/main.c:159-183 | each link adds itself iff it is sane, unknown and not already found |
| Crawler.DiscoveredAreNew | submit/main.c:159-183 | every discovered link is sane, was unknown, and comes from the page |
| Crawler.DiscoveredDistinct | submit/main.c:159-183 | no link is discovered twice |
| Crawler.DiscoveredComplete | submit/main.c:159-183 | every sane link on the page ends up known or discovered |
| Crawler.Queued | submit/main.c:177 | a new frontier entry per discovered link, with no referer and depth 0 |
| Crawler.QueuedAppend | submit/main.c:177 | entries for one more link extend the frontier by that entry |
| Crawler.RegisterLinks | submit/main.c:159-183 | the pages added, and the entries appended to the frontier, are exactly the discovered links in order; each target's in-list gains the page's id once per sane link to it, the page's out-degree grows by the number of sane links, and nothing else changes in the lists or degrees (so the page stops being dangling iff it had a sane link) |
| Crawler.LinkLoop | submit/main.c:159-183 | the loop over the hrefs ends with every round done: pages, frontier, in-lists and out-degrees as the whole link list prescribes |
| Crawler.LinkRound | submit/main.c:161-182 | one round extends the pages, the frontier, the in-lists and the out-degrees from the first i links to the first i + 1 |
| Crawler.Repeat | submit/webgraph.c:100-135 | n copies of x |
| Crawler.Hits | submit/main.c:159-183 | how many links equal u and pass the filter: none unless u is sane and among the links |
| Crawler.SaneCount | submit/main.c:159-183 | how many links pass the filter, at most all of them |
| Crawler.ExpectedIns | submit/webgraph.c:100-135 | the in-lists after the loop: each old list followed by the page id once per sane link to that page, one list per URL |
| Crawler.ExpectedOuts | submit/webgraph.c:100-135 | the out-degrees after the loop: the page's degree plus the number of sane links, every other degree unchanged, one per URL |
| Crawler.EdgesNone | submit/main.c:159-183 | before the first link nothing has been added |
| Crawler.EdgesRejected | submit/main.c:165-166 | an insane link adds no edge |
| Crawler.EdgesKnown | submit/main.c:167-173 | a link to a known page extends the expected in-lists and out-degrees by its edge |
| Crawler.EdgesNewPage | submit/main.c:174-177 | a link to a new page extends the expected lists by a fresh list holding the page id and the page's degree by one |
| Crawler.EdgesStep | submit/main.c:159-183 | whatever one link's outcome, the expected in-lists and out-degrees extend to one more link, and every sane link seen is a page |
| Crawler.RegisterNext | submit/main.c:159-183 | one loop iteration extends the discovered prefix by that link's outcome |
| Crawler.NextStep | submit/main.c:159-183 | one registered link extends pages and frontier exactly as Discovered does |
| Crawler.Seed | submit/main.c:208-236 | the graph holds only the seed with capacity 500000, and the frontier holds only the seed at depth 1 |
| Crawler.CrawlPage | submit/main.c:98-183 | the fetch outcome is FetchSpec; only a page adds its discovered links to the graph and the frontier, and then each target's in-list gains the page's id once per sane link to it and the page's out-degree grows by the number of sane links; otherwise nothing changes |
| Crawler.RegisterFetched | submit/main.c:148-183 | links are registered only for a fetched page, with the in-list and out-degree changes of RegisterLinks; otherwise the lists and degrees are unchanged |
| Crawler.RegisterContent | submit/main.c:156-183 | the links found on the page, resolved by merge and simplify, add exactly the discovered pages and frontier entries; each target's in-list gains the page's id once per sane link to it, the page's out-degree grows by the number of sane links, and nothing else changes in the lists or degrees (so the page stops being dangling iff it had a sane link) |
| Crawler.TakeUrl | submit/main.c:77-92 | takes the front URL (a page of the graph) iff there is one, updates the worker's idle bit, and signals exit iff the frontier is empty and every worker is idle |
| Crawler.RetrieveWebpage | submit/main.c:48-203 | one worker step: idle and exit bits as check_exit says; when a URL was taken, the fetch outcome, exactly the discovered pages and entries, and for a page the in-list and out-degree changes of its links; otherwise the graph's lists and degrees are unchanged |
| Crawler.CrawlTaken | submit/main.c:98-183 | nothing happens when no URL was taken; otherwise the URL is fetched and, for a page, its links add pages, frontier entries, in-links and out-degree as RegisterLinks states |

## Left out

- Threads, mutexes, the thread pool (`threadpool.h`), the dispatch loop in
  `main` and the `usleep` between dispatches: the model runs one worker step
  at a time. It keeps the shared state a lock would protect, but not
  interleavings.
- `pagerank` and its floating-point iteration: `print_top_n` takes the ranks
  as a sequence of integers. The ordering is the same for any totally ordered
  rank type.
- `connect.c` (`establish_connection`, `send_request`): whether the
  connection succeeds is a parameter, and the socket is a `Stream`.
- `extract_urls` and `url_sanity_check` are not part of this model. The
  crawl step takes them as functions (`extract`, `sane`).
- `rewrite_shorthand_url`, `stat.c`, `printf` output, `free`/`*_delete`, and
  the hash table's internals (`hash.h`): the hash table is a `map`.
- Allocation failure (`calloc` returning NULL in `retrieve_webpage` or
  `webgraph_new`) is not modelled: allocation always succeeds.
- `resp_new(NULL)`: when no head is read, the fetch ends as `NoHead`.
- The `realloc` branch of `read_http_resp_head` at `submit/http.c:243-247`
  is unreachable, because a peek never returns more than the free space. The
  model asserts this instead of modelling the branch.
- Http.ReadRespBody: asks for the whole remainder `toread - sum_read` in
  each read. The C passes that `long` as `sock_read`'s `int` size
  (`submit/http.c:179,406`), which on an LP64 system keeps only its low 32
  bits: a Content-Length of 4294967296 asks for 0 bytes, the read returns 0
  and the body stays empty. The model does not truncate; it takes every
  remainder to fit in an `int`.
- `read_resp_body` returns an uninitialised `ret` when `toread <= 0`. The
  model returns `None` there.
- WebGraphs.WebGraph.constructor: requires a capacity above 0. With
  capacity 0 the first `webgraph_add_url` would "double" 0 to 0 and write
  out of bounds.
- WebGraphs.WebGraph.AddUrl: requires the URL not to be in the graph. The
  only caller checks `webgraph_contains` first. Adding a known URL twice is
  not modelled.
- WebGraphs.WebGraph.AddLink: the range check at `submit/webgraph.c:119` is
  not modelled as a branch, because the graph invariant makes it always
  true.
- Crawler.RetrieveWebpage: states the pages, the frontier, the in-lists,
  the out-degrees and the idle bits after the step. It does not restate the
  frontier's history (every entry ever enqueued); Crawler.RegisterContent
  states that. Dangling bits follow from the out-degrees through the graph
  invariant (WebGraphs.WebGraph.DanglingIffNoLinks).
- Crawler.CrawlPage: states pages and frontier contents, but not the
  history bookkeeping, which Crawler.RegisterContent states.
- Crawler.Resolve uses the corrected Url.Simplify, not the as-written one
  (see Findings).
- Crawler.ContentLength: the model uses the intended behaviour. When the
  header is absent the page is skipped, instead of reading an uninitialised
  variable.

## Findings

| source | as written | input that shows it | evidently intended | confidence | as-written member | corrected member |
|---|---|---|---|---|---|---|
| submit/url.c:43-52 | the ".." case backs up to the previous '/' and can go past the root, dropping the leading '/' and climbing over the host | "/../a" becomes "a"; "http://x.com/a/../../b" climbs into the host | ".." stops at the root: "/../a" becomes "/a" and "http://x.com/a/../../b" becomes "http://x.com/b" | high, not executed | Url.SimplifyDropsLeadingSlash | Url.SimplifyKeepsLeadingSlash |
| submit/webgraph.c:182-196 | `webgraph_resize` calls `realloc` and throws away its results, so the arrays keep their old size while `max_size` grows | a graph made with capacity 1: the second `webgraph_add_url` stores id 1 in a 1-slot array | assign each `realloc` result back and initialise the new slots | high, not executed | WebGraphs.SecondUrlOverflowsAsWritten | WebGraphs.WebGraph.Resize |
| submit/webgraph.c:342-343 | heapify starts at `i = graph->size`, so the first `heap` call reads `index[size]`, one past the end | any graph: the first call is `heap(pr, index, size, size)` | start at `size / 2 - 1` or any index below `size` | high, not executed | TopN.HeapifyCallsAsWritten | TopN.Heapify |
| submit/main.c:54-55,122-138 | `content_length` is set only when Content-Length is present, so without it line 137 compares an uninitialised variable | a 200 response with no Content-Length header | skip the page (treat the length as -1) | high, not executed | Crawler.AbsentLengthDecidesOnGarbage | Crawler.ReadContentLength |
