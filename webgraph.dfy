/**
 * The link graph of submit/webgraph.c: pages get dense ids in the order
 * they are added; per id the graph keeps the url, the number of outgoing
 * links, the ids of the pages linking to it (in_links_head/tail, a linked
 * list per id, kept here as a sequence appended at its tail) and a
 * "dangling" bit that is set while the page has no outgoing link. The
 * hash table from url to id (hash.h gives only its interface) is a map.
 * The mutex around every operation is left out.
 */
module WebGraphs {
  import opened Utils
  import opened Bitmap

  /**
   * The graph's state as values: the url -> id map, and per id the url,
   * the in-list, the out-degree and (in the bitmap) the dangling bit.
   */

  /** The map sends each added url to its id, and each id < size back to its url. */
  ghost predicate IdsAgree(size: int, ids: map<seq<char>, int>, urls: seq<seq<char>>)
    requires 0 <= size <= |urls|
  {
    (forall u :: u in ids ==> 0 <= ids[u] < size && urls[ids[u]] == u) &&
    (forall i :: 0 <= i < size ==> urls[i] in ids && ids[urls[i]] == i)
  }

  /**
   * Out-degrees are never negative; a page is dangling exactly when it
   * has no outgoing link; ids not yet handed out have degree 0, an empty
   * in-list and their bit set (as webgraph_new leaves them).
   */
  ghost predicate DegreesAgree(size: int, ins: seq<seq<int>>, outs: seq<int>, bits: seq<bv8>)
    requires 0 <= size <= |ins| == |outs| <= CharBit * |bits|
  {
    (forall i :: 0 <= i < size ==> outs[i] >= 0 && (GetBit(bits, i) <==> outs[i] == 0)) &&
    (forall i :: size <= i < |outs| ==> outs[i] == 0 && ins[i] == []) &&
    (forall i :: size <= i < CharBit * |bits| ==> GetBit(bits, i))
  }

  /**
   * Every in-list holds ids of added pages, each with at least one outgoing
   * link: the division by num_out_links in the PageRank step never divides by 0.
   */
  ghost predicate LinksAgree(size: int, ins: seq<seq<int>>, outs: seq<int>)
    requires 0 <= size <= |ins| == |outs|
  {
    forall i, k :: 0 <= i < size && 0 <= k < |ins[i]| ==>
      0 <= ins[i][k] < size && outs[ins[i][k]] >= 1
  }

  /** Room for maxSize (never 0) ids in every per-id array and maxSize bits in the bitmap, and the three agreements. */
  ghost predicate GraphInv(size: int, maxSize: int, ids: map<seq<char>, int>, urls: seq<seq<char>>,
                           ins: seq<seq<int>>, outs: seq<int>, bits: seq<bv8>)
  {
    0 <= size <= maxSize && 0 < maxSize && |urls| == maxSize && |ins| == maxSize && |outs| == maxSize &&
    |bits| == BytesFor(maxSize) &&
    IdsAgree(size, ids, urls) && DegreesAgree(size, ins, outs, bits) && LinksAgree(size, ins, outs)
  }

  /** Handing out id `size` to a url not yet added keeps the invariant; the new page is dangling. */
  lemma AddUrlKeepsInv(size: int, maxSize: int, ids: map<seq<char>, int>, urls: seq<seq<char>>,
                       ins: seq<seq<int>>, outs: seq<int>, bits: seq<bv8>, url: seq<char>)
    requires GraphInv(size, maxSize, ids, urls, ins, outs, bits)
    requires size < maxSize && url !in ids
    ensures GraphInv(size + 1, maxSize, ids[url := size], urls[size := url], ins, outs, bits)
    ensures GetBit(bits, size) && outs[size] == 0 && ins[size] == []
  {
    var ids', urls' := ids[url := size], urls[size := url];
    forall u | u in ids'
      ensures 0 <= ids'[u] < size + 1 && urls'[ids'[u]] == u
    {
      if u != url {
        assert ids[u] < size;
      }
    }
    forall i | 0 <= i < size + 1
      ensures urls'[i] in ids' && ids'[urls'[i]] == i
    {
      if i < size {
        assert urls[i] in ids && urls[i] != url;
      }
    }
    assert DegreesAgree(size + 1, ins, outs, bits);
  }

  /**
   * Growing every per-id array to newSize, keeping the old entries and
   * filling the new slots as webgraph_new would, keeps the invariant.
   */
  lemma GrowKeepsInv(size: int, maxSize: int, ids: map<seq<char>, int>, urls: seq<seq<char>>,
                     ins: seq<seq<int>>, outs: seq<int>, bits: seq<bv8>,
                     newSize: int, urls': seq<seq<char>>, ins': seq<seq<int>>, outs': seq<int>, bits': seq<bv8>)
    requires GraphInv(size, maxSize, ids, urls, ins, outs, bits)
    requires maxSize <= newSize && |urls'| == |ins'| == |outs'| == newSize && |bits'| == BytesFor(newSize)
    requires urls'[..maxSize] == urls && ins'[..maxSize] == ins && outs'[..maxSize] == outs
    requires forall i :: maxSize <= i < newSize ==> ins'[i] == [] && outs'[i] == 0
    requires forall i :: 0 <= i < CharBit * |bits| ==> (GetBit(bits', i) <==> GetBit(bits, i))
    requires forall i :: CharBit * |bits| <= i < CharBit * |bits'| ==> GetBit(bits', i)
    ensures GraphInv(size, newSize, ids, urls', ins', outs', bits')
  {
    forall i | 0 <= i < maxSize
      ensures urls'[i] == urls[i] && ins'[i] == ins[i] && outs'[i] == outs[i]
    {
      assert urls'[..maxSize][i] == urls'[i] && ins'[..maxSize][i] == ins'[i] && outs'[..maxSize][i] == outs'[i];
    }
  }

  /**
   * Appending s to d's in-list, counting one more link out of s and
   * clearing s's bit keeps the invariant.
   */
  lemma AddLinkKeepsInv(size: int, maxSize: int, ids: map<seq<char>, int>, urls: seq<seq<char>>,
                        ins: seq<seq<int>>, outs: seq<int>, bits: seq<bv8>, bits': seq<bv8>, s: int, d: int)
    requires GraphInv(size, maxSize, ids, urls, ins, outs, bits)
    requires 0 <= s < size && 0 <= d < size && |bits'| == |bits|
    requires forall i :: 0 <= i < CharBit * |bits| ==> (GetBit(bits', i) <==> i != s && GetBit(bits, i))
    ensures GraphInv(size, maxSize, ids, urls, ins[d := ins[d] + [s]], outs[s := outs[s] + 1], bits')
  {
    var ins', outs' := ins[d := ins[d] + [s]], outs[s := outs[s] + 1];
    forall i, k | 0 <= i < size && 0 <= k < |ins'[i]|
      ensures 0 <= ins'[i][k] < size && outs'[ins'[i][k]] >= 1
    {
      if i == d && k == |ins[d]| {
        assert ins'[i][k] == s;
      } else {
        assert ins'[i][k] == ins[i][k];
      }
    }
    assert DegreesAgree(size, ins', outs', bits');
  }

  class WebGraph {
    var size: int
    var maxSize: int
    var urlBlacklist: map<seq<char>, int>
    var urlString: array<seq<char>>
    var inLinks: array<seq<int>>
    var numOutLinks: array<int>
    var danglingPages: array<bv8>
    /** The graph object and its four arrays. */
    ghost var Repr: set<object>

    /** The four arrays are distinct objects. */
    ghost predicate Separate()
      reads this
    {
      urlString as object != inLinks && urlString as object != numOutLinks &&
      urlString as object != danglingPages && inLinks as object != numOutLinks &&
      inLinks as object != danglingPages && numOutLinks as object != danglingPages
    }

    ghost predicate Valid()
      reads this, urlString, inLinks, numOutLinks, danglingPages
    {
      Repr == {this, urlString, inLinks, numOutLinks, danglingPages} && Separate() &&
      GraphInv(size, maxSize, urlBlacklist, urlString[..], inLinks[..], numOutLinks[..], danglingPages[..])
    }

    /** Page i is dangling: its bit in the bitmap is set. */
    ghost predicate Dangling(i: nat)
      reads this, danglingPages
      requires i / CharBit < danglingPages.Length
    {
      GetBit(danglingPages[..], i)
    }

    /** The urls in id order. */
    ghost function Urls(): seq<seq<char>>
      reads this, urlString
      requires 0 <= size <= urlString.Length
    {
      urlString[..size]
    }

    /** The out-degrees in id order. */
    ghost function OutDegrees(): seq<int>
      reads this, numOutLinks
      requires 0 <= size <= numOutLinks.Length
    {
      numOutLinks[..size]
    }

    /** The in-lists in id order. */
    ghost function InLists(): seq<seq<int>>
      reads this, inLinks
      requires 0 <= size <= inLinks.Length
    {
      inLinks[..size]
    }

    /**
     * webgraph_new: no pages, room for `capacity`; every degree 0, every
     * in-list empty, every dangling bit set (the memset to 0xFF).
     */
    constructor (capacity: int)
      requires capacity > 0
      ensures Valid() && fresh(Repr)
      ensures size == 0 && maxSize == capacity && urlBlacklist == map[]
      ensures forall i :: 0 <= i < capacity ==> numOutLinks[i] == 0 && inLinks[i] == [] && Dangling(i)
    {
      size := 0;
      maxSize := capacity;
      urlBlacklist := map[];
      urlString := new seq<char>[capacity](_ => []);
      inLinks := new seq<int>[capacity](_ => []);
      numOutLinks := new int[capacity](_ => 0);
      danglingPages := new bv8[BytesFor(capacity)](_ => 0xFF);
      Repr := {this, urlString, inLinks, numOutLinks, danglingPages};
      new;
      forall i | 0 <= i < CharBit * danglingPages.Length
        ensures GetBit(danglingPages[..], i)
      {
        GetBitOfFull(danglingPages[..], i);
      }
    }

    /** webgraph_get_size: the number of pages added. */
    method GetSize() returns (n: int)
      requires Valid()
      ensures n == |Urls()|
    {
      n := size;
    }

    /** A url is a key of the map exactly when it is the url of some page. */
    lemma KnownIffListed(url: seq<char>)
      requires 0 <= size <= urlString.Length && IdsAgree(size, urlBlacklist, urlString[..])
      ensures url in urlBlacklist <==> url in Urls()
    {
      if url in urlBlacklist {
        assert Urls()[urlBlacklist[url]] == url;
      }
    }

    /** A known url's id is the one position of Urls() holding it. */
    lemma IdOf(url: seq<char>)
      requires Valid() && url in urlBlacklist
      ensures 0 <= urlBlacklist[url] < |Urls()| && Urls()[urlBlacklist[url]] == url
      ensures forall k :: 0 <= k < |Urls()| && Urls()[k] == url ==> k == urlBlacklist[url]
    {
      forall k | 0 <= k < |Urls()| && Urls()[k] == url
        ensures k == urlBlacklist[url]
      {
        assert urlString[k] == Urls()[k];
      }
    }

    /**
     * The dangling bit of a page is set exactly when its out-degree is 0:
     * webgraph_add_link clears the bit of the page it counts a link for.
     */
    lemma DanglingIffNoLinks()
      requires Valid()
      ensures forall i :: 0 <= i < size ==> (Dangling(i) <==> OutDegrees()[i] == 0)
    {
      forall i | 0 <= i < size
        ensures Dangling(i) <==> OutDegrees()[i] == 0
      {
        assert OutDegrees()[i] == numOutLinks[i];
      }
    }

    /** webgraph_contains: is the url one that was added? */
    method Contains(url: seq<char>) returns (b: bool)
      requires Valid()
      ensures b <==> url in Urls()
      ensures b <==> url in urlBlacklist
    {
      b := url in urlBlacklist;
      if b {
        assert Urls()[urlBlacklist[url]] == url;
      }
    }

    /**
     * webgraph_add_url: the url gets the next id, size grows by one, and
     * a full graph first doubles its capacity. Nothing about the other
     * pages changes; the new page is dangling.
     */
    method AddUrl(url: seq<char>)
      requires Valid() && url !in urlBlacklist
      modifies this, urlString
      ensures Valid()
      ensures size == old(size) + 1 && Urls() == old(Urls()) + [url]
      ensures urlBlacklist == old(urlBlacklist)[url := old(size)]
      ensures OutDegrees() == old(OutDegrees()) + [0] && InLists() == old(InLists()) + [[]]
      ensures forall i :: 0 <= i < size ==> (Dangling(i) <==> i == old(size) || old(Dangling(i)))
      ensures maxSize == if old(size) >= old(maxSize) then 2 * old(size) else old(maxSize)
      ensures fresh(Repr - old(Repr))
    {
      MakeRoom();
      PutUrl(url);
    }

    /** The first step of webgraph_add_url: a full graph doubles its capacity. */
    method MakeRoom()
      requires Valid()
      modifies this
      ensures Valid() && size < maxSize
      ensures size == old(size) && urlBlacklist == old(urlBlacklist)
      ensures Urls() == old(Urls()) && OutDegrees() == old(OutDegrees()) && InLists() == old(InLists())
      ensures forall i :: 0 <= i < size ==> (Dangling(i) <==> old(Dangling(i)))
      ensures maxSize == if old(size) >= old(maxSize) then 2 * old(size) else old(maxSize)
      ensures fresh(Repr - old(Repr)) && (urlString == old(urlString) || fresh(urlString))
    {
      if size >= maxSize {
        Resize(2 * size);
      }
    }

    /** The rest of webgraph_add_url, once there is room: url becomes page size. */
    method PutUrl(url: seq<char>)
      requires Valid() && url !in urlBlacklist && size < maxSize
      modifies this, urlString
      ensures Valid()
      ensures size == old(size) + 1 && Urls() == old(Urls()) + [url]
      ensures urlBlacklist == old(urlBlacklist)[url := old(size)]
      ensures OutDegrees() == old(OutDegrees()) + [0] && InLists() == old(InLists()) + [[]]
      ensures forall i :: 0 <= i < size ==> (Dangling(i) <==> i == old(size) || old(Dangling(i)))
      ensures maxSize == old(maxSize) && Repr == old(Repr)
    {
      ghost var urls := urlString[..];
      AddUrlKeepsInv(size, maxSize, urlBlacklist, urls, inLinks[..], numOutLinks[..], danglingPages[..], url);
      var id := size;
      size := size + 1;
      urlString[id] := url;
      urlBlacklist := urlBlacklist[url := id];
      assert urlString[..] == urls[id := url];
      assert Urls() == old(Urls()) + [url];
    }

    /**
     * webgraph_resize as the code evidently intends: capacity becomes
     * newSize and every array is reallocated to it, keeping what it held;
     * the new slots start as webgraph_new leaves them.
     */
    method Resize(newSize: int)
      requires Valid() && newSize >= maxSize
      modifies this
      ensures Valid() && maxSize == newSize
      ensures fresh(Repr - {this})
      ensures size == old(size) && urlBlacklist == old(urlBlacklist)
      ensures Urls() == old(Urls()) && OutDegrees() == old(OutDegrees()) && InLists() == old(InLists())
      ensures forall i :: 0 <= i < size ==> (Dangling(i) <==> old(Dangling(i)))
    {
      ghost var urls, ins, outs, bits := urlString[..], inLinks[..], numOutLinks[..], danglingPages[..];
      maxSize := newSize;
      urlString := Realloc(urlString, newSize, []);
      inLinks := Realloc(inLinks, newSize, []);
      numOutLinks := Realloc(numOutLinks, newSize, 0);
      danglingPages := GrowBitmap(danglingPages, BytesFor(newSize));
      Repr := {this, urlString, inLinks, numOutLinks, danglingPages};
      GrowKeepsInv(size, old(maxSize), urlBlacklist, urls, ins, outs, bits,
                   newSize, urlString[..], inLinks[..], numOutLinks[..], danglingPages[..]);
      assert urlString[..size] == urls[..size];
      assert inLinks[..size] == ins[..size];
      assert numOutLinks[..size] == outs[..size];
    }

    /**
     * webgraph_resize as written: max_size takes the new value but every
     * realloc result is dropped, so the arrays keep their old length (or,
     * when realloc moved the block, are freed). Any growth breaks the
     * invariant: the per-id arrays no longer have max_size slots.
     */
    method ResizeAsWritten(newSize: int)
      modifies this
      ensures maxSize == newSize && size == old(size) && urlBlacklist == old(urlBlacklist)
      ensures urlString == old(urlString) && inLinks == old(inLinks) &&
        numOutLinks == old(numOutLinks) && danglingPages == old(danglingPages)
      ensures newSize != urlString.Length ==> !Valid()
    {
      maxSize := newSize;
    }

    /**
     * webgraph_add_link: with both pages registered (the C asserts it) and
     * both ids below max_size, src goes at the tail of dest's in-list,
     * src's out-degree grows by one and src stops being dangling. No other
     * page's degree, bit or in-list changes.
     */
    method AddLink(dest: seq<char>, src: seq<char>)
      requires Valid() && dest in urlBlacklist && src in urlBlacklist
      modifies inLinks, numOutLinks, danglingPages
      ensures Valid()
      ensures var s, d := old(urlBlacklist[src]), old(urlBlacklist[dest]);
        InLists() == old(InLists())[d := old(InLists())[d] + [s]] &&
        OutDegrees() == old(OutDegrees())[s := old(OutDegrees())[s] + 1] &&
        forall i :: 0 <= i < size ==> (Dangling(i) <==> i != s && old(Dangling(i)))
      ensures Urls() == old(Urls())
    {
      var s := urlBlacklist[src];
      var d := urlBlacklist[dest];
      if s < maxSize && d < maxSize {
        ghost var ins, outs, bits := inLinks[..], numOutLinks[..], danglingPages[..];
        inLinks[d] := inLinks[d] + [s];
        if GetBit(danglingPages[..], s) {
          ClrBitIn(danglingPages, s);
        }
        LinkBitsAgree(bits, danglingPages[..], s, maxSize);
        numOutLinks[s] := numOutLinks[s] + 1;
        assert inLinks[..] == ins[d := ins[d] + [s]];
        assert numOutLinks[..] == outs[s := outs[s] + 1];
        AddLinkKeepsInv(size, maxSize, urlBlacklist, urlString[..], ins, outs, bits, danglingPages[..], s, d);
      }
    }
  }

  /**
   * With webgraph_resize as written, a graph created for one page that
   * receives a second one hands out id 1 while url_string still has one
   * slot: the store to url_string[id] in webgraph_add_url is out of bounds.
   */
  method SecondUrlOverflowsAsWritten() returns (id: int, slots: int)
    ensures id == 1 && slots == 1
  {
    var g := new WebGraph(1);
    g.AddUrl("http://a/");
    if g.size >= g.maxSize {
      g.ResizeAsWritten(2 * g.size);
    }
    id := g.size;
    slots := g.urlString.Length;
  }

  /**
   * The dangling bitmap reallocated to n bytes: the old bytes keep their
   * bits and the new ones are all set, as webgraph_new's memset leaves them.
   */
  method GrowBitmap(a: array<bv8>, n: nat) returns (b: array<bv8>)
    requires a.Length <= n
    ensures fresh(b) && b.Length == n
    ensures forall i :: 0 <= i < CharBit * a.Length ==> (GetBit(b[..], i) <==> GetBit(a[..], i))
    ensures forall i :: CharBit * a.Length <= i < CharBit * n ==> GetBit(b[..], i)
  {
    b := Realloc(a, n, 0xFF);
    forall i | 0 <= i < CharBit * n
      ensures i < CharBit * a.Length ==> (GetBit(b[..], i) <==> GetBit(a[..], i))
      ensures i >= CharBit * a.Length ==> GetBit(b[..], i)
    {
      if i < CharBit * a.Length {
        assert b[i / CharBit] == a[i / CharBit];
      } else {
        GetBitOfFull(b[..], i);
      }
    }
  }

  /**
   * After clearing (or finding clear) bit s, the other bits are as before
   * and bit s is clear.
   */
  lemma LinkBitsAgree(before: seq<bv8>, after: seq<bv8>, s: nat, maxSize: nat)
    requires s < maxSize && |before| == BytesFor(maxSize)
    requires GetBit(before, s) ==> after == ClrBit(before, s)
    requires !GetBit(before, s) ==> after == before
    ensures forall i :: 0 <= i < CharBit * |before| ==> (GetBit(after, i) <==> i != s && GetBit(before, i))
  {
    forall i | 0 <= i < CharBit * |before|
      ensures GetBit(after, i) <==> i != s && GetBit(before, i)
    {
      GetClrBit(before, s, i);
    }
  }
}
