// The page cache as the object the decoder calls back into. Its methods fill the
// caller's buffer in place; each one's effect is a transition of PageCache.
module MemCacherObject {
  import opened Basics
  import opened CountMaps
  import opened PageCache
  import CacheTransparency

  /** A buffer after the bytes from lo on have been overwritten with data. */
  function Patched(before: Bytes, lo: nat, data: Bytes): Bytes
    requires lo + |data| <= |before|
  {
    before[..lo] + data + before[lo + |data|..]
  }

  /** copy_from_slice into rst[lo..] */
  method CopyInto(rst: array<byte>, lo: nat, data: Bytes)
    requires lo + |data| <= rst.Length
    modifies rst
    ensures rst[..] == Patched(old(rst[..]), lo, data)
  {
    forall i | 0 <= i < |data| {
      rst[lo + i] := data[i];
    }
  }

  /** One call of a reader on rst[lo..hi]; k calls were made before. */
  method CallReader(g: Reader, k: nat, addr: nat, rst: array<byte>, lo: nat, hi: nat) returns (n: nat)
    requires lo <= hi <= rst.Length
    modifies rst
    ensures rst[..] == Patched(old(rst[..]), lo, g(k, addr, old(rst[lo..hi])).data)
    ensures n == g(k, addr, old(rst[lo..hi])).count
  {
    var answer := g(k, addr, rst[lo..hi]);
    CopyInto(rst, lo, answer.data);
    n := answer.count;
  }

  class MemCacher {
    var cacheLst: map<nat, Bytes>
    var lastPage: nat
    var lastContent: Option<nat>
    var f: Option<Reader>
    var log: seq<Call>  // history of calls of f; not part of the program

    function State(): Cache
      reads this
    {
      Cache(cacheLst, lastPage, lastContent, f, log)
    }

    constructor ()
      ensures State() == EMPTY
    {
      cacheLst, lastPage, lastContent, f, log := map[], 0, None, None, [];
    }

    method ClearData()
      modifies this
      ensures State() == EMPTY
    {
      lastPage := 0;
      lastContent := None;
      f := None;
      cacheLst := map[];
      log := [];
    }

    /** get_content_in_cache_item on rst[lo..hi] */
    method GetContentInCacheItem(content: Bytes, addr: nat, rst: array<byte>, lo: nat, hi: nat) returns (n: nat)
      requires lo <= hi <= rst.Length && |content| == PAGE_SIZE && OffOf(addr) + (hi - lo) <= PAGE_SIZE
      modifies rst
      ensures rst[..] == Patched(old(rst[..]), lo, Item(content, addr, hi - lo).data)
      ensures n == Item(content, addr, hi - lo).count
    {
      var begin := OffOf(addr);
      CopyInto(rst, lo, content[begin..begin + (hi - lo)]);
      n := hi - lo;
    }

    /** The None branch of the lookup, with a reader installed. */
    method LoadPage(g: Reader, rst: array<byte>, lo: nat, hi: nat, addr: nat) returns (n: nat)
      requires lo <= hi <= rst.Length && OffOf(addr) + (hi - lo) <= PAGE_SIZE
      modifies this, rst
      ensures var (c, r) := Miss(old(State()), g, addr, old(rst[lo..hi]));
        State() == c && |r.data| == hi - lo && rst[..] == Patched(old(rst[..]), lo, r.data) && n == r.count
    {
      var p := PageOf(addr);
      var tmpBuff := new byte[PAGE_SIZE](i => 0);
      assert tmpBuff[0..PAGE_SIZE] == tmpBuff[..] == Zeros(PAGE_SIZE);
      var r := CallReader(g, |log|, p, tmpBuff, 0, PAGE_SIZE);
      assert tmpBuff[..] == g(|log|, p, Zeros(PAGE_SIZE)).data;
      if r != PAGE_SIZE {
        n := CallReader(g, |log| + 1, addr, rst, lo, hi);
        log := log + [Load(p, false), Direct(addr, hi - lo)];
        if n != hi - lo {
          n := 0;
        }
      } else {
        n := GetContentInCacheItem(tmpBuff[..], addr, rst, lo, hi);
        lastContent := Some(p);
        cacheLst := cacheLst[p := tmpBuff[..]];
        log := log + [Load(p, true)];
      }
    }

    /** get_content_in_one_page on rst[lo..hi] */
    method GetContentInOnePage(rst: array<byte>, lo: nat, hi: nat, addr: nat) returns (n: nat)
      requires lo <= hi <= rst.Length && WellFormed(State()) && CanReadPage(State(), addr, hi - lo)
      modifies this, rst
      ensures var (c, r) := OnePage(old(State()), addr, old(rst[lo..hi]));
        State() == c && |r.data| == hi - lo && rst[..] == Patched(old(rst[..]), lo, r.data) && n == r.count
    {
      hide PageOf, OffOf, Miss;
      var p := PageOf(addr);
      if lastPage == p {
        n := GetContentInCacheItem(cacheLst[lastContent.value], addr, rst, lo, hi);
      } else if p in cacheLst {
        n := GetContentInCacheItem(cacheLst[p], addr, rst, lo, hi);
      } else if f.Some? {
        n := LoadPage(f.value, rst, lo, hi, addr);
      } else {
        n := 0;
      }
    }

    /** The two reads of get_content when the range crosses a page boundary after n bytes. */
    method GetBothParts(rst: array<byte>, n: nat, addr: nat) returns (readSize: nat)
      requires n <= rst.Length && WellFormed(State()) && CanReadPage(State(), addr, n)
      requires State().lastPage == PageOf(addr + n) ==> State().lastContent.Some?
      requires OffOf(addr + n) + (rst.Length - n) <= PAGE_SIZE
      modifies this, rst
      ensures (State(), ReadResult(rst[..], readSize)) == TwoReads(old(State()), addr, n, old(rst[..]))
    {
      hide OnePage, PageOf, OffOf;
      ghost var buf := rst[..];
      ghost var (c1, r1) := OnePage(State(), addr, rst[..n]);
      OnePageKeeps(State(), addr, rst[..n]);
      assert rst[0..n] == rst[..n];
      readSize := GetContentInOnePage(rst, 0, n, addr);
      assert rst[..] == r1.data + buf[n..];
      assert rst[n..rst.Length] == buf[n..] && rst[..n] == r1.data;
      ghost var r2 := OnePage(c1, addr + n, buf[n..]).1;
      var more := GetContentInOnePage(rst, n, rst.Length, addr + n);
      assert rst[..] == r1.data + r2.data;
      readSize := readSize + more;
    }

    /** get_content: fills rst and returns the number of bytes read. */
    method GetContent(rst: array<byte>, addr: nat) returns (readSize: nat)
      requires WellFormed(State()) && CanGet(State(), addr, rst.Length)
      modifies this, rst
      ensures (State(), ReadResult(rst[..], readSize)) == Get(old(State()), addr, old(rst[..]))
      ensures WellFormed(State()) && State().lastPage == 0
    {
      hide OnePage, TwoReads, PageOf, OffOf;
      ghost var c, buf := State(), rst[..];
      GetKeeps(c, addr, buf);
      var startAddr, endAddr := PageOf(addr), PageOf(addr + rst.Length);
      if startAddr == endAddr {
        CacheTransparency.WithinPage(addr, rst.Length);
        assert rst[0..rst.Length] == buf;
        readSize := GetContentInOnePage(rst, 0, rst.Length, addr);
        assert rst[..] == OnePage(c, addr, buf).1.data;
      } else {
        CacheTransparency.NextPart(addr, rst.Length);
        var firstPageSize := endAddr - addr;
        readSize := GetBothParts(rst, firstPageSize, addr);
      }
    }
  }
}
