// Which module an address belongs to: a scan of the module list behind a cache of
// the last module found. Ranges include base + size, so two neighbours share an
// address, and what the cached lookup answers there depends on what was asked before.
module ModuleLookup {
  import opened Basics

  datatype ModuleInfo = ModuleInfo(name: string, base: nat, size: nat)

  predicate Covers(m: ModuleInfo, addr: nat) { m.base <= addr <= m.base + m.size }

  /** What a lookup that settles on m answers: the name and the offset in the module. */
  function Within(m: ModuleInfo, addr: nat): (string, nat)
    requires Covers(m, addr)
  {
    (m.name, addr - m.base)
  }

  /** The first module of the list that covers addr. */
  function First(ms: seq<ModuleInfo>, addr: nat): (r: Option<ModuleInfo>)
    ensures r.Some? ==> r.value in ms && Covers(r.value, addr)
    ensures r.None? ==> forall m :: m in ms ==> !Covers(m, addr)
  {
    if ms == [] then None
    else if Covers(ms[0], addr) then Some(ms[0])
    else First(ms[1..], addr)
  }

  /** The lookup without a cache. */
  function PlainScan(ms: seq<ModuleInfo>, addr: nat): Option<(string, nat)> {
    var m := First(ms, addr);
    if m.Some? then Some(Within(m.value, addr)) else None
  }

  /** Hits leave the cache alone; a successful scan replaces it; a failed one keeps it. */
  function CacheAfter(ms: seq<ModuleInfo>, cache: Option<ModuleInfo>, addr: nat): Option<ModuleInfo> {
    if cache.Some? && Covers(cache.value, addr) then cache
    else if First(ms, addr).Some? then First(ms, addr)
    else cache
  }

  function CachedScan(ms: seq<ModuleInfo>, cache: Option<ModuleInfo>, addr: nat): Option<(string, nat)> {
    if cache.Some? && Covers(cache.value, addr) then Some(Within(cache.value, addr))
    else PlainScan(ms, addr)
  }

  class Process {
    var moduleInfoCache: Option<ModuleInfo>
    const allModuleInfo: seq<ModuleInfo>

    constructor (modules: seq<ModuleInfo>)
      ensures allModuleInfo == modules && moduleInfoCache == None
    {
      moduleInfoCache, allModuleInfo := None, modules;
    }

    method QueryModuleInfoByAddr(addr: nat) returns (r: Option<(string, nat)>)
      modifies this`moduleInfoCache
      ensures r == CachedScan(allModuleInfo, old(moduleInfoCache), addr)
      ensures moduleInfoCache == CacheAfter(allModuleInfo, old(moduleInfoCache), addr)
    {
      if moduleInfoCache.Some? && Covers(moduleInfoCache.value, addr) {
        return Some(Within(moduleInfoCache.value, addr));
      }
      for i := 0 to |allModuleInfo|
        invariant moduleInfoCache == old(moduleInfoCache)
        invariant First(allModuleInfo, addr) == First(allModuleInfo[i..], addr)
      {
        var m := allModuleInfo[i];
        if Covers(m, addr) {
          moduleInfoCache := Some(m);
          return Some(Within(m, addr));
        }
      }
      r := None;
    }
  }

  // ---- Histories -----------------------------------------------------------------------

  /** The cache after a history of queries. */
  function CacheOf(ms: seq<ModuleInfo>, history: seq<nat>): Option<ModuleInfo> {
    if history == [] then None
    else CacheAfter(ms, CacheOf(ms, history[..|history| - 1]), history[|history| - 1])
  }

  /** Whatever was asked before, the cached lookup answers what the plain scan answers. */
  ghost predicate Transparent(ms: seq<ModuleInfo>) {
    forall history, addr :: CachedScan(ms, CacheOf(ms, history), addr) == PlainScan(ms, addr)
  }

  /** The inclusive ranges of the modules are pairwise disjoint. */
  ghost predicate DisjointRanges(ms: seq<ModuleInfo>) {
    forall i, j, addr :: 0 <= i < j < |ms| && Covers(ms[i], addr) ==> !Covers(ms[j], addr)
  }

  /** Module i is the first to cover addr. */
  predicate IsFirst(ms: seq<ModuleInfo>, i: nat, addr: nat) {
    i < |ms| && Covers(ms[i], addr) && forall k :: 0 <= k < i ==> !Covers(ms[k], addr)
  }

  /** Module j is the first at some address, and covers an address where a different module is first. */
  ghost predicate Clash(ms: seq<ModuleInfo>, i: nat, j: nat, a: nat, b: nat) {
    && IsFirst(ms, i, a) && IsFirst(ms, j, b) && Covers(ms[j], a)
    && (ms[i].name != ms[j].name || ms[i].base != ms[j].base)
  }

  lemma {:induction false} FirstIndex(ms: seq<ModuleInfo>, addr: nat) returns (i: nat)
    requires First(ms, addr).Some?
    ensures IsFirst(ms, i, addr) && First(ms, addr) == Some(ms[i])
  {
    if Covers(ms[0], addr) {
      i := 0;
    } else {
      var j := FirstIndex(ms[1..], addr);
      i := j + 1;
      assert forall k :: 0 < k < i ==> ms[k] == ms[1..][k - 1];
    }
  }

  /**
   * What a lookup answers and leaves in the cache. It fails exactly when nothing is
   * found, and then keeps the cache; otherwise the answer is the name and offset in the
   * module now cached, which is the one cached before if that covers the address, and
   * else the first of the list that does.
   */
  lemma LookupMeans(ms: seq<ModuleInfo>, cache: Option<ModuleInfo>, addr: nat)
    ensures var r, next := CachedScan(ms, cache, addr), CacheAfter(ms, cache, addr);
      && (cache.Some? && Covers(cache.value, addr) ==> next == cache && r.Some?)
      && (!(cache.Some? && Covers(cache.value, addr)) && r.Some? ==>
            exists i: nat :: IsFirst(ms, i, addr) && next == Some(ms[i]))
      && (r.Some? ==> next.Some? && Covers(next.value, addr) && r.value == (next.value.name, addr - next.value.base))
      && (r.None? ==> next == cache && forall m :: m in ms ==> !(m.base <= addr <= m.base + m.size))
  {
    if First(ms, addr).Some? {
      var i := FirstIndex(ms, addr);
    }
  }

  lemma {:induction false} IsFirstIsFirst(ms: seq<ModuleInfo>, i: nat, addr: nat)
    requires IsFirst(ms, i, addr)
    ensures First(ms, addr) == Some(ms[i])
  {
    if i > 0 {
      assert forall k :: 0 <= k < i - 1 ==> ms[1..][k] == ms[k + 1];
      IsFirstIsFirst(ms[1..], i - 1, addr);
    }
  }

  /** The cache only ever holds a module that was the first at some address. */
  lemma {:induction false} CacheHoldsFirsts(ms: seq<ModuleInfo>, history: seq<nat>)
    ensures CacheOf(ms, history).Some? ==> exists addr :: First(ms, addr) == CacheOf(ms, history)
  {
    if history != [] {
      CacheHoldsFirsts(ms, history[..|history| - 1]);
      assert First(ms, history[|history| - 1]) == First(ms, history[|history| - 1]);
    }
  }

  lemma NoClashIsTransparent(ms: seq<ModuleInfo>)
    requires forall i: nat, j: nat, a, b :: !Clash(ms, i, j, a, b)
    ensures Transparent(ms)
  {
    forall history, addr ensures CachedScan(ms, CacheOf(ms, history), addr) == PlainScan(ms, addr) {
      var cache := CacheOf(ms, history);
      if cache.Some? && Covers(cache.value, addr) {
        CacheHoldsFirsts(ms, history);
        var b :| First(ms, b) == cache;
        var j := FirstIndex(ms, b);
        var i := FirstIndex(ms, addr);
        assert !Clash(ms, i, j, addr, b);
      }
    }
  }

  lemma ClashIsVisible(ms: seq<ModuleInfo>, i: nat, j: nat, a: nat, b: nat)
    requires Clash(ms, i, j, a, b)
    ensures CachedScan(ms, CacheOf(ms, [b]), a) != PlainScan(ms, a)
  {
    IsFirstIsFirst(ms, i, a);
    IsFirstIsFirst(ms, j, b);
    assert [b][..0] == [];
    assert CacheOf(ms, [b]) == Some(ms[j]);
  }

  /** Exactly when the cache cannot be noticed. */
  lemma TransparentIffNoClash(ms: seq<ModuleInfo>)
    ensures Transparent(ms) <==> forall i: nat, j: nat, a, b :: !Clash(ms, i, j, a, b)
  {
    if i: nat, j: nat, a, b :| Clash(ms, i, j, a, b) {
      ClashIsVisible(ms, i, j, a, b);
    } else {
      NoClashIsTransparent(ms);
    }
  }

  /** Disjoint inclusive ranges are enough, whatever the names. */
  lemma DisjointIsTransparent(ms: seq<ModuleInfo>)
    requires DisjointRanges(ms)
    ensures Transparent(ms)
  {
    forall i: nat, j: nat, a, b ensures !Clash(ms, i, j, a, b) {
    }
    NoClashIsTransparent(ms);
  }

  ghost predicate UniqueNames(ms: seq<ModuleInfo>) {
    forall i, j :: 0 <= i < j < |ms| ==> ms[i].name != ms[j].name
  }

  /** Earlier modules cover all of module j. */
  ghost predicate Hidden(ms: seq<ModuleInfo>, j: nat) {
    j < |ms| && forall addr :: !IsFirst(ms, j, addr)
  }

  ghost predicate OverlapsEarlier(ms: seq<ModuleInfo>, j: nat) {
    j < |ms| && exists i, addr :: 0 <= i < j && Covers(ms[i], addr) && Covers(ms[j], addr)
  }

  /** With unique names: exactly when every module that overlaps an earlier one is hidden by earlier ones. */
  lemma TransparentIffOverlapsAreHidden(ms: seq<ModuleInfo>)
    requires UniqueNames(ms)
    ensures Transparent(ms) <==> forall j: nat :: OverlapsEarlier(ms, j) ==> Hidden(ms, j)
  {
    TransparentIffNoClash(ms);
    if i: nat, j: nat, a, b :| Clash(ms, i, j, a, b) {
      assert i != j;
      assert OverlapsEarlier(ms, j) && !Hidden(ms, j);
    }
    if j: nat :| OverlapsEarlier(ms, j) && !Hidden(ms, j) {
      var i0, a :| 0 <= i0 < j && Covers(ms[i0], a) && Covers(ms[j], a);
      var b :| IsFirst(ms, j, b);
      var i := FirstIndex(ms, a);
      assert i <= i0;
      assert Clash(ms, i, j, a, b);
    }
  }

  /** Two neighbouring modules: at the address they share, the answer depends on the history. */
  lemma NeighboursClash()
    ensures var ms := [ModuleInfo("a", 0x1000, 0x1000), ModuleInfo("b", 0x2000, 0x1000)];
      && CachedScan(ms, CacheOf(ms, [0x1800]), 0x2000) == Some(("a", 0x1000))
      && CachedScan(ms, CacheOf(ms, [0x2800]), 0x2000) == Some(("b", 0))
      && !Transparent(ms)
  {
    var ms := [ModuleInfo("a", 0x1000, 0x1000), ModuleInfo("b", 0x2000, 0x1000)];
    assert ms[1..] == [ms[1]];
    assert [0x1800][..0] == [] && [0x2800][..0] == [];
    assert CacheOf(ms, [0x1800]) == Some(ms[0]);
    assert CacheOf(ms, [0x2800]) == Some(ms[1]);
    assert PlainScan(ms, 0x2000) == Some(("a", 0x1000));
    assert CachedScan(ms, CacheOf(ms, [0x2800]), 0x2000) != PlainScan(ms, 0x2000);
  }
}
