// Execution-count maps: the dense form the decoder fills, the sparse form a
// client sends, and the merges that add them up.
//
// A dense map is a HashMap from page address to an array of 4096 counters. The
// meaning of any map is a multiset of locations (page, offset): the multiplicity
// of a location is its count. Merging maps is adding multisets.
module CountMaps {
  import Bags

  const PAGE_SIZE: nat := 4096

  datatype Loc = Loc(page: nat, off: nat)

  type Page = c: seq<nat> | |c| == PAGE_SIZE witness seq(PAGE_SIZE, _ => 0)
  type Dense = map<nat, Page>
  type Sparse = map<nat, map<nat, nat>>

  /** [InsInfo::default(); 4096] */
  function ZeroPage(): Page { seq(PAGE_SIZE, i => 0) }

  // ---- Addresses -----------------------------------------------------------

  /** Page addresses are the multiples of PAGE_SIZE. */
  predicate IsPage(p: nat) { p % 4096 == 0 }

  /** addr & !0xfff on an unsigned address. */
  function PageOf(addr: nat): nat { addr / 4096 * 4096 }

  /** addr & 0xfff on an unsigned address. */
  function OffOf(addr: nat): nat { addr % 4096 }

  function LocOf(addr: nat): Loc { Loc(PageOf(addr), OffOf(addr)) }

  /** Page plus offset recovers the address, so distinct addresses never share a counter. */
  lemma LocIsInjective(a: nat, b: nat)
    ensures PageOf(a) + OffOf(a) == a
    ensures IsPage(PageOf(a)) && OffOf(a) < PAGE_SIZE
    ensures LocOf(a) == LocOf(b) <==> a == b
  {
  }

  lemma LocOfSum(page: nat, off: nat)
    requires IsPage(page) && off < PAGE_SIZE
    ensures LocOf(page + off) == Loc(page, off)
  {
  }

  // ---- Meaning -------------------------------------------------------------

  function Count(m: Dense, l: Loc): nat {
    if l.page in m && l.off < PAGE_SIZE then m[l.page][l.off] else 0
  }

  /** The locations a run of counters of one page stands for. */
  ghost function PageBag(page: nat, c: seq<nat>): multiset<Loc> {
    if c == [] then multiset{} else
      PageBag(page, c[..|c| - 1])[Loc(page, |c| - 1) := c[|c| - 1]]
  }

  /** The multiset of locations a count map stands for. */
  ghost function Meaning(m: Dense): multiset<Loc>
    decreases |m|
  {
    if m == map[] then multiset{} else
      var p :| p in m;
      PageBag(p, m[p]) + Meaning(m - {p})
  }

  lemma {:induction false} PageBagAt(page: nat, c: seq<nat>, l: Loc)
    ensures PageBag(page, c)[l] == if l.page == page && l.off < |c| then c[l.off] else 0
  {
    if c != [] {
      PageBagAt(page, c[..|c| - 1], l);
    }
  }

  /** The multiplicity of a location in the meaning of a map is its counter. */
  lemma {:induction false} MeaningAt(m: Dense, l: Loc)
    ensures Meaning(m)[l] == Count(m, l)
    decreases |m|
  {
    if m != map[] {
      var p :| p in m && Meaning(m) == PageBag(p, m[p]) + Meaning(m - {p});
      PageBagAt(p, m[p], l);
      MeaningAt(m - {p}, l);
    }
  }

  lemma MeaningOfEmpty()
    ensures Meaning(map[]) == multiset{}
  {
  }

  /** The sum of all counters of a page. */
  function PageTotal(c: seq<nat>): nat {
    if c == [] then 0 else PageTotal(c[..|c| - 1]) + c[|c| - 1]
  }

  /** The grand total: every counter of every page. */
  ghost function Total(m: Dense): nat
    decreases |m|
  {
    if m == map[] then 0 else
      var p :| p in m;
      PageTotal(m[p]) + Total(m - {p})
  }

  lemma {:induction false} PageBagSize(page: nat, c: seq<nat>)
    ensures |PageBag(page, c)| == PageTotal(c)
  {
    if c != [] {
      PageBagSize(page, c[..|c| - 1]);
      PageBagAt(page, c[..|c| - 1], Loc(page, |c| - 1));
    }
  }

  lemma {:induction false} TotalRemove(m: Dense, p: nat)
    requires p in m
    ensures Total(m) == PageTotal(m[p]) + Total(m - {p})
    decreases |m|
  {
    var q :| q in m && Total(m) == PageTotal(m[q]) + Total(m - {q});
    if q != p {
      TotalRemove(m - {q}, p);
      TotalRemove(m - {p}, q);
      assert m - {q} - {p} == m - {p} - {q};
    }
  }

  /** The size of the meaning is the grand total of the counters. */
  lemma {:induction false} MeaningSize(m: Dense)
    ensures |Meaning(m)| == Total(m)
    decreases |m|
  {
    if m != map[] {
      var p :| p in m && Meaning(m) == PageBag(p, m[p]) + Meaning(m - {p});
      PageBagSize(p, m[p]);
      MeaningSize(m - {p});
      TotalRemove(m, p);
    }
  }

  /** Every page holds at least one executed location: true of all maps decode builds. */
  ghost predicate Canonical(m: Dense) {
    forall p :: p in m ==> exists i :: 0 <= i < PAGE_SIZE && m[p][i] > 0
  }

  /** Keys are page addresses. */
  ghost predicate Aligned(m: Dense) {
    forall p :: p in m ==> IsPage(p)
  }

  /** Two canonical maps with the same meaning are the same map. */
  lemma CanonicalUnique(a: Dense, b: Dense)
    requires Canonical(a) && Canonical(b) && Meaning(a) == Meaning(b)
    ensures a == b
  {
    hide Meaning, Canonical;
    forall l: Loc ensures Count(a, l) == Count(b, l) {
      MeaningAt(a, l);
      MeaningAt(b, l);
    }
    SamePages(a, b);
    SamePages(b, a);
    forall p | p in a ensures a[p] == b[p] {
      forall i | 0 <= i < PAGE_SIZE ensures a[p][i] == b[p][i] {
        assert Count(a, Loc(p, i)) == Count(b, Loc(p, i));
      }
    }
  }

  lemma SamePages(a: Dense, b: Dense)
    requires Canonical(a) && forall l: Loc :: Count(a, l) == Count(b, l)
    ensures a.Keys <= b.Keys
  {
    forall p | p in a ensures p in b {
      var i :| 0 <= i < PAGE_SIZE && a[p][i] > 0;
      assert Count(a, Loc(p, i)) == Count(b, Loc(p, i));
    }
  }

  // ---- Adding one executed instruction --------------------------------------

  function Bump(c: Page, off: nat): Page
    requires off < PAGE_SIZE
  {
    c[off := c[off] + 1]
  }

  function AddIp(m: Dense, ip: nat): Dense {
    m[PageOf(ip) := Bump(if PageOf(ip) in m then m[PageOf(ip)] else ZeroPage(), OffOf(ip))]
  }

  function AddIps(m: Dense, ips: seq<nat>): Dense {
    if ips == [] then m else AddIp(AddIps(m, ips[..|ips| - 1]), ips[|ips| - 1])
  }

  ghost function Locs(ips: seq<nat>): multiset<Loc> {
    if ips == [] then multiset{} else Locs(ips[..|ips| - 1]) + multiset{LocOf(ips[|ips| - 1])}
  }

  lemma AddIpCount(m: Dense, ip: nat, l: Loc)
    ensures Count(AddIp(m, ip), l) == Count(m, l) + if l == LocOf(ip) then 1 else 0
  {
  }

  lemma AddIpKeeps(m: Dense, ip: nat)
    ensures Canonical(m) ==> Canonical(AddIp(m, ip))
    ensures Aligned(m) ==> Aligned(AddIp(m, ip))
  {
    var r := AddIp(m, ip);
    assert r[PageOf(ip)][OffOf(ip)] > 0;
    if Canonical(m) {
      forall p | p in r && p != PageOf(ip) ensures exists i :: 0 <= i < PAGE_SIZE && r[p][i] > 0 {
        assert r[p] == m[p];
      }
    }
  }

  /** Counting one address adds its location to the meaning. */
  lemma AddIpMeaning(m: Dense, ip: nat)
    ensures Meaning(AddIp(m, ip)) == Meaning(m) + multiset{LocOf(ip)}
  {
    var x, y := Meaning(AddIp(m, ip)), Meaning(m) + multiset{LocOf(ip)};
    forall l: Loc ensures x[l] == y[l] {
      AddIpCount(m, ip, l);
      MeaningAt(AddIp(m, ip), l);
      MeaningAt(m, l);
    }
  }

  /** Counting a stream of addresses adds exactly its histogram, and |Locs| is its length. */
  lemma {:induction false} AddIpsMeaning(m: Dense, ips: seq<nat>)
    ensures Meaning(AddIps(m, ips)) == Meaning(m) + Locs(ips)
    ensures Canonical(m) ==> Canonical(AddIps(m, ips))
    ensures Aligned(m) ==> Aligned(AddIps(m, ips))
    ensures |Locs(ips)| == |ips|
  {
    hide AddIp, Meaning, Canonical, Aligned, LocOf;
    if ips != [] {
      AddIpsMeaning(m, ips[..|ips| - 1]);
      AddIpMeaning(AddIps(m, ips[..|ips| - 1]), ips[|ips| - 1]);
      AddIpKeeps(AddIps(m, ips[..|ips| - 1]), ips[|ips| - 1]);
    }
  }

  // ---- Merging -------------------------------------------------------------

  function AddPages(a: Page, b: Page): Page {
    seq(PAGE_SIZE, i requires 0 <= i < PAGE_SIZE => a[i] + b[i])
  }

  /** The pointwise sum of two dense maps; its page set is the union. */
  function Merge(a: Dense, b: Dense): Dense {
    map p | p in a.Keys + b.Keys ::
      if p in a && p in b then AddPages(a[p], b[p]) else if p in a then a[p] else b[p]
  }

  lemma MergeCount(a: Dense, b: Dense, l: Loc)
    ensures Count(Merge(a, b), l) == Count(a, l) + Count(b, l)
  {
  }

  /** Merging adds meanings. */
  lemma MergeMeaning(a: Dense, b: Dense)
    ensures Meaning(Merge(a, b)) == Meaning(a) + Meaning(b)
  {
    var x, y := Meaning(Merge(a, b)), Meaning(a) + Meaning(b);
    forall l: Loc ensures x[l] == y[l] {
      MergeCount(a, b, l);
      MeaningAt(Merge(a, b), l);
      MeaningAt(a, l);
      MeaningAt(b, l);
    }
  }

  lemma MergeKeeps(a: Dense, b: Dense)
    ensures Canonical(a) && Canonical(b) ==> Canonical(Merge(a, b))
    ensures Aligned(a) && Aligned(b) ==> Aligned(Merge(a, b))
  {
    var m := Merge(a, b);
    if Canonical(a) && Canonical(b) {
      forall p | p in m ensures exists i :: 0 <= i < PAGE_SIZE && m[p][i] > 0 {
        var src := if p in a then a else b;
        var i :| 0 <= i < PAGE_SIZE && src[p][i] > 0;
        assert m[p][i] > 0;
      }
    }
  }

  /** Merging adds grand totals. */
  lemma MergeTotal(a: Dense, b: Dense)
    ensures Total(Merge(a, b)) == Total(a) + Total(b)
  {
    MergeMeaning(a, b);
    MeaningSize(a);
    MeaningSize(b);
    MeaningSize(Merge(a, b));
  }

  lemma AddPagesIsMonoid(a: Page, b: Page, c: Page)
    ensures AddPages(a, b) == AddPages(b, a)
    ensures AddPages(AddPages(a, b), c) == AddPages(a, AddPages(b, c))
  {
  }

  /** Merging is commutative. */
  lemma MergeCommutes(a: Dense, b: Dense)
    ensures Merge(a, b) == Merge(b, a)
  {
    hide AddPages;
    forall p | p in a && p in b ensures AddPages(a[p], b[p]) == AddPages(b[p], a[p]) {
      AddPagesIsMonoid(a[p], b[p], b[p]);
    }
  }

  /** Merging is associative. */
  lemma MergeAssociates(a: Dense, b: Dense, c: Dense)
    ensures Merge(Merge(a, b), c) == Merge(a, Merge(b, c))
  {
    hide AddPages;
    var x, y := Merge(Merge(a, b), c), Merge(a, Merge(b, c));
    assert x.Keys == y.Keys;
    forall p | p in x ensures x[p] == y[p] {
      if p in a && p in b && p in c {
        AddPagesIsMonoid(a[p], b[p], c[p]);
      }
    }
  }

  /** The merge of several source maps, in the order given. */
  function MergeAll(ms: seq<Dense>): Dense {
    if ms == [] then map[] else Merge(ms[0], MergeAll(ms[1..]))
  }

  lemma {:induction false} MergeAllRemove(ms: seq<Dense>, i: nat)
    requires i < |ms|
    ensures MergeAll(ms) == Merge(ms[i], MergeAll(ms[..i] + ms[i + 1..]))
  {
    if i == 0 {
      assert ms[..0] + ms[1..] == ms[1..];
    } else {
      var t := ms[1..];
      MergeAllRemove(t, i - 1);
      var rest := ms[..i] + ms[i + 1..];
      assert rest[1..] == t[..i - 1] + t[i..] && t[i - 1] == ms[i];
      var u := MergeAll(rest[1..]);
      MergeAssociates(ms[0], ms[i], u);
      MergeCommutes(ms[0], ms[i]);
      MergeAssociates(ms[i], ms[0], u);
    }
  }

  /** Taking one occurrence out of a sequence takes it out of its multiset. */
  lemma MultisetWithout<T>(q: seq<T>, i: nat)
    requires i < |q|
    ensures multiset(q[..i] + q[i + 1..]) == multiset(q) - multiset{q[i]}
  {
    assert q == q[..i] + [q[i]] + q[i + 1..];
  }

  lemma IndexOf<T>(q: seq<T>, x: T) returns (i: nat)
    requires x in multiset(q)
    ensures i < |q| && q[i] == x
  {
    assert x in q;
    i :| 0 <= i < |q| && q[i] == x;
  }

  lemma HeadInBag<T>(q: seq<T>)
    requires q != []
    ensures q[0] in multiset(q) && multiset(q[1..]) == multiset(q) - multiset{q[0]}
  {
    assert q == [q[0]] + q[1..];
  }

  /** The first element of one arrangement, found in another. */
  lemma TakeFirst<T>(q: seq<T>, r: seq<T>) returns (i: nat)
    requires multiset(q) == multiset(r) && q != []
    ensures i < |r| && r[i] == q[0] && multiset(q[1..]) == multiset(r[..i] + r[i + 1..])
  {
    HeadInBag(q);
    i := IndexOf(r, q[0]);
    MultisetWithout(r, i);
  }

  /** Merging the same maps in any order gives the same map. */
  lemma {:induction false} MergeAllPermutation(ms: seq<Dense>, ns: seq<Dense>)
    requires multiset(ms) == multiset(ns)
    ensures MergeAll(ms) == MergeAll(ns)
    decreases |ms|
  {
    hide Merge;
    if ms == [] {
      assert |ns| == |multiset(ns)| == 0;
    } else {
      var i := TakeFirst(ms, ns);
      MergeAllPermutation(ms[1..], ns[..i] + ns[i + 1..]);
      MergeAllRemove(ns, i);
    }
  }

  /** A page is in the merge exactly when some source has it. */
  lemma {:induction false} MergeAllPages(ms: seq<Dense>, p: nat)
    ensures p in MergeAll(ms) <==> exists i :: 0 <= i < |ms| && p in ms[i]
  {
    if ms != [] {
      MergeAllPages(ms[1..], p);
      if p in MergeAll(ms[1..]) {
        var j :| 0 <= j < |ms[1..]| && p in ms[1..][j];
        assert p in ms[j + 1];
      }
      if i :| 0 <= i < |ms| && p in ms[i] && i > 0 {
        assert p in ms[1..][i - 1];
      }
    }
  }

  lemma {:induction false} MergeAllKeeps(ms: seq<Dense>)
    requires forall i :: 0 <= i < |ms| ==> Canonical(ms[i]) && Aligned(ms[i])
    ensures Canonical(MergeAll(ms)) && Aligned(MergeAll(ms))
  {
    if ms != [] {
      MergeAllKeeps(ms[1..]);
      MergeKeeps(ms[0], MergeAll(ms[1..]));
    }
  }

  /** The grand total of a merge is the sum of the sources' grand totals. */
  lemma {:induction false} MergeAllTotal(ms: seq<Dense>)
    ensures Total(MergeAll(ms)) == SumTotals(ms)
  {
    if ms != [] {
      MergeAllTotal(ms[1..]);
      MergeTotal(ms[0], MergeAll(ms[1..]));
    }
  }

  /** The meaning of a merge is the sum of the sources' meanings. */
  lemma {:induction false} MergeAllMeaning(ms: seq<Dense>)
    ensures Meaning(MergeAll(ms)) == Bags.Sum(ms, Meaning)
  {
    if ms != [] {
      MergeAllMeaning(ms[1..]);
      MergeMeaning(ms[0], MergeAll(ms[1..]));
    }
  }

  ghost function SumTotals(ms: seq<Dense>): nat {
    if ms == [] then 0 else Total(ms[0]) + SumTotals(ms[1..])
  }
}
