// The sparse form a client sends and the loops that convert and merge maps.
// HashMap iteration order is arbitrary, so every loop below picks its next key
// arbitrarily and the contracts hold for any order.
module SparseMaps {
  import opened CountMaps

  /** All indices are in range; a receiver indexes its array with them. */
  ghost predicate WellFormed(s: Sparse) {
    forall p :: p in s ==> forall i :: i in s[p] ==> i < PAGE_SIZE
  }

  function Expand(insn: map<nat, nat>): Page {
    seq(PAGE_SIZE, i => if i in insn then insn[i] else 0)
  }

  /** The dense map a sparse map stands for. */
  function Densify(s: Sparse): Dense {
    map p | p in s :: Expand(s[p])
  }

  /** The sparse form of a dense map: every page, with its zero counters dropped. */
  function SparseOf(dense: Dense): Sparse {
    map p | p in dense :: NonZero(dense[p])
  }

  function NonZero(x: Page): map<nat, nat> {
    map i: nat | 0 <= i < PAGE_SIZE && x[i] > 0 :: x[i]
  }

  /** Dropping zero counters loses nothing. */
  lemma SparseOfLosesNothing(dense: Dense)
    ensures Densify(SparseOf(dense)) == dense
    ensures WellFormed(SparseOf(dense))
    ensures forall p, i: nat :: p in dense ==> (i in SparseOf(dense)[p] <==> i < PAGE_SIZE && dense[p][i] > 0)
  {
    forall p | p in dense ensures Expand(NonZero(dense[p])) == dense[p] {
    }
  }

  /** A sparse map's entries are its counters, and every other counter is zero. */
  lemma DensifyCount(s: Sparse, p: nat, i: nat)
    requires i < PAGE_SIZE
    ensures Count(Densify(s), Loc(p, i)) == if p in s && i in s[p] then s[p][i] else 0
  {
  }

  /** Dropping the zero counters of one page. */
  method SparsePage(x: Page) returns (tmp: map<nat, nat>)
    ensures tmp == NonZero(x)
  {
    tmp := map[];
    for idx := 0 to PAGE_SIZE
      invariant forall i: nat :: i in tmp <==> i < idx && x[i] > 0
      invariant forall i :: i in tmp ==> tmp[i] == x[i]
    {
      if x[idx] > 0 {
        tmp := tmp[idx := x[idx]];
      }
    }
  }

  /** The conversion a worker applies to its result before sending it. */
  method ToSparse(dense: Dense) returns (sparse: Sparse)
    ensures sparse == SparseOf(dense)
  {
    sparse := map[];
    var todo := dense.Keys;
    while todo != {}
      invariant todo <= dense.Keys && sparse.Keys == dense.Keys - todo
      invariant forall p :: p in sparse ==> sparse[p] == NonZero(dense[p])
      decreases todo
    {
      var addr :| addr in todo;
      var tmp := SparsePage(dense[addr]);
      sparse := sparse[addr := tmp];
      todo := todo - {addr};
    }
  }

  /** p[i].exec_cnt += cur.exec_cnt over the entries of a sparse page. */
  method AddSparsePage(p: Page, insn: map<nat, nat>) returns (r: Page)
    requires forall i :: i in insn ==> i < PAGE_SIZE
    ensures r == AddPages(p, Expand(insn))
  {
    r := p;
    var todo := insn.Keys;
    while todo != {}
      invariant todo <= insn.Keys
      invariant forall i :: 0 <= i < PAGE_SIZE ==> r[i] == p[i] + if i in insn && i !in todo then insn[i] else 0
      decreases todo
    {
      var i :| i in todo;
      r := r[i := r[i] + insn[i]];
      todo := todo - {i};
    }
  }

  /** p[i].exec_cnt += cur.exec_cnt over a whole page. */
  method AddDensePage(p: Page, insn: Page) returns (r: Page)
    ensures r == AddPages(p, insn)
  {
    r := p;
    for i := 0 to PAGE_SIZE
      invariant forall k :: 0 <= k < PAGE_SIZE ==> r[k] == p[k] + if k < i then insn[k] else 0
    {
      r := r[i := r[i] + insn[i]];
    }
  }

  lemma AddToZero(c: Page)
    ensures AddPages(ZeroPage(), c) == c
  {
  }

  /** The pages of a merge with a sparse map. */
  lemma MergedPages(rst: Dense, data: Sparse)
    ensures var m := Merge(rst, Densify(data));
      && m.Keys == rst.Keys + data.Keys
      && (forall p :: p in rst && p !in data ==> m[p] == rst[p])
      && (forall p :: p in data ==>
            m[p] == if p in rst then AddPages(rst[p], Expand(data[p])) else Expand(data[p]))
  {
    hide AddPages, Expand;
  }

  /** The merge loop of the DataRsp handler: adds a response into the resident map. */
  method MergeSparse(rst: Dense, data: Sparse) returns (r: Dense)
    requires WellFormed(data)
    ensures r == Merge(rst, Densify(data))
  {
    hide AddPages, Expand, ZeroPage, Merge, Densify;
    MergedPages(rst, data);
    r := rst;
    var todo := data.Keys;
    while todo != {}
      invariant todo <= data.Keys
      invariant r.Keys == rst.Keys + (data.Keys - todo)
      invariant forall p :: p in r ==> r[p] == if p in todo then rst[p] else Merge(rst, Densify(data))[p]
      decreases todo
    {
      var page :| page in todo;
      if page in r {
        var sum := AddSparsePage(r[page], data[page]);
        r := r[page := sum];
      } else {
        var tmp := AddSparsePage(ZeroPage(), data[page]);
        AddToZero(Expand(data[page]));
        r := r[page := tmp];
      }
      todo := todo - {page};
    }
  }

  /** The merge loop shared by get_result and collect_all_data. */
  method MergeDense(rst: Dense, src: Dense) returns (r: Dense)
    ensures r == Merge(rst, src)
  {
    hide AddPages;
    r := rst;
    var todo := src.Keys;
    while todo != {}
      invariant todo <= src.Keys
      invariant r.Keys == rst.Keys + (src.Keys - todo)
      invariant forall p :: p in r ==> r[p] == if p in todo then rst[p] else Merge(rst, src)[p]
      decreases todo
    {
      var page :| page in todo;
      if page in r {
        var sum := AddDensePage(r[page], src[page]);
        r := r[page := sum];
      } else {
        r := r[page := src[page]];
      }
      todo := todo - {page};
    }
  }

  /** collect_all_data: merging the maps of all cores. */
  method CollectAll(sources: seq<Dense>) returns (data: Dense)
    ensures data == MergeAll(sources)
  {
    data := map[];
    for i := 0 to |sources|
      invariant data == MergeAll(sources[..i])
    {
      ghost var before := data;
      data := MergeDense(data, sources[i]);
      MergeAllRemove(sources[..i + 1], i);
      assert sources[..i + 1][..i] + sources[..i + 1][i + 1..] == sources[..i];
      MergeCommutes(sources[i], before);
    }
    assert sources[..|sources|] == sources;
  }

  /** Dropping zeros, sending and merging adds exactly the original map. */
  lemma SparseMergeIsHomomorphic(acc: Dense, dense: Dense)
    ensures Merge(acc, Densify(SparseOf(dense))) == Merge(acc, dense)
    ensures Meaning(Merge(acc, Densify(SparseOf(dense)))) == Meaning(acc) + Meaning(dense)
    ensures Total(Merge(acc, Densify(SparseOf(dense)))) == Total(acc) + Total(dense)
  {
    SparseOfLosesNothing(dense);
    MergeMeaning(acc, dense);
    MergeTotal(acc, dense);
  }
}
