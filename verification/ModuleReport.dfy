// The report: one line "name + offset" per executed address. Lines are keys of a map,
// so two addresses with the same key would overwrite each other's count.
module ModuleReport {
  import opened Basics
  import opened CountMaps
  import opened ModuleLookup

  // ---- Keys ------------------------------------------------------------------------------

  const DIGITS := "0123456789"

  function Decimal(n: nat): string {
    if n < 10 then [DIGITS[n]] else Decimal(n / 10) + [DIGITS[n % 10]]
  }

  /** format!("{} + {}", name, offset) */
  function Key(name: string, offset: nat): string { name + " + " + Decimal(offset) }

  predicate IsDigit(c: char) { c in DIGITS }

  lemma {:induction false} DecimalIsDigits(n: nat)
    ensures |Decimal(n)| > 0 && forall i :: 0 <= i < |Decimal(n)| ==> IsDigit(Decimal(n)[i])
  {
    if n >= 10 {
      DecimalIsDigits(n / 10);
    }
  }

  lemma DigitsDiffer(a: nat, b: nat)
    requires a < 10 && b < 10 && DIGITS[a] == DIGITS[b]
    ensures a == b
  {
  }

  lemma {:induction false} DecimalIsInjective(a: nat, b: nat)
    requires Decimal(a) == Decimal(b)
    ensures a == b
  {
    var x, y := Decimal(a), Decimal(b);
    if a < 10 && b < 10 {
      DigitsDiffer(a, b);
    } else if a < 10 {
      DecimalIsDigits(b / 10);
    } else if b < 10 {
      DecimalIsDigits(a / 10);
    } else {
      assert x[|x| - 1] == DIGITS[a % 10] && y[|y| - 1] == DIGITS[b % 10];
      DigitsDiffer(a % 10, b % 10);
      assert Decimal(a / 10) == x[..|x| - 1] == y[..|y| - 1] == Decimal(b / 10);
      DecimalIsInjective(a / 10, b / 10);
    }
  }

  /** The number a text of decimal digits stands for, read from the left, by character codes. */
  ghost function ValueOf(t: string): int {
    if t == [] then 0 else 10 * ValueOf(t[..|t| - 1]) + (t[|t| - 1] as int - '0' as int)
  }

  predicate AllDigits(t: string) {
    forall i :: 0 <= i < |t| ==> '0' <= t[i] <= '9'
  }

  lemma DigitValue(n: nat)
    requires n < 10
    ensures '0' <= DIGITS[n] <= '9' && DIGITS[n] as int - '0' as int == n
  {
  }

  /** The decimal text of n is digits, reads back as n, and has no leading zero. */
  lemma {:induction false} DecimalReadsBack(n: nat)
    ensures Decimal(n) != [] && AllDigits(Decimal(n)) && ValueOf(Decimal(n)) == n
    ensures n > 0 ==> Decimal(n)[0] != '0'
    ensures n == 0 ==> Decimal(n) == "0"
  {
    if n < 10 {
      DigitValue(n);
      assert Decimal(n)[..0] == [];
    } else {
      DecimalReadsBack(n / 10);
      DigitValue(n % 10);
      assert Decimal(n)[..|Decimal(n)| - 1] == Decimal(n / 10);
    }
  }

  /** A line is the name, a plus sign between spaces, and a number that reads back as the offset. */
  lemma KeyReadsBack(name: string, offset: nat)
    ensures |name| + 3 < |Key(name, offset)|
    ensures Key(name, offset)[..|name| + 3] == name + " + "
    ensures var t := Key(name, offset)[|name| + 3..];
      AllDigits(t) && ValueOf(t) == offset && (offset > 0 ==> t[0] != '0') && (offset == 0 ==> t == "0")
  {
    hide Decimal;
    DecimalReadsBack(offset);
    assert Key(name, offset)[|name| + 3..] == Decimal(offset);
  }

  /** A text that ends in a space and then digits splits there in one way only. */
  lemma SplitIsUnique(p: string, d: string, q: string, e: string)
    requires p != [] && q != [] && p[|p| - 1] == ' ' && q[|q| - 1] == ' '
    requires forall i :: 0 <= i < |d| ==> IsDigit(d[i])
    requires forall i :: 0 <= i < |e| ==> IsDigit(e[i])
    requires p + d == q + e
    ensures p == q && d == e
  {
    var s := p + d;
    assert forall i :: |p| <= i < |s| ==> IsDigit(s[i]);
    assert forall i :: |q| <= i < |s| ==> IsDigit(s[i]);
    assert s[|p| - 1] == ' ' && s[|q| - 1] == ' ';
    assert !IsDigit(' ');
    assert |p| == |q|;
    assert p == s[..|p|] == q;
    assert d == s[|p|..] == e;
  }

  /** A key gives back name and offset, even when names contain " + " and digits themselves. */
  lemma KeyIsInjective(n1: string, o1: nat, n2: string, o2: nat)
    ensures Key(n1, o1) == Key(n2, o2) <==> n1 == n2 && o1 == o2
  {
    if Key(n1, o1) == Key(n2, o2) {
      DecimalIsDigits(o1);
      DecimalIsDigits(o2);
      SplitIsUnique(n1 + " + ", Decimal(o1), n2 + " + ", Decimal(o2));
      DecimalIsInjective(o1, o2);
      assert n1 == (n1 + " + ")[..|n1|] && n2 == (n2 + " + ")[..|n2|];
    }
  }

  // ---- The report --------------------------------------------------------------------------

  const DUMMY := "dummy"

  /** The line for an address, given what the lookup said. */
  function LineOf(found: Option<(string, nat)>, addr: nat): string {
    if found.Some? then Key(found.value.0, found.value.1) else Key(DUMMY, addr)
  }

  /** The line names a module that covers addr, and addr's offset in it; or there is none. */
  ghost predicate Describes(ms: seq<ModuleInfo>, addr: nat, line: string) {
    || (exists m :: m in ms && Covers(m, addr) && line == Key(m.name, addr - m.base))
    || ((forall m :: m in ms ==> !Covers(m, addr)) && line == Key(DUMMY, addr))
  }

  /** What a line says, read as text: the module's name and the offset in it, or "dummy" and the address. */
  lemma LinesReadBack(ms: seq<ModuleInfo>, addr: nat, line: string) returns (name: string, t: string)
    requires Describes(ms, addr, line)
    ensures line == name + " + " + t && AllDigits(t)
    ensures || (exists m :: m in ms && m.base <= addr <= m.base + m.size &&
                  name == m.name && m.base + ValueOf(t) == addr)
            || ((forall m :: m in ms ==> !(m.base <= addr <= m.base + m.size)) && name == "dummy" && ValueOf(t) == addr)
  {
    hide Key;
    var offset: nat;
    if m :| m in ms && Covers(m, addr) && line == Key(m.name, addr - m.base) {
      name, offset := m.name, addr - m.base;
    } else {
      name, offset := DUMMY, addr;
    }
    KeyReadsBack(name, offset);
    t := line[|name| + 3..];
    assert line == line[..|name| + 3] + line[|name| + 3..];
  }

  predicate Ran(data: Dense, addr: nat) { Count(data, LocOf(addr)) > 0 }

  /** lines gives the line written for each address; the report holds them, each with some address's count. */
  ghost predicate Labelled(ms: seq<ModuleInfo>, data: Dense, lines: map<nat, string>, report: map<string, nat>) {
    && (forall a :: a in lines ==> Describes(ms, a, lines[a]) && lines[a] in report)
    && (forall k :: k in report ==> exists a :: a in lines && lines[a] == k && report[k] == Count(data, LocOf(a)))
    && (Transparent(ms) ==> forall a :: a in lines ==> lines[a] == LineOf(PlainScan(ms, a), a))
  }

  /** Every executed address has been given a line. */
  ghost predicate IsReport(ms: seq<ModuleInfo>, data: Dense, lines: map<nat, string>, report: map<string, nat>) {
    Labelled(ms, data, lines, report) && forall a: nat :: a in lines <==> Ran(data, a)
  }

  /** The lookup's answer describes the address, whatever is cached. */
  lemma AnswerDescribes(ms: seq<ModuleInfo>, history: seq<nat>, addr: nat)
    ensures Describes(ms, addr, LineOf(CachedScan(ms, CacheOf(ms, history), addr), addr))
  {
    CacheHoldsFirsts(ms, history);
  }

  lemma CacheGrows(ms: seq<ModuleInfo>, history: seq<nat>, addr: nat)
    ensures CacheOf(ms, history + [addr]) == CacheAfter(ms, CacheOf(ms, history), addr)
  {
    assert (history + [addr])[..|history|] == history;
  }

  lemma LabelOne(ms: seq<ModuleInfo>, data: Dense, lines: map<nat, string>, report: map<string, nat>,
                 history: seq<nat>, a: nat)
    requires Labelled(ms, data, lines, report) && a !in lines
    ensures var line := LineOf(CachedScan(ms, CacheOf(ms, history), a), a);
      Labelled(ms, data, lines[a := line], report[line := Count(data, LocOf(a))])
  {
    hide Transparent, Describes, Count, LocOf;
    var line := LineOf(CachedScan(ms, CacheOf(ms, history), a), a);
    var lines', report' := lines[a := line], report[line := Count(data, LocOf(a))];
    AnswerDescribes(ms, history, a);
    if Transparent(ms) {
      TransparentAt(ms, history, a);
    }
    forall k | k in report' ensures exists b :: b in lines' && lines'[b] == k && report'[k] == Count(data, LocOf(b)) {
      if k == line {
        assert lines'[a] == k;
      } else {
        var b :| b in lines && lines[b] == k && report[k] == Count(data, LocOf(b));
        assert lines'[b] == k;
      }
    }
  }

  lemma TransparentAt(ms: seq<ModuleInfo>, history: seq<nat>, a: nat)
    requires Transparent(ms)
    ensures CachedScan(ms, CacheOf(ms, history), a) == PlainScan(ms, a)
  {
  }

  /** The lines of one page. */
  method ReportPage(p: Process, ghost history: seq<nat>, ghost data: Dense, page: nat, insn: Page,
                    ghost lines: map<nat, string>, report: map<string, nat>)
    returns (ghost history': seq<nat>, ghost lines': map<nat, string>, report': map<string, nat>)
    requires p.moduleInfoCache == CacheOf(p.allModuleInfo, history)
    requires IsPage(page) && page in data && data[page] == insn
    requires Labelled(p.allModuleInfo, data, lines, report)
    requires forall a :: a in lines ==> PageOf(a) != page
    modifies p`moduleInfoCache
    ensures p.moduleInfoCache == CacheOf(p.allModuleInfo, history')
    ensures Labelled(p.allModuleInfo, data, lines', report')
    ensures forall a: nat :: a in lines' <==> a in lines || (PageOf(a) == page && insn[OffOf(a)] > 0)
  {
    hide CacheOf, CacheAfter, CachedScan, LineOf, Labelled;
    history', lines', report' := history, lines, report;
    for i := 0 to PAGE_SIZE
      invariant p.moduleInfoCache == CacheOf(p.allModuleInfo, history')
      invariant Labelled(p.allModuleInfo, data, lines', report')
      invariant forall a: nat ::
        a in lines' <==> a in lines || (PageOf(a) == page && OffOf(a) < i && insn[OffOf(a)] > 0)
    {
      LocOfSum(page, i);
      if insn[i] > 0 {
        var addr := page + i;
        LabelOne(p.allModuleInfo, data, lines', report', history', addr);
        CacheGrows(p.allModuleInfo, history', addr);
        var m := p.QueryModuleInfoByAddr(addr);
        var line := LineOf(m, addr);
        history', lines', report' := history' + [addr], lines'[addr := line], report'[line := insn[i]];
      }
    }
  }

  /** write_to_file up to the writing; pages come in arbitrary order. */
  method WriteReport(modules: seq<ModuleInfo>, data: Dense) returns (report: map<string, nat>)
    requires Aligned(data)
    ensures exists lines :: IsReport(modules, data, lines, report)
  {
    hide CacheOf, Describes, LineOf;
    var p := new Process(modules);
    ghost var history: seq<nat> := [];
    assert p.moduleInfoCache == CacheOf(modules, history) by {
      EmptyHistory(modules);
    }
    report := map[];
    ghost var lines: map<nat, string> := map[];
    var todo := data.Keys;
    while todo != {}
      invariant todo <= data.Keys
      invariant p.allModuleInfo == modules && p.moduleInfoCache == CacheOf(modules, history)
      invariant Labelled(modules, data, lines, report)
      invariant forall a: nat :: a in lines <==> PageOf(a) !in todo && Ran(data, a)
      decreases todo
    {
      var page :| page in todo;
      history, lines, report := ReportPage(p, history, data, page, data[page], lines, report);
      todo := todo - {page};
    }
    assert IsReport(modules, data, lines, report);
  }

  lemma EmptyHistory(ms: seq<ModuleInfo>)
    ensures CacheOf(ms, []) == None
  {
  }

  // ---- How many lines, and what they add up to -----------------------------------------------

  /** No two executed addresses were given the same line. */
  ghost predicate LinesDistinct(lines: map<nat, string>) {
    forall a, b :: a in lines && b in lines && lines[a] == lines[b] ==> a == b
  }

  ghost function SumOfValues(report: map<string, nat>): nat
    decreases |report|
  {
    if report == map[] then 0 else
      var k :| k in report;
      report[k] + SumOfValues(report - {k})
  }

  lemma {:induction false} SumWithout(report: map<string, nat>, k: string)
    requires k in report
    ensures SumOfValues(report) == report[k] + SumOfValues(report - {k})
    decreases |report|
  {
    var j :| j in report && SumOfValues(report) == report[j] + SumOfValues(report - {j});
    if j != k {
      SumWithout(report - {j}, k);
      SumWithout(report - {k}, j);
      assert report - {j} - {k} == report - {k} - {j};
    }
  }

  /** The locations of some addresses, each as often as it ran. */
  ghost function RunsOf(data: Dense, lines: map<nat, string>): multiset<Loc>
    decreases |lines|
  {
    if lines == map[] then multiset{} else
      var a :| a in lines;
      RunsOf(data, lines - {a})[LocOf(a) := Count(data, LocOf(a))]
  }

  /** l is the location of an address that has a line. */
  ghost predicate HasLine(lines: map<nat, string>, l: Loc) {
    exists a :: a in lines && LocOf(a) == l
  }

  lemma {:induction false} RunsOfAt(data: Dense, lines: map<nat, string>, l: Loc)
    ensures RunsOf(data, lines)[l] == if HasLine(lines, l) then Count(data, l) else 0
    decreases |lines|
  {
    hide Count, PageOf, OffOf;
    if lines != map[] {
      var a :| a in lines && RunsOf(data, lines) == RunsOf(data, lines - {a})[LocOf(a) := Count(data, LocOf(a))];
      RunsOfAt(data, lines - {a}, l);
      if l != LocOf(a) {
        var r := RunsOf(data, lines - {a});
        assert r[LocOf(a) := Count(data, LocOf(a))][l] == r[l];
        assert HasLine(lines, l) <==> HasLine(lines - {a}, l);
      }
    }
  }

  /** With a line for each executed address, the runs are those of the whole map. */
  lemma RunsOfAll(data: Dense, lines: map<nat, string>)
    requires Aligned(data) && forall a: nat :: a in lines <==> Ran(data, a)
    ensures RunsOf(data, lines) == Meaning(data)
  {
    hide RunsOf, Meaning, PageOf, OffOf, IsPage;
    forall l: Loc ensures RunsOf(data, lines)[l] == Meaning(data)[l] {
      RunsOfAt(data, lines, l);
      MeaningAt(data, l);
      if Count(data, l) > 0 {
        LocOfSum(l.page, l.off);
        assert Ran(data, l.page + l.off);
      }
    }
  }

  lemma FreshLoc(data: Dense, lines: map<nat, string>, a: nat)
    requires a !in lines
    ensures RunsOf(data, lines)[LocOf(a)] == 0
  {
    RunsOfAt(data, lines, LocOf(a));
    if b :| b in lines && LocOf(b) == LocOf(a) {
      LocIsInjective(a, b);
    }
  }

  /** The report holds exactly the lines, each with the count of its address. */
  ghost predicate Matches(data: Dense, lines: map<nat, string>, report: map<string, nat>) {
    && (forall a :: a in lines ==> lines[a] in report && report[lines[a]] == Count(data, LocOf(a)))
    && (forall k :: k in report ==> exists a :: a in lines && lines[a] == k)
  }

  lemma MatchesWithout(data: Dense, lines: map<nat, string>, report: map<string, nat>, a: nat)
    requires LinesDistinct(lines) && Matches(data, lines, report) && a in lines
    ensures LinesDistinct(lines - {a}) && Matches(data, lines - {a}, report - {lines[a]})
  {
    hide Count, LocOf;
    var lines', report' := lines - {a}, report - {lines[a]};
    forall j | j in report' ensures exists b :: b in lines' && lines'[b] == j {
      var b :| b in lines && lines[b] == j;
      assert lines'[b] == j;
    }
  }

  lemma {:induction false} DistinctLinesAddUp(data: Dense, lines: map<nat, string>, report: map<string, nat>)
    requires LinesDistinct(lines) && Matches(data, lines, report)
    ensures |report| == |lines| && SumOfValues(report) == |RunsOf(data, lines)|
    decreases |lines|
  {
    hide Count, LocOf, LinesDistinct;
    if lines == map[] {
      assert report == map[];
    } else {
      var a :| a in lines && RunsOf(data, lines) == RunsOf(data, lines - {a})[LocOf(a) := Count(data, LocOf(a))];
      MatchesWithout(data, lines, report, a);
      DistinctLinesAddUp(data, lines - {a}, report - {lines[a]});
      SumWithout(report, lines[a]);
      FreshLoc(data, lines - {a}, a);
    }
  }

  /** A map has no more distinct values than keys, and as many exactly when it is injective. */
  lemma {:induction false} FewerValues(lines: map<nat, string>, values: set<string>)
    requires values == lines.Values
    ensures |values| <= |lines|
    ensures |values| == |lines| ==> LinesDistinct(lines)
    decreases |lines|
  {
    if lines != map[] {
      var a :| a in lines;
      var rest := lines - {a};
      FewerValues(rest, rest.Values);
      if lines[a] in rest.Values {
        assert values == rest.Values by {
          forall v | v in values ensures v in rest.Values {
            var b :| b in lines && lines[b] == v;
            assert b == a || rest[b] == v;
          }
          forall v | v in rest.Values ensures v in values {
            var b :| b in rest && rest[b] == v;
            assert lines[b] == v;
          }
        }
      } else {
        assert values == rest.Values + {lines[a]} by {
          forall v | v in values ensures v in rest.Values + {lines[a]} {
            var b :| b in lines && lines[b] == v;
            assert b == a || rest[b] == v;
          }
          forall v | v in rest.Values ensures v in values {
            var b :| b in rest && rest[b] == v;
            assert lines[b] == v;
          }
          assert lines[a] in values;
        }
        forall b, c | b in lines && c in lines && lines[b] == lines[c] && |values| == |lines| ensures b == c {
          assert b != a ==> rest[b] in rest.Values;
          assert c != a ==> rest[c] in rest.Values;
        }
      }
    }
  }

  /** One line per executed address exactly when no two of them share a line, and then the counts add up. */
  lemma OneLinePerAddressIff(ms: seq<ModuleInfo>, data: Dense, lines: map<nat, string>, report: map<string, nat>)
    requires Aligned(data) && IsReport(ms, data, lines, report)
    ensures |report| == |lines| <==> LinesDistinct(lines)
    ensures LinesDistinct(lines) ==> SumOfValues(report) == Total(data)
  {
    hide Describes, Transparent, Count, LocOf, Meaning, Total;
    assert report.Keys == lines.Values by {
      forall k | k in report ensures k in lines.Values {
        var a :| a in lines && lines[a] == k && report[k] == Count(data, LocOf(a));
      }
      forall k | k in lines.Values ensures k in report {
        var a :| a in lines && lines[a] == k;
      }
    }
    FewerValues(lines, lines.Values);
    if LinesDistinct(lines) {
      forall a | a in lines ensures report[lines[a]] == Count(data, LocOf(a)) {
        var b :| b in lines && lines[b] == lines[a] && report[lines[a]] == Count(data, LocOf(b));
      }
      DistinctLinesAddUp(data, lines, report);
      RunsOfAll(data, lines);
      MeaningSize(data);
    }
  }

  /**
   * Names identify modules; and where a module has the name used for addresses outside
   * all modules, its offsets are not such addresses.
   */
  ghost predicate ProperNames(ms: seq<ModuleInfo>) {
    UniqueNames(ms) && forall m, o: nat :: m in ms && m.name == DUMMY && o <= m.size ==> Covered(ms, o)
  }

  ghost predicate Covered(ms: seq<ModuleInfo>, addr: nat) {
    exists m :: m in ms && Covers(m, addr)
  }

  /** The parts of a line: a module and an offset in it, or the bare address. */
  lemma DescribedBy(ms: seq<ModuleInfo>, a: nat, line: string) returns (m: Option<ModuleInfo>, offset: nat)
    requires Describes(ms, a, line)
    ensures m.Some? ==>
      m.value in ms && offset <= m.value.size && a == m.value.base + offset && line == Key(m.value.name, offset)
    ensures m.None? ==> !Covered(ms, a) && offset == a && line == Key(DUMMY, offset)
  {
    if n :| n in ms && Covers(n, a) && line == Key(n.name, a - n.base) {
      m, offset := Some(n), a - n.base;
    } else {
      m, offset := None, a;
    }
  }

  /** With proper names a line belongs to one address only, overlaps or not. */
  lemma LinesAreDistinct(ms: seq<ModuleInfo>, a: nat, b: nat, line: string)
    requires ProperNames(ms) && Describes(ms, a, line) && Describes(ms, b, line)
    ensures a == b
  {
    hide Key, Describes, UniqueNames, Covered;
    var m, o := DescribedBy(ms, a, line);
    var n, p := DescribedBy(ms, b, line);
    KeyIsInjective(if m.Some? then m.value.name else DUMMY, o, if n.Some? then n.value.name else DUMMY, p);
    if m.Some? && n.Some? {
      SameNameSameModule(ms, m.value, n.value);
    }
  }

  lemma SameNameSameModule(ms: seq<ModuleInfo>, m: ModuleInfo, n: ModuleInfo)
    requires UniqueNames(ms) && m in ms && n in ms && m.name == n.name
    ensures m == n
  {
    var i :| 0 <= i < |ms| && ms[i] == m;
    var j :| 0 <= j < |ms| && ms[j] == n;
    assert i == j;
  }

  /** The locations that ran. */
  ghost function Executed(data: Dense): set<Loc> {
    set p, i: nat | p in data && i < PAGE_SIZE && data[p][i] > 0 :: Loc(p, i)
  }

  lemma {:induction false} AsManyLocations(addrs: set<nat>, locs: set<Loc>)
    requires forall l :: l in locs <==> exists a :: a in addrs && LocOf(a) == l
    ensures |locs| == |addrs|
    decreases |addrs|
  {
    hide PageOf, OffOf;
    if addrs != {} {
      var a :| a in addrs;
      assert LocOf(a) in locs;
      forall l ensures l in locs - {LocOf(a)} <==> exists b :: b in addrs - {a} && LocOf(b) == l {
        forall b | b in addrs && b != a ensures LocOf(b) != LocOf(a) {
          LocIsInjective(a, b);
        }
      }
      AsManyLocations(addrs - {a}, locs - {LocOf(a)});
    } else {
      assert locs == {};
    }
  }

  lemma ExecutedRan(data: Dense, lines: map<nat, string>)
    requires Aligned(data) && forall a: nat :: a in lines <==> Ran(data, a)
    ensures |Executed(data)| == |lines|
  {
    hide PageOf, OffOf, IsPage;
    forall l ensures l in Executed(data) <==> exists a :: a in lines.Keys && LocOf(a) == l {
      if l in Executed(data) {
        LocOfSum(l.page, l.off);
        assert Ran(data, l.page + l.off);
      }
    }
    AsManyLocations(lines.Keys, Executed(data));
  }

  lemma LineOfAddress(ms: seq<ModuleInfo>, data: Dense, lines: map<nat, string>, report: map<string, nat>, a: nat)
    requires IsReport(ms, data, lines, report) && LinesDistinct(lines) && a in lines
    ensures lines[a] in report && report[lines[a]] == Count(data, LocOf(a)) && Describes(ms, a, lines[a])
    ensures Transparent(ms) ==> lines[a] == LineOf(PlainScan(ms, a), a)
  {
    hide Describes, Transparent, Count, LocOf, LineOf;
    var b :| b in lines && lines[b] == lines[a] && report[lines[a]] == Count(data, LocOf(b));
  }

  lemma ProperLinesAreDistinct(ms: seq<ModuleInfo>, data: Dense, lines: map<nat, string>, report: map<string, nat>)
    requires ProperNames(ms) && Labelled(ms, data, lines, report)
    ensures LinesDistinct(lines)
  {
    hide Describes, Transparent, Count, LocOf, UniqueNames;
    forall a, b | a in lines && b in lines && lines[a] == lines[b] ensures a == b {
      LinesAreDistinct(ms, a, b, lines[a]);
    }
  }

  /**
   * With proper names the report keeps one line per executed address, and its counts
   * sum to the grand total, even where module ranges overlap.
   */
  lemma ReportIsComplete(ms: seq<ModuleInfo>, data: Dense, report: map<string, nat>)
    requires Aligned(data) && ProperNames(ms) && exists lines :: IsReport(ms, data, lines, report)
    ensures |report| == |Executed(data)| && SumOfValues(report) == Total(data)
  {
    hide Labelled, Total, ProperNames, SumOfValues, Executed, Ran, Aligned, LinesDistinct;
    var lines :| IsReport(ms, data, lines, report);
    ProperLinesAreDistinct(ms, data, lines, report);
    OneLinePerAddressIff(ms, data, lines, report);
    ExecutedRan(data, lines);
  }

  /**
   * With proper names each executed address has a line that holds its count and
   * describes it; with disjoint ranges it is the line the plain scan gives.
   */
  lemma ReportHasLine(ms: seq<ModuleInfo>, data: Dense, report: map<string, nat>, a: nat)
    requires ProperNames(ms) && Ran(data, a) && exists lines :: IsReport(ms, data, lines, report)
    ensures exists line :: line in report && report[line] == Count(data, LocOf(a)) && Describes(ms, a, line)
    ensures DisjointRanges(ms) ==>
      LineOf(PlainScan(ms, a), a) in report && report[LineOf(PlainScan(ms, a), a)] == Count(data, LocOf(a))
  {
    hide Describes, Transparent, Count, LocOf, ProperNames, DisjointRanges, LineOf, PlainScan, LinesDistinct, Labelled;
    var lines :| IsReport(ms, data, lines, report);
    assert a in lines;
    ProperLinesAreDistinct(ms, data, lines, report);
    LineOfAddress(ms, data, lines, report, a);
    if DisjointRanges(ms) {
      DisjointIsTransparent(ms);
    }
  }

  // ---- When the report is complete -----------------------------------------------------------

  /** If the map's report is one, it has a line for each executed address and the right sum. */
  ghost predicate CompleteFor(ms: seq<ModuleInfo>, data: Dense, report: map<string, nat>) {
    Aligned(data) && (exists lines :: IsReport(ms, data, lines, report)) ==>
      |report| == |Executed(data)| && SumOfValues(report) == Total(data)
  }

  ghost predicate AlwaysComplete(ms: seq<ModuleInfo>) {
    forall data, report :: CompleteFor(ms, data, report)
  }

  lemma PlainDescribes(ms: seq<ModuleInfo>, a: nat)
    ensures Describes(ms, a, LineOf(PlainScan(ms, a), a))
  {
  }

  /** The map of a run of two addresses. */
  lemma TwoRuns(a: nat, b: nat) returns (data: Dense)
    requires a != b
    ensures Aligned(data) && Total(data) == 2
    ensures forall x: nat :: Count(data, LocOf(x)) == if x == a || x == b then 1 else 0
  {
    var one := AddIp(map[], a);
    data := AddIp(one, b);
    AddIpKeeps(map[], a);
    AddIpKeeps(one, b);
    AddIpMeaning(map[], a);
    AddIpMeaning(one, b);
    MeaningOfEmpty();
    MeaningSize(data);
    forall x: nat ensures Count(data, LocOf(x)) == if x == a || x == b then 1 else 0 {
      AddIpCount(map[], a, LocOf(x));
      AddIpCount(one, b, LocOf(x));
      LocIsInjective(x, a);
      LocIsInjective(x, b);
    }
  }

  /** The report of a run of two addresses with the same line. */
  lemma SharedLine(ms: seq<ModuleInfo>, data: Dense, a: nat, b: nat, line: string)
    requires forall x: nat :: Count(data, LocOf(x)) == if x == a || x == b then 1 else 0
    requires line == LineOf(PlainScan(ms, a), a) == LineOf(PlainScan(ms, b), b)
    ensures IsReport(ms, data, map[a := line, b := line], map[line := 1])
  {
    hide Describes, Transparent, PlainScan, LineOf, Count, LocOf;
    PlainDescribes(ms, a);
    PlainDescribes(ms, b);
    var lines := map[a := line, b := line];
    assert lines[a] == line && lines[b] == line;
  }

  lemma SingleSum(line: string, n: nat)
    ensures SumOfValues(map[line := n]) == n
  {
    SumWithout(map[line := n], line);
    assert map[line := n] - {line} == map[];
  }

  /** Two addresses with the same line: one of their counts is missing from the report. */
  lemma SharedLineLosesACount(ms: seq<ModuleInfo>, a: nat, b: nat) returns (data: Dense, report: map<string, nat>)
    requires a != b && LineOf(PlainScan(ms, a), a) == LineOf(PlainScan(ms, b), b)
    ensures Aligned(data) && exists lines :: IsReport(ms, data, lines, report)
    ensures |report| == 1 && |Executed(data)| == 2
    ensures SumOfValues(report) == 1 && Total(data) == 2
  {
    hide Labelled, PlainScan, LineOf, Count, LocOf, Total, Executed, Aligned, SumOfValues;
    data := TwoRuns(a, b);
    var line := LineOf(PlainScan(ms, a), a);
    report := map[line := 1];
    var lines := map[a := line, b := line];
    SharedLine(ms, data, a, b, line);
    ExecutedRan(data, lines);
    assert lines.Keys == {a, b};
    SingleSum(line, 1);
  }

  lemma {:induction false} FirstWhenDisjoint(ms: seq<ModuleInfo>, i: nat, a: nat)
    requires DisjointRanges(ms) && i < |ms| && Covers(ms[i], a)
    ensures LineOf(PlainScan(ms, a), a) == Key(ms[i].name, a - ms[i].base)
  {
    IsFirstIsFirst(ms, i, a);
  }

  /** Two modules of the same name: the two base addresses share a line. */
  lemma SameNamesLoseACount(ms: seq<ModuleInfo>, i: nat, j: nat) returns (data: Dense, report: map<string, nat>)
    requires DisjointRanges(ms) && i < j < |ms| && ms[i].name == ms[j].name
    ensures !CompleteFor(ms, data, report)
  {
    FirstWhenDisjoint(ms, i, ms[i].base);
    FirstWhenDisjoint(ms, j, ms[j].base);
    assert Covers(ms[i], ms[i].base) && Covers(ms[j], ms[j].base);
    data, report := SharedLineLosesACount(ms, ms[i].base, ms[j].base);
  }

  /** A module named "dummy" with an offset that is an address outside all modules. */
  lemma DummyLosesACount(ms: seq<ModuleInfo>, m: ModuleInfo, o: nat) returns (data: Dense, report: map<string, nat>)
    requires DisjointRanges(ms) && m in ms && m.name == DUMMY && o <= m.size && !Covered(ms, o)
    ensures !CompleteFor(ms, data, report)
  {
    hide DisjointRanges, Executed, Total, SumOfValues, Aligned, IsReport, Key, First;
    var i :| 0 <= i < |ms| && ms[i] == m;
    FirstWhenDisjoint(ms, i, m.base + o);
    assert First(ms, o).None?;
    assert Covers(m, m.base + o);
    data, report := SharedLineLosesACount(ms, m.base + o, o);
  }

  /**
   * For disjoint ranges: the report of every map has one line per executed address, and
   * the grand total as its sum, if and only if the names are proper.
   */
  lemma ReportCompleteIff(ms: seq<ModuleInfo>)
    requires DisjointRanges(ms)
    ensures AlwaysComplete(ms) <==> ProperNames(ms)
  {
    hide CompleteFor, DisjointRanges;
    if ProperNames(ms) {
      forall data, report ensures CompleteFor(ms, data, report) {
        CompleteWhenProper(ms, data, report);
      }
    } else if i: nat, j: nat :| i < j < |ms| && ms[i].name == ms[j].name {
      var data, report := SameNamesLoseACount(ms, i, j);
    } else {
      var m, o: nat :| m in ms && m.name == DUMMY && o <= m.size && !Covered(ms, o);
      var data, report := DummyLosesACount(ms, m, o);
    }
  }

  lemma CompleteWhenProper(ms: seq<ModuleInfo>, data: Dense, report: map<string, nat>)
    requires ProperNames(ms)
    ensures CompleteFor(ms, data, report)
  {
    hide ProperNames, IsReport, Executed, SumOfValues, Total;
    if Aligned(data) && exists lines :: IsReport(ms, data, lines, report) {
      ReportIsComplete(ms, data, report);
    }
  }
}
