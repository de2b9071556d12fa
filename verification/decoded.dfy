/**
 * The decoded pension filing, as typed records, and the anchor paths under
 * which the validators find their repeated records. Also the aggregates the
 * rules compute over those records (sums, salary sets, per-category maps).
 */
module Decoded {
  import opened Wrappers
  import opened Schema

  /** One itemised line of the most recent contribution (PerutHafkadaAchrona). */
  datatype LastItem = LastItem(amount: real, salary: real)

  /** The most recent contribution (PerutPirteiHafkadaAchrona): gross TOTAL-HAFKADA,
      net TOTAL-HAFKADA-ACHRONA, and its itemisation. */
  datatype LastHafkada = LastHafkada(total: real, totalNet: real, perut: seq<LastItem>)

  /** One year-to-date contribution (PerutHafkadotMetchilatShana): SUG-HAFRASHA,
      CHODESH-SACHAR, SACHAR-BERAMAT-HAFKADA and SCHUM-HAFKADA-SHESHULAM. */
  datatype YtdEntry = YtdEntry(sug: int, month: int, salary: real, amount: real)

  /** The reported yearly totals (HafkadotShnatiyot). */
  datatype YearlyTotals = YearlyTotals(pitzuim: real, oved: real, maavid: real)

  /** One declared allocation percentage (PerutHafrashotLePolisa). */
  datatype HafrashaEntry = HafrashaEntry(sug: int, percentage: real)

  /** The deductions of the reported month (HotzaotBafoalLehodeshDivoach); either may be nil-marked. */
  datatype Expenses = Expenses(insurancePremium: Value, managementFee: Value)

  /** A contribution-budget block (PirteiTaktziv). */
  datatype Takziv = Takziv(
    lastHafkadot: seq<LastHafkada>,
    ytd: seq<YtdEntry>,
    yearly: YearlyTotals,
    hafrashot: seq<HafrashaEntry>,
    expenses: Expenses)

  /** A policy record (HeshbonOPolisa) with TAARICH-NECHONUT and TAARICH-HITZTARFUT-MUTZAR. */
  datatype Polisa = Polisa(nechonutDate: string, joinDate: string, takzivim: seq<Takziv>)

  /** The file header (KoteretKovetz): SUG-MIMSHAK and TAARICH-BITZUA. */
  datatype Header = Header(sugMimshak: string, bitzua: string)

  /** The customer block (YeshutLakoach) with TAARICH-LEYDA. */
  datatype Customer = Customer(birthDate: string)

  /** One decoded filing of a single product. */
  datatype Document = Document(header: Header, customer: Customer, polisot: seq<Polisa>)

  // ---------------------------------------------------------------------
  // Anchor paths and the records under them
  // ---------------------------------------------------------------------

  const PolisaPath: string := "YeshutYatzran/Mutzarim/Mutzar/HeshbonotOPolisot/HeshbonOPolisa"
  const TakzivPath: string := PolisaPath + "/PirteiTaktziv"
  const LastHafkadaPath: string := TakzivPath + "/PirteiHafkadaAchrona/PerutPirteiHafkadaAchrona"
  const YtdPath: string := TakzivPath + "/PerutHafkadotMetchilatShana"

  /** The repeated groups a validator can be anchored at. */
  datatype Anchor = Polisot | Takzivim | LastHafkadot | YtdEntries

  /** A repeated record, as handed to a rule. */
  datatype Record =
    | PolisaRecord(polisa: Polisa)
    | TakzivRecord(takziv: Takziv)
    | LastHafkadaRecord(last: LastHafkada)
    | YtdRecord(entry: YtdEntry)

  /** The repeated group a record belongs to. */
  function AnchorOf(rec: Record): Anchor
  {
    match rec
    case PolisaRecord(_) => Polisot
    case TakzivRecord(_) => Takzivim
    case LastHafkadaRecord(_) => LastHafkadot
    case YtdRecord(_) => YtdEntries
  }

  function AnchorPath(a: Anchor): string
  {
    match a
    case Polisot => PolisaPath
    case Takzivim => TakzivPath
    case LastHafkadot => LastHafkadaPath
    case YtdEntries => YtdPath
  }

  /** Every budget block of the given policies, in document order. */
  function TakzivimOf(ps: seq<Polisa>): (ts: seq<Takziv>)
  {
    if ps == [] then [] else TakzivimOf(ps[..|ps| - 1]) + ps[|ps| - 1].takzivim
  }

  /** Every most-recent-contribution record of the given blocks, in document order. */
  function LastHafkadotOf(ts: seq<Takziv>): seq<LastHafkada>
  {
    if ts == [] then [] else LastHafkadotOf(ts[..|ts| - 1]) + ts[|ts| - 1].lastHafkadot
  }

  /** Every year-to-date entry of the given blocks, in document order. */
  function YtdOf(ts: seq<Takziv>): seq<YtdEntry>
  {
    if ts == [] then [] else YtdOf(ts[..|ts| - 1]) + ts[|ts| - 1].ytd
  }

  /** The records found under an anchor, in document order. */
  function Records(doc: Document, a: Anchor): (rs: seq<Record>)
    ensures a == Polisot ==>
              |rs| == |doc.polisot| &&
              forall i :: 0 <= i < |rs| ==> rs[i] == PolisaRecord(doc.polisot[i])
    ensures a == Takzivim ==>
              |rs| == |TakzivimOf(doc.polisot)| &&
              forall i :: 0 <= i < |rs| ==> rs[i] == TakzivRecord(TakzivimOf(doc.polisot)[i])
    ensures a == LastHafkadot ==>
              |rs| == |LastHafkadotOf(TakzivimOf(doc.polisot))| &&
              forall i :: 0 <= i < |rs| ==> rs[i] == LastHafkadaRecord(LastHafkadotOf(TakzivimOf(doc.polisot))[i])
    ensures a == YtdEntries ==>
              |rs| == |YtdOf(TakzivimOf(doc.polisot))| &&
              forall i :: 0 <= i < |rs| ==> rs[i] == YtdRecord(YtdOf(TakzivimOf(doc.polisot))[i])
  {
    match a
    case Polisot =>
      var xs := doc.polisot; seq(|xs|, i requires 0 <= i < |xs| => PolisaRecord(xs[i]))
    case Takzivim =>
      var xs := TakzivimOf(doc.polisot); seq(|xs|, i requires 0 <= i < |xs| => TakzivRecord(xs[i]))
    case LastHafkadot =>
      var xs := LastHafkadotOf(TakzivimOf(doc.polisot)); seq(|xs|, i requires 0 <= i < |xs| => LastHafkadaRecord(xs[i]))
    case YtdEntries =>
      var xs := YtdOf(TakzivimOf(doc.polisot)); seq(|xs|, i requires 0 <= i < |xs| => YtdRecord(xs[i]))
  }

  // ---------------------------------------------------------------------
  // Most recent contribution: sum and salaries
  // ---------------------------------------------------------------------

  /** Σ SCHUM-HAFKADA-SHESHULAM over an itemisation. */
  function SumAmounts(p: seq<LastItem>): real
  {
    if p == [] then 0.0 else SumAmounts(p[..|p| - 1]) + p[|p| - 1].amount
  }

  /** The distinct SACHAR-BERAMAT-HAFKADA values of an itemisation. */
  function SalarySet(p: seq<LastItem>): set<real>
  {
    set i | 0 <= i < |p| :: p[i].salary
  }

  /** Reference meaning of "one salary": at least one entry, and all entries agree. */
  predicate UniformSalary(p: seq<LastItem>)
  {
    p != [] && forall i :: 0 <= i < |p| ==> p[i].salary == p[0].salary
  }

  lemma SingletonSet<T>(s: set<T>)
    requires |s| == 1
    ensures exists x :: s == {x}
  {
    var x :| x in s;
    assert |s - {x}| == 0;
    assert s == {x};
  }

  /** The source's test `len(salaries) == 1` means exactly UniformSalary. */
  lemma SalarySetSingleton(p: seq<LastItem>)
    ensures |SalarySet(p)| == 1 <==> UniformSalary(p)
  {
    var s := SalarySet(p);
    if UniformSalary(p) {
      assert s == {p[0].salary};
    }
    if |s| == 1 {
      SingletonSet(s);
      var x :| s == {x};
      assert p != [] by { assert x in s; }
      forall i | 0 <= i < |p| ensures p[i].salary == p[0].salary {
        assert p[i].salary in s && p[0].salary in s;
      }
    }
  }

  // ---------------------------------------------------------------------
  // Year-to-date entries: per-category sums and salary months
  // ---------------------------------------------------------------------

  /** Σ SCHUM-HAFKADA-SHESHULAM over the entries of category `code`. */
  function SumFor(ytd: seq<YtdEntry>, code: int): real
  {
    if ytd == [] then 0.0
    else SumFor(ytd[..|ytd| - 1], code) + (if ytd[|ytd| - 1].sug == code then ytd[|ytd| - 1].amount else 0.0)
  }

  /** A read of a per-category running sum kept in a defaultdict: a missing key reads as zero. */
  function Lookup(sums: map<int, real>, code: int): real
  {
    if code in sums then sums[code] else 0.0
  }

  /** A category with no entries sums to zero. */
  lemma {:induction false} SumForAbsent(ytd: seq<YtdEntry>, code: int)
    requires forall i :: 0 <= i < |ytd| ==> ytd[i].sug != code
    ensures SumFor(ytd, code) == 0.0
  {
    if ytd != [] {
      SumForAbsent(ytd[..|ytd| - 1], code);
    }
  }

  /** Changing one entry's amount by `delta` moves only its own category's sum, by `delta`. */
  lemma {:induction false} SumForPerturbed(ytd: seq<YtdEntry>, i: nat, delta: real, code: int)
    requires i < |ytd|
    ensures SumFor(ytd[i := ytd[i].(amount := ytd[i].amount + delta)], code)
         == SumFor(ytd, code) + (if ytd[i].sug == code then delta else 0.0)
  {
    var ytd' := ytd[i := ytd[i].(amount := ytd[i].amount + delta)];
    var n := |ytd|;
    if i == n - 1 {
      assert ytd'[..n - 1] == ytd[..n - 1];
    } else {
      assert ytd'[..n - 1] == ytd[..n - 1][i := ytd[i].(amount := ytd[i].amount + delta)];
      SumForPerturbed(ytd[..n - 1], i, delta, code);
    }
  }

  /** The distinct CHODESH-SACHAR values. */
  function MonthsOf(ytd: seq<YtdEntry>): set<int>
  {
    set i | 0 <= i < |ytd| :: ytd[i].month
  }

  /** The distinct salaries reported for salary month `m`. */
  function MonthSalaries(ytd: seq<YtdEntry>, m: int): set<real>
  {
    set i | 0 <= i < |ytd| && ytd[i].month == m :: ytd[i].salary
  }

  /** A month that occurs has at least one salary. */
  lemma MonthsHaveSalaries(ytd: seq<YtdEntry>)
    ensures forall m :: m in MonthsOf(ytd) ==> |MonthSalaries(ytd, m)| >= 1
  {
    forall m | m in MonthsOf(ytd) ensures |MonthSalaries(ytd, m)| >= 1 {
      var i :| 0 <= i < |ytd| && ytd[i].month == m;
      assert ytd[i].salary in MonthSalaries(ytd, m);
    }
  }

  /** The earliest salary month. */
  function MinMonth(ytd: seq<YtdEntry>): (m: int)
    requires ytd != []
    ensures m in MonthsOf(ytd)
    ensures forall i :: 0 <= i < |ytd| ==> m <= ytd[i].month
  {
    if |ytd| == 1 then ytd[0].month
    else
      var m := MinMonth(ytd[..|ytd| - 1]);
      assert forall i :: 0 <= i < |ytd| - 1 ==> ytd[..|ytd| - 1][i] == ytd[i];
      if ytd[|ytd| - 1].month < m then ytd[|ytd| - 1].month else m
  }

  lemma MonthsOfSnoc(r: seq<YtdEntry>, e: YtdEntry)
    ensures MonthsOf(r + [e]) == MonthsOf(r) + {e.month}
  {
    var q := r + [e];
    forall x | x in MonthsOf(q) ensures x in MonthsOf(r) + {e.month} {
      var i :| 0 <= i < |q| && q[i].month == x;
      if i < |r| { assert q[i] == r[i]; }
    }
    forall x | x in MonthsOf(r) + {e.month} ensures x in MonthsOf(q) {
      if x == e.month {
        assert q[|r|] == e;
      } else {
        var i :| 0 <= i < |r| && r[i].month == x;
        assert q[i] == r[i];
      }
    }
  }

  /** The entries whose salary month is not `m`. */
  function WithoutMonth(ytd: seq<YtdEntry>, m: int): (r: seq<YtdEntry>)
    ensures |r| <= |ytd|
    ensures m in MonthsOf(ytd) ==> |r| < |ytd|
    ensures MonthsOf(r) == MonthsOf(ytd) - {m}
  {
    if ytd == [] then []
    else
      var init := ytd[..|ytd| - 1];
      var r := WithoutMonth(init, m);
      var last := ytd[|ytd| - 1];
      assert ytd == init + [last];
      MonthsOfSnoc(init, last);
      if last.month == m then r
      else
        MonthsOfSnoc(r, last);
        r + [last]
  }

  /** The distinct salary months in ascending order (the groups of sort-then-group-by). */
  function AscendingMonths(ytd: seq<YtdEntry>): (ms: seq<int>)
    ensures forall i, j :: 0 <= i < j < |ms| ==> ms[i] < ms[j]
    ensures forall m :: m in ms <==> m in MonthsOf(ytd)
    decreases |ytd|
  {
    if ytd == [] then []
    else
      var m := MinMonth(ytd);
      var rest := WithoutMonth(ytd, m);
      var tail := AscendingMonths(rest);
      assert forall x :: x in tail ==> x in MonthsOf(ytd) && x != m;
      assert forall x :: x in MonthsOf(ytd) ==> m <= x by {
        forall x | x in MonthsOf(ytd) ensures m <= x {
          var i :| 0 <= i < |ytd| && ytd[i].month == x;
        }
      }
      ConsAscending(m, tail);
      [m] + tail
  }

  lemma ConsAscending(m: int, tail: seq<int>)
    requires forall i, j :: 0 <= i < j < |tail| ==> tail[i] < tail[j]
    requires forall x :: x in tail ==> m < x
    ensures forall i, j :: 0 <= i < j < |[m] + tail| ==> ([m] + tail)[i] < ([m] + tail)[j]
    ensures forall x :: x in [m] + tail <==> x == m || x in tail
  {
    var q := [m] + tail;
    forall i, j | 0 <= i < j < |q| ensures q[i] < q[j] {
      assert q[j] == tail[j - 1] && tail[j - 1] in tail;
      if i > 0 { assert q[i] == tail[i - 1]; }
    }
  }

  // ---------------------------------------------------------------------
  // Declared percentages: the dictionary built entry by entry
  // ---------------------------------------------------------------------

  /** The percentage per category after reading the entries in order (later entries overwrite). */
  function Percentages(h: seq<HafrashaEntry>): map<int, real>
  {
    if h == [] then map[]
    else Percentages(h[..|h| - 1])[h[|h| - 1].sug := h[|h| - 1].percentage]
  }

  /** How many entries repeat a category declared by an earlier entry. */
  function RepeatCount(h: seq<HafrashaEntry>): nat
  {
    if h == [] then 0
    else RepeatCount(h[..|h| - 1]) + (if h[|h| - 1].sug in Percentages(h[..|h| - 1]) then 1 else 0)
  }

  /** A category is in the map exactly when some entry declares it. */
  lemma {:induction false} PercentagesKeys(h: seq<HafrashaEntry>, s: int)
    ensures s in Percentages(h) <==> exists i :: 0 <= i < |h| && h[i].sug == s
  {
    if h != [] {
      var init := h[..|h| - 1];
      PercentagesKeys(init, s);
      if s in Percentages(init) {
        var i :| 0 <= i < |init| && init[i].sug == s;
        assert h[i].sug == s;
      }
      if exists i :: 0 <= i < |h| && h[i].sug == s {
        var i :| 0 <= i < |h| && h[i].sug == s;
        if i < |h| - 1 { assert init[i].sug == s; }
      }
    }
  }

  /** The map keeps the percentage of the last entry of each category. */
  lemma {:induction false} PercentagesKeepLast(h: seq<HafrashaEntry>, i: nat)
    requires i < |h|
    requires forall j :: i < j < |h| ==> h[j].sug != h[i].sug
    ensures h[i].sug in Percentages(h) && Percentages(h)[h[i].sug] == h[i].percentage
  {
    if i < |h| - 1 {
      var init := h[..|h| - 1];
      PercentagesKeepLast(init, i);
    }
  }

  /** Every entry either declares a new category or is a repeat. */
  lemma {:induction false} RepeatCountPlusCategories(h: seq<HafrashaEntry>)
    ensures RepeatCount(h) + |Percentages(h)| == |h|
  {
    if h != [] {
      RepeatCountPlusCategories(h[..|h| - 1]);
    }
  }
}
