/**
 * The earlier single-class validator: one accumulating checker that runs
 * three rules over every takziv of every policy. Its messages carry no
 * operands, it never clears them, and an exception leaves the messages
 * reported so far in place. A Trace records exactly that: what was appended
 * before the run ended, and the error that ended it, if any.
 */
module Legacy {
  import opened Wrappers
  import opened Schema
  import opened Decoded
  import Rules

  /** The legacy messages: fixed texts, no operands. */
  datatype LegacyMessage =
    | SumMismatch             // last itemisation does not add up
    | SalaryNotUniform        // last itemisation carries other than one salary
    | TotalMismatch(code: int) // year-to-date sum of a category differs from its yearly total
    | DuplicateCategory       // a category declared twice
    | MissingPercentage       // some legacy category has no declared percentage
    | AmountNotPercentage     // an entry's amount is not its category's percentage of its salary

  /** What aborts the legacy run. */
  datatype LegacyFailure =
    | NoLastHafkada              // PerutPirteiHafkadaAchrona has no element 0
    | UndeclaredCategory(sug: int) // the percentage lookup for an entry's category fails

  /** The messages appended by a run, and the error that ended it early, if any. */
  datatype Trace = Trace(messages: seq<LegacyMessage>, error: Option<LegacyFailure>)

  /** Runs `a` and then, unless it ended early, `b`. */
  function Seq(a: Trace, b: Trace): (r: Trace)
    ensures a.error.Some? ==> r == a
    ensures a.error.None? ==> r.messages == a.messages + b.messages && r.error == b.error
  {
    if a.error.Some? then a else Trace(a.messages + b.messages, b.error)
  }

  function Done(ms: seq<LegacyMessage>): Trace { Trace(ms, None) }

  function Expect(check: bool, m: LegacyMessage): (ms: seq<LegacyMessage>)
    ensures ms == [] <==> check
    ensures !check ==> ms == [m]
  {
    if check then [] else [m]
  }

  /** The categories validate.py's own enumeration knows: pitzuim, tagmulim oved, tagmulim maavid. */
  const LegacyCodes: seq<int> := [1, 2, 3]

  // ---------------------------------------------------------------------
  // check_last_hafkada
  // ---------------------------------------------------------------------

  function LastMessages(l: LastHafkada): (ms: seq<LegacyMessage>)
    ensures SumMismatch in ms <==> SumAmounts(l.perut) != l.total
    ensures SalaryNotUniform in ms <==> !UniformSalary(l.perut)
    ensures |ms| <= 2 && (ms == [] <==> SumAmounts(l.perut) == l.total && UniformSalary(l.perut))
    ensures ms == When(SumAmounts(l.perut) != l.total, SumMismatch) + When(!UniformSalary(l.perut), SalaryNotUniform)
  {
    SalarySetSingleton(l.perut);
    Expect(SumAmounts(l.perut) == l.total, SumMismatch) + Expect(|SalarySet(l.perut)| == 1, SalaryNotUniform)
  }

  /** Only element 0 of PerutPirteiHafkadaAchrona is inspected; an empty list aborts the run. */
  function LastHafkadaRun(t: Takziv): (r: Trace)
    ensures r.error.Some? <==> t.lastHafkadot == []
    ensures r.error.Some? ==> r == Trace([], Some(NoLastHafkada))
    ensures r.error.None? ==> r.messages == LastMessages(t.lastHafkadot[0])
  {
    if t.lastHafkadot == [] then Trace([], Some(NoLastHafkada)) else Done(LastMessages(t.lastHafkadot[0]))
  }

  // ---------------------------------------------------------------------
  // check_hafkadot_ytd
  // ---------------------------------------------------------------------

  function YearlyTotal(y: YearlyTotals, code: int): real
  {
    if code == 1 then y.pitzuim else if code == 2 then y.oved else y.maavid
  }

  /** One message per legacy category whose year-to-date sum differs from its yearly total. */
  function YtdTotalMessages(t: Takziv): (ms: seq<LegacyMessage>)
    ensures |ms| <= 3
    ensures forall c :: c in LegacyCodes ==>
              (TotalMismatch(c) in ms <==> SumFor(t.ytd, c) != YearlyTotal(t.yearly, c))
    ensures forall m :: m in ms ==> m.TotalMismatch? && m.code in LegacyCodes
    ensures ms == When(SumFor(t.ytd, 1) != YearlyTotal(t.yearly, 1), TotalMismatch(1))
                  + When(SumFor(t.ytd, 2) != YearlyTotal(t.yearly, 2), TotalMismatch(2))
                  + When(SumFor(t.ytd, 3) != YearlyTotal(t.yearly, 3), TotalMismatch(3))
  {
    Expect(SumFor(t.ytd, 1) == t.yearly.pitzuim, TotalMismatch(1))
      + Expect(SumFor(t.ytd, 2) == t.yearly.oved, TotalMismatch(2))
      + Expect(SumFor(t.ytd, 3) == t.yearly.maavid, TotalMismatch(3))
  }

  // ---------------------------------------------------------------------
  // check_hafrashot_percentage
  // ---------------------------------------------------------------------

  /** One duplicate message per entry that repeats an earlier entry's category. */
  function DuplicateMessages(h: seq<HafrashaEntry>): (ms: seq<LegacyMessage>)
    ensures |ms| == RepeatCount(h)
    ensures forall m :: m in ms ==> m == DuplicateCategory
  {
    if h == [] then []
    else
      var init := h[..|h| - 1];
      DuplicateMessages(init) + Expect(h[|h| - 1].sug !in Percentages(init), DuplicateCategory)
  }

  /** The amount the declared percentage predicts for an entry. */
  function Predicted(pct: real, e: YtdEntry): real
  {
    pct * e.salary / 100.0
  }

  /** The per-entry comparison, in entry order; the first entry of an undeclared category aborts. */
  function EntriesRun(pcts: map<int, real>, ytd: seq<YtdEntry>): (r: Trace)
    ensures r.error.None? <==> forall i :: 0 <= i < |ytd| ==> ytd[i].sug in pcts
    ensures r.error.Some? ==>
              exists i :: 0 <= i < |ytd| && r.error == Some(UndeclaredCategory(ytd[i].sug)) &&
                ytd[i].sug !in pcts && forall j :: 0 <= j < i ==> ytd[j].sug in pcts
    ensures |r.messages| <= |ytd|
    ensures forall m :: m in r.messages ==> m == AmountNotPercentage
  {
    if ytd == [] then Done([])
    else
      var n := |ytd| - 1;
      var e := ytd[n];
      var prev := EntriesRun(pcts, ytd[..n]);
      assert forall i :: 0 <= i < n ==> ytd[..n][i] == ytd[i];
      if prev.error.Some? then prev
      else if e.sug !in pcts then Trace(prev.messages, Some(UndeclaredCategory(e.sug)))
      else Done(prev.messages + Expect(e.amount == Predicted(pcts[e.sug], e), AmountNotPercentage))
  }

  /** Duplicates, then one "missing" message if any legacy category is undeclared, then the entries. */
  function PercentageRun(t: Takziv): (r: Trace)
    ensures r.error.None? <==> forall i :: 0 <= i < |t.ytd| ==> t.ytd[i].sug in Percentages(t.hafrashot)
    ensures r.error.Some? ==>
              exists i :: 0 <= i < |t.ytd| && r.error == Some(UndeclaredCategory(t.ytd[i].sug)) &&
                t.ytd[i].sug !in Percentages(t.hafrashot)
  {
    var pcts := Percentages(t.hafrashot);
    Seq(Done(DuplicateMessages(t.hafrashot)
             + Expect(forall c :: c in LegacyCodes ==> c in pcts, MissingPercentage)),
        EntriesRun(pcts, t.ytd))
  }

  /** The three rules for one takziv, in the order check runs them. */
  function TakzivRun(t: Takziv): (r: Trace)
    ensures YtdTotalMessages(t) <= r.messages
    ensures t.lastHafkadot == [] ==> r.error == Some(NoLastHafkada)
    ensures r.error.None? <==> t.lastHafkadot != [] && PercentageRun(t).error.None?
  {
    Seq(Seq(Done(YtdTotalMessages(t)), LastHafkadaRun(t)), PercentageRun(t))
  }

  /** Runs each trace in turn until one ends early. */
  function SeqAll(rs: seq<Trace>): Trace
  {
    if rs == [] then Done([]) else Seq(SeqAll(rs[..|rs| - 1]), rs[|rs| - 1])
  }

  function TakzivRuns(ts: seq<Takziv>): (rs: seq<Trace>)
    ensures |rs| == |ts| && forall i :: 0 <= i < |ts| ==> rs[i] == TakzivRun(ts[i])
  {
    seq(|ts|, i requires 0 <= i < |ts| => TakzivRun(ts[i]))
  }

  /** The takzivim of one policy, in order. */
  function TakzivimRun(ts: seq<Takziv>): Trace
  {
    SeqAll(TakzivRuns(ts))
  }

  function PolisaRuns(ps: seq<Polisa>): (rs: seq<Trace>)
    ensures |rs| == |ps| && forall i :: 0 <= i < |ps| ==> rs[i] == TakzivimRun(ps[i].takzivim)
  {
    seq(|ps|, i requires 0 <= i < |ps| => TakzivimRun(ps[i].takzivim))
  }

  /** Every takziv of every policy, policy by policy. */
  function PolisotRun(ps: seq<Polisa>): (r: Trace)
    ensures ps == [] ==> r == Done([])
    ensures |ps| == 1 ==> r == TakzivimRun(ps[0].takzivim)
  {
    var rs := PolisaRuns(ps);
    SeqAllOne(rs);
    SeqAll(rs)
  }

  /** A single trace run on its own is that trace. */
  lemma SeqAllOne(rs: seq<Trace>)
    ensures |rs| == 1 ==> SeqAll(rs) == rs[0]
  {
    if |rs| == 1 {
      assert rs[..0] == [];
      assert [] + rs[0].messages == rs[0].messages;
    }
  }

  /** A sequence of traces finishes iff every one of them does. */
  lemma {:induction false} SeqAllFinishes(rs: seq<Trace>)
    ensures SeqAll(rs).error.None? <==> forall i :: 0 <= i < |rs| ==> rs[i].error.None?
  {
    if rs != [] {
      var n := |rs| - 1;
      SeqAllFinishes(rs[..n]);
      assert forall i :: 0 <= i < n ==> rs[..n][i] == rs[i];
    }
  }

  /** A finished sequence of traces holds all their messages, in order. */
  lemma {:induction false} SeqAllMessages(rs: seq<Trace>, i: nat)
    requires SeqAll(rs).error.None? && i < |rs|
    ensures SeqAll(rs[..i]).messages + rs[i].messages <= SeqAll(rs).messages
  {
    var n := |rs| - 1;
    assert rs[..n][..i] == rs[..i] by { if i < n {} }
    if i < n {
      SeqAllMessages(rs[..n], i);
    } else {
      assert rs[..i] == rs[..n];
    }
  }

  lemma SeqAllStep(rs: seq<Trace>, i: nat)
    requires i < |rs|
    ensures SeqAll(rs[..i + 1]) == Seq(SeqAll(rs[..i]), rs[i])
  {
    assert rs[..i + 1][..i] == rs[..i];
  }

  /** Once a prefix of the traces ends early, the later traces change nothing. */
  lemma {:induction false} SeqAllSticky(rs: seq<Trace>, j: nat)
    requires j <= |rs| && SeqAll(rs[..j]).error.Some?
    ensures SeqAll(rs) == SeqAll(rs[..j])
  {
    if j < |rs| {
      var n := |rs| - 1;
      assert rs[..n][..j] == rs[..j];
      SeqAllSticky(rs[..n], j);
    } else {
      assert rs[..j] == rs;
    }
  }

  // ---------------------------------------------------------------------
  // Properties of the legacy rules
  // ---------------------------------------------------------------------

  /** The percentage run reports duplicates one per repeat and "missing" once iff some legacy category is undeclared. */
  lemma PercentageRunReports(t: Takziv)
    ensures var r := PercentageRun(t);
            var h := t.hafrashot;
            var pre := DuplicateMessages(h) + Expect(forall c :: c in LegacyCodes ==> c in Percentages(h), MissingPercentage);
            pre <= r.messages &&
            |DuplicateMessages(h)| == RepeatCount(h) &&
            (MissingPercentage in r.messages <==> exists c :: c in LegacyCodes && c !in Percentages(h))
    ensures multiset(PercentageRun(t).messages)[MissingPercentage] ==
            if exists c :: c in LegacyCodes && c !in Percentages(t.hafrashot) then 1 else 0
  {
    var h := t.hafrashot;
    var pcts := Percentages(h);
    var pre := DuplicateMessages(h) + Expect(forall c :: c in LegacyCodes ==> c in pcts, MissingPercentage);
    var entries := EntriesRun(pcts, t.ytd);
    var r := PercentageRun(t);
    assert r.messages == pre + entries.messages;
    assert MissingPercentage !in DuplicateMessages(h);
    assert MissingPercentage !in entries.messages;
    assert multiset(r.messages) == multiset(DuplicateMessages(h)) + multiset(Expect(forall c :: c in LegacyCodes ==> c in pcts, MissingPercentage)) + multiset(entries.messages);
  }

  /** The entries off their predicted amount. */
  function OffEntries(pcts: map<int, real>, ytd: seq<YtdEntry>): set<nat>
    requires forall i :: 0 <= i < |ytd| ==> ytd[i].sug in pcts
  {
    set i: nat | i < |ytd| && ytd[i].amount != Predicted(pcts[ytd[i].sug], ytd[i])
  }

  /** When every entry's category is declared, the entries reported are exactly those off their predicted amount. */
  lemma EntriesReported(pcts: map<int, real>, ytd: seq<YtdEntry>)
    requires forall i :: 0 <= i < |ytd| ==> ytd[i].sug in pcts
    ensures EntriesRun(pcts, ytd).error.None?
    ensures EntriesRun(pcts, ytd).messages == [] <==>
              forall i :: 0 <= i < |ytd| ==> ytd[i].amount == Predicted(pcts[ytd[i].sug], ytd[i])
    ensures |EntriesRun(pcts, ytd).messages| ==
              |set i | 0 <= i < |ytd| && ytd[i].amount != Predicted(pcts[ytd[i].sug], ytd[i])|
  {
    EntriesCounted(pcts, ytd);
    var off := OffEntries(pcts, ytd);
    assert off == set i | 0 <= i < |ytd| && ytd[i].amount != Predicted(pcts[ytd[i].sug], ytd[i]);
    if off == {} {
      forall i | 0 <= i < |ytd| ensures ytd[i].amount == Predicted(pcts[ytd[i].sug], ytd[i]) {
        assert i !in off;
      }
    } else {
      var i :| i in off;
      assert ytd[i].amount != Predicted(pcts[ytd[i].sug], ytd[i]);
    }
  }

  lemma {:induction false} EntriesCounted(pcts: map<int, real>, ytd: seq<YtdEntry>)
    requires forall i :: 0 <= i < |ytd| ==> ytd[i].sug in pcts
    ensures EntriesRun(pcts, ytd).error.None?
    ensures |EntriesRun(pcts, ytd).messages| == |OffEntries(pcts, ytd)|
  {
    if ytd == [] {
      assert OffEntries(pcts, ytd) == {};
    } else {
      var n := |ytd| - 1;
      var init := ytd[..n];
      assert forall i :: 0 <= i < n ==> init[i] == ytd[i];
      EntriesCounted(pcts, init);
      EntriesStep(pcts, ytd, n);
      assert ytd[..n + 1] == ytd;
      var off := OffEntries(pcts, ytd);
      var offInit := OffEntries(pcts, init);
      if ytd[n].amount != Predicted(pcts[ytd[n].sug], ytd[n]) {
        assert off == offInit + {n};
        assert n !in offInit;
      } else {
        assert off == offInit;
      }
    }
  }

  /** For a nonzero salary, an entry matches its declared percentage exactly when amount/salary·100 equals it. */
  lemma PredictedIsPercentage(pct: real, e: YtdEntry)
    requires e.salary != 0.0
    ensures e.amount == Predicted(pct, e) <==> e.amount / e.salary * 100.0 == pct
  {
    if e.amount == Predicted(pct, e) {
      assert e.amount / e.salary * 100.0 == pct * e.salary / 100.0 / e.salary * 100.0;
    }
    if e.amount / e.salary * 100.0 == pct {
      assert e.amount == (e.amount / e.salary * 100.0) * e.salary / 100.0;
    }
  }

  /** The legacy run finishes iff the run of every takziv of every policy does. */
  lemma PolisotRunFinishes(ps: seq<Polisa>)
    ensures PolisotRun(ps).error.None? <==>
              forall i, k :: 0 <= i < |ps| && 0 <= k < |ps[i].takzivim| ==> TakzivRun(ps[i].takzivim[k]).error.None?
  {
    SeqAllFinishes(PolisaRuns(ps));
    forall i | 0 <= i < |ps|
      ensures TakzivimRun(ps[i].takzivim).error.None? <==>
                forall k :: 0 <= k < |ps[i].takzivim| ==> TakzivRun(ps[i].takzivim[k]).error.None?
    {
      SeqAllFinishes(TakzivRuns(ps[i].takzivim));
    }
  }

  /** A takziv with no last deposit ends the run right after its year-to-date totals are reported. */
  lemma MissingLastHafkadaStops(t: Takziv)
    requires t.lastHafkadot == []
    ensures TakzivRun(t) == Trace(YtdTotalMessages(t), Some(NoLastHafkada))
  {
  }

  // ---------------------------------------------------------------------
  // Agreement with the validator catalogue
  // ---------------------------------------------------------------------

  /** On the same last deposit, the legacy rule and CheckLastHafkada report the same two problems. */
  lemma LastHafkadaAgrees(l: LastHafkada)
    ensures |LastMessages(l)| == |Rules.LastHafkadaMessages(l)|
    ensures SumMismatch in LastMessages(l) <==> Rules.LastSumMessage(l) in Rules.LastHafkadaMessages(l)
    ensures SalaryNotUniform in LastMessages(l) <==> Rules.LastSalaryMessage(l) in Rules.LastHafkadaMessages(l)
  {
    SalarySetSingleton(l.perut);
  }

  /** On the same takziv, the legacy totals rule and CheckHafkadotYtdTotal report the same categories. */
  lemma YtdTotalsAgree(t: Takziv)
    ensures |YtdTotalMessages(t)| == |Rules.HafkadotYtdTotalMessages(t)|
    ensures forall c :: c in LegacyCodes ==>
              (TotalMismatch(c) in YtdTotalMessages(t) <==> Rules.TotalMessage(t, c) in Rules.HafkadotYtdTotalMessages(t))
  {
    assert LegacyCodes == Rules.TotalledCodes;
    forall c | c in LegacyCodes ensures YearlyTotal(t.yearly, c) == Rules.ReportedTotal(t.yearly, c) {
    }
  }

  /** Both percentage rules report one duplicate per entry that repeats an earlier category. */
  lemma DuplicatesAgree(h: seq<HafrashaEntry>)
    ensures |DuplicateMessages(h)| == |Rules.DuplicateMessages(h)|
  {
  }

  // ---------------------------------------------------------------------
  // PensionChecker
  // ---------------------------------------------------------------------

  /** The effect a step had: `run`'s messages appended, and the outcome its error says. */
  lemma DuplicatesStep(h: seq<HafrashaEntry>, i: nat)
    requires i < |h|
    ensures Percentages(h[..i + 1]) == Percentages(h[..i])[h[i].sug := h[i].percentage]
    ensures DuplicateMessages(h[..i + 1]) ==
            DuplicateMessages(h[..i]) + Expect(h[i].sug !in Percentages(h[..i]), DuplicateCategory)
  {
    assert h[..i + 1][..i] == h[..i];
  }

  lemma EntriesStep(pcts: map<int, real>, ytd: seq<YtdEntry>, i: nat)
    requires i < |ytd| && EntriesRun(pcts, ytd[..i]).error.None? && ytd[i].sug in pcts
    ensures EntriesRun(pcts, ytd[..i + 1]) ==
            Done(EntriesRun(pcts, ytd[..i]).messages
                 + Expect(ytd[i].amount == Predicted(pcts[ytd[i].sug], ytd[i]), AmountNotPercentage))
  {
    assert ytd[..i + 1][..i] == ytd[..i];
  }

  predicate Ran(before: seq<LegacyMessage>, after: seq<LegacyMessage>, r: Outcome<LegacyFailure>, run: Trace)
  {
    after == before + run.messages &&
    match run.error
    case None => r == Pass
    case Some(e) => r == Fail(e)
  }

  class PensionChecker {
    const pensia: Document
    var messages: seq<LegacyMessage>

    constructor (pensia: Document)
      ensures this.pensia == pensia && messages == []
    {
      this.pensia := pensia;
      messages := [];
    }

    method Assert(check: bool, m: LegacyMessage)
      modifies this
      ensures messages == old(messages) + Expect(check, m)
    {
      if !check {
        messages := messages + [m];
      }
    }

    method CheckLastHafkada(t: Takziv) returns (r: Outcome<LegacyFailure>)
      modifies this
      ensures Ran(old(messages), messages, r, LastHafkadaRun(t))
    {
      if |t.lastHafkadot| == 0 {
        return Fail(NoLastHafkada);
      }
      var last := t.lastHafkadot[0];
      SalarySetSingleton(last.perut);
      Assert(SumAmounts(last.perut) == last.total, SumMismatch);
      Assert(|SalarySet(last.perut)| == 1, SalaryNotUniform);
      return Pass;
    }

    method CheckHafkadotYtd(t: Takziv)
      modifies this
      ensures messages == old(messages) + YtdTotalMessages(t)
    {
      var sums: map<int, real> := map[];
      for i := 0 to |t.ytd|
        invariant forall c :: Lookup(sums, c) == SumFor(t.ytd[..i], c)
      {
        assert t.ytd[..i + 1][..i] == t.ytd[..i];
        var e := t.ytd[i];
        sums := sums[e.sug := Lookup(sums, e.sug) + e.amount];
      }
      assert t.ytd[..|t.ytd|] == t.ytd;
      ghost var e1 := Expect(SumFor(t.ytd, 1) == t.yearly.pitzuim, TotalMismatch(1));
      ghost var e2 := Expect(SumFor(t.ytd, 2) == t.yearly.oved, TotalMismatch(2));
      ghost var e3 := Expect(SumFor(t.ytd, 3) == t.yearly.maavid, TotalMismatch(3));
      assert YtdTotalMessages(t) == e1 + e2 + e3;
      Assert(Lookup(sums, 1) == t.yearly.pitzuim, TotalMismatch(1));
      Assert(Lookup(sums, 2) == t.yearly.oved, TotalMismatch(2));
      Assert(Lookup(sums, 3) == t.yearly.maavid, TotalMismatch(3));
      AppendAssoc(old(messages), e1, e2);
      AppendAssoc(old(messages), e1 + e2, e3);
    }

    method CheckHafrashotPercentage(t: Takziv) returns (r: Outcome<LegacyFailure>)
      modifies this
      ensures Ran(old(messages), messages, r, PercentageRun(t))
    {
      var h := t.hafrashot;
      var pcts: map<int, real> := map[];
      for i := 0 to |h|
        invariant pcts == Percentages(h[..i])
        invariant messages == old(messages) + DuplicateMessages(h[..i])
      {
        DuplicatesStep(h, i);
        var sug := h[i].sug;
        Assert(sug !in pcts, DuplicateCategory);
        AppendAssoc(old(messages), DuplicateMessages(h[..i]), Expect(sug !in pcts, DuplicateCategory));
        pcts := pcts[sug := h[i].percentage];
      }
      assert h[..|h|] == h;
      Assert(forall c :: c in LegacyCodes ==> c in pcts, MissingPercentage);
      ghost var pre := DuplicateMessages(h) + Expect(forall c :: c in LegacyCodes ==> c in pcts, MissingPercentage);
      AppendAssoc(old(messages), DuplicateMessages(h), Expect(forall c :: c in LegacyCodes ==> c in pcts, MissingPercentage));
      ghost var start := messages;
      assert start == old(messages) + pre;
      r := CheckEntries(pcts, t.ytd);
      AppendAssoc(old(messages), pre, EntriesRun(pcts, t.ytd).messages);
    }

    /** The entry loop of check_hafrashot_percentage: each entry's amount against its declared percentage. */
    method CheckEntries(pcts: map<int, real>, ytd: seq<YtdEntry>) returns (r: Outcome<LegacyFailure>)
      modifies this
      ensures Ran(old(messages), messages, r, EntriesRun(pcts, ytd))
    {
      for i := 0 to |ytd|
        invariant EntriesRun(pcts, ytd[..i]).error.None?
        invariant messages == old(messages) + EntriesRun(pcts, ytd[..i]).messages
      {
        var e := ytd[i];
        if e.sug !in pcts {
          EntriesRunStopsAt(pcts, ytd, i);
          return Fail(UndeclaredCategory(e.sug));
        }
        Assert(e.amount == pcts[e.sug] * e.salary / 100.0, AmountNotPercentage);
        EntriesStep(pcts, ytd, i);
        AppendAssoc(old(messages), EntriesRun(pcts, ytd[..i]).messages,
                    Expect(e.amount == Predicted(pcts[e.sug], e), AmountNotPercentage));
      }
      assert ytd[..|ytd|] == ytd;
      return Pass;
    }

    /** Every takziv of every policy, in document order; messages are appended to those of earlier calls. */
    method Check() returns (r: Result<seq<LegacyMessage>, LegacyFailure>)
      modifies this
      ensures messages == old(messages) + PolisotRun(pensia.polisot).messages
      ensures PolisotRun(pensia.polisot).error.None? ==> r == Success(messages)
      ensures PolisotRun(pensia.polisot).error.Some? ==> r == Failure(PolisotRun(pensia.polisot).error.value)
    {
      var polisot := pensia.polisot;
      for p := 0 to |polisot|
        invariant PolisotRun(polisot[..p]).error.None?
        invariant messages == old(messages) + PolisotRun(polisot[..p]).messages
      {
        PolisotStep(polisot, p);
        ghost var before := messages;
        var takzivim := polisot[p].takzivim;
        for k := 0 to |takzivim|
          invariant TakzivimRun(takzivim[..k]).error.None?
          invariant messages == before + TakzivimRun(takzivim[..k]).messages
        {
          TakzivimStep(takzivim, k);
          var takziv := takzivim[k];
          ghost var start := messages;
          CheckHafkadotYtd(takziv);
          ghost var run := Done(YtdTotalMessages(takziv));
          var last := CheckLastHafkada(takziv);
          AppendAssoc(start, run.messages, LastHafkadaRun(takziv).messages);
          run := Seq(run, LastHafkadaRun(takziv));
          if last.Fail? {
            StopsAtTakziv(polisot, p, k);
            AppendAssoc(old(messages) + PolisotRun(polisot[..p]).messages, TakzivimRun(takzivim[..k]).messages, run.messages);
            AppendAssoc(old(messages), PolisotRun(polisot[..p]).messages, TakzivimRun(takzivim[..k]).messages + run.messages);
            return Failure(last.error);
          }
          var pct := CheckHafrashotPercentage(takziv);
          AppendAssoc(start, run.messages, PercentageRun(takziv).messages);
          run := Seq(run, PercentageRun(takziv));
          assert run == TakzivRun(takziv);
          if pct.Fail? {
            StopsAtTakziv(polisot, p, k);
            AppendAssoc(old(messages) + PolisotRun(polisot[..p]).messages, TakzivimRun(takzivim[..k]).messages, run.messages);
            AppendAssoc(old(messages), PolisotRun(polisot[..p]).messages, TakzivimRun(takzivim[..k]).messages + run.messages);
            return Failure(pct.error);
          }
          AppendAssoc(before, TakzivimRun(takzivim[..k]).messages, run.messages);
        }
        assert takzivim[..|takzivim|] == takzivim;
        AppendAssoc(old(messages), PolisotRun(polisot[..p]).messages, TakzivimRun(takzivim).messages);
      }
      assert polisot[..|polisot|] == polisot;
      return Success(messages);
    }
  }

  /** An entry of an undeclared category, after declared ones, ends the entry run with that category's error. */
  lemma {:induction false} EntriesRunStopsAt(pcts: map<int, real>, ytd: seq<YtdEntry>, i: nat)
    requires i < |ytd| && EntriesRun(pcts, ytd[..i]).error.None? && ytd[i].sug !in pcts
    ensures EntriesRun(pcts, ytd) == Trace(EntriesRun(pcts, ytd[..i]).messages, Some(UndeclaredCategory(ytd[i].sug)))
  {
    var n := |ytd| - 1;
    if i == n {
      assert ytd[..n] == ytd[..i];
    } else {
      assert ytd[..n][..i] == ytd[..i];
      EntriesRunStopsAt(pcts, ytd[..n], i);
    }
  }

  lemma TakzivRunsPrefix(ts: seq<Takziv>, n: nat)
    requires n <= |ts|
    ensures TakzivRuns(ts[..n]) == TakzivRuns(ts)[..n]
  {
    assert forall i :: 0 <= i < n ==> ts[..n][i] == ts[i];
  }

  lemma PolisaRunsPrefix(ps: seq<Polisa>, n: nat)
    requires n <= |ps|
    ensures PolisaRuns(ps[..n]) == PolisaRuns(ps)[..n]
  {
    assert forall i :: 0 <= i < n ==> ps[..n][i] == ps[i];
  }

  lemma TakzivimStep(ts: seq<Takziv>, k: nat)
    requires k < |ts|
    ensures TakzivimRun(ts[..k + 1]) == Seq(TakzivimRun(ts[..k]), TakzivRun(ts[k]))
  {
    var rs := TakzivRuns(ts);
    TakzivRunsPrefix(ts, k + 1);
    TakzivRunsPrefix(ts, k);
    SeqAllStep(rs, k);
  }

  lemma PolisotStep(ps: seq<Polisa>, p: nat)
    requires p < |ps|
    ensures PolisotRun(ps[..p + 1]) == Seq(PolisotRun(ps[..p]), TakzivimRun(ps[p].takzivim))
  {
    var qs := PolisaRuns(ps);
    PolisaRunsPrefix(ps, p + 1);
    PolisaRunsPrefix(ps, p);
    SeqAllStep(qs, p);
  }

  /** If takziv k of policy p ends early, so does the whole run: with that error, after the messages of everything before it and its own. */
  lemma StopsAtTakziv(ps: seq<Polisa>, p: nat, k: nat)
    requires p < |ps| && k < |ps[p].takzivim|
    requires PolisotRun(ps[..p]).error.None? && TakzivimRun(ps[p].takzivim[..k]).error.None?
    requires TakzivRun(ps[p].takzivim[k]).error.Some?
    ensures PolisotRun(ps) ==
            Trace(PolisotRun(ps[..p]).messages + (TakzivimRun(ps[p].takzivim[..k]).messages + TakzivRun(ps[p].takzivim[k]).messages),
                  TakzivRun(ps[p].takzivim[k]).error)
  {
    var ts := ps[p].takzivim;
    TakzivimStops(ts, k);
    var qs := PolisaRuns(ps);
    PolisaRunsPrefix(ps, p);
    SeqAllStopsAt(qs, p);
  }

  lemma TakzivimStops(ts: seq<Takziv>, k: nat)
    requires k < |ts| && TakzivimRun(ts[..k]).error.None? && TakzivRun(ts[k]).error.Some?
    ensures TakzivimRun(ts) == Trace(TakzivimRun(ts[..k]).messages + TakzivRun(ts[k]).messages, TakzivRun(ts[k]).error)
  {
    var rs := TakzivRuns(ts);
    TakzivRunsPrefix(ts, k);
    SeqAllStopsAt(rs, k);
  }

  /** A sequence of traces whose traces before `k` finish and whose trace `k` ends early ends there. */
  lemma SeqAllStopsAt(rs: seq<Trace>, k: nat)
    requires k < |rs| && SeqAll(rs[..k]).error.None? && rs[k].error.Some?
    ensures SeqAll(rs) == Trace(SeqAll(rs[..k]).messages + rs[k].messages, rs[k].error)
  {
    SeqAllStep(rs, k);
    SeqAllSticky(rs, k + 1);
  }
}
