/**
 * The validator framework: a Checker collects the problems one record's rule
 * reports, drains them into located findings record by record, and the
 * catalogue runs every registered validator over a document. Each method is
 * proved to compute the reference definition of module Rules.
 */
module Checkers {
  import opened Wrappers
  import opened Schema
  import opened Decoded
  import opened Rules

  /** A per-record step either reported `ms` after `before` (and nothing else), or raised and reported nothing. */
  predicate Follows(before: seq<Message>, after: seq<Message>, r: Outcome<Failure>, spec: Result<seq<Message>, Failure>)
  {
    match spec
    case Success(ms) => r == Pass && after == before + ms
    case Failure(e) => r == Fail(e) && after == before
  }

  /** One validator instance: the document, its rule, the problems of the current record and the header context. */
  class Checker {
    const document: Document
    const rule: Rule
    var problems: seq<Message>
    var headers: Option<HeaderInfo>

    constructor (document: Document, rule: Rule)
      ensures this.document == document && this.rule == rule
      ensures problems == [] && headers == None
    {
      this.document := document;
      this.rule := rule;
      problems := [];
      headers := None;
    }

    // -------------------------------------------------------------------
    // Reporting and the assertion primitives
    // -------------------------------------------------------------------

    method Report(m: Message)
      modifies this`problems
      ensures problems == old(problems) + [m]
    {
      problems := problems + [m];
    }

    method Assert_(check: bool, t: Text)
      modifies this`problems
      ensures problems == old(problems) + Expect(check, t)
    {
      if !check {
        Report(Message(t, Plain));
      }
    }

    method AssertEq(left: Operand, right: Operand, t: Text)
      modifies this`problems
      ensures problems == old(problems) + ExpectEq(left, right, t)
    {
      if left != right {
        Report(Message(t, NotEqual(left, right)));
      }
    }

    method AssertRange(min: Operand, value: Operand, max: Operand, t: Text)
      requires SameKind(min, value) && SameKind(value, max)
      modifies this`problems
      ensures problems == old(problems) + ExpectRange(min, value, max, t)
    {
      if Less(value, min) {
        Report(Message(t, Below(value, min)));
      } else if Less(max, value) {
        Report(Message(t, Above(value, max)));
      }
    }

    method AssertGte(left: Operand, right: Operand, t: Text)
      requires SameKind(left, right)
      modifies this`problems
      ensures problems == old(problems) + ExpectGte(left, right, t)
    {
      if Less(left, right) {
        Report(Message(t, LessThan(left, right)));
      }
    }

    method AssertGt(left: Operand, right: Operand, t: Text)
      requires SameKind(left, right)
      modifies this`problems
      ensures problems == old(problems) + ExpectGt(left, right, t)
    {
      if !Less(right, left) {
        Report(Message(t, AtMost(left, right)));
      }
    }

    method AssertLte(left: Operand, right: Operand, t: Text)
      requires SameKind(left, right)
      modifies this`problems
      ensures problems == old(problems) + ExpectLte(left, right, t)
    {
      if Less(right, left) {
        Report(Message(t, GreaterThan(left, right)));
      }
    }

    method AssertLt(left: Operand, right: Operand, t: Text)
      requires SameKind(left, right)
      modifies this`problems
      ensures problems == old(problems) + ExpectLt(left, right, t)
    {
      if !Less(left, right) {
        Report(Message(t, AtLeast(left, right)));
      }
    }

    // -------------------------------------------------------------------
    // The rules, one record at a time
    // -------------------------------------------------------------------

    method CheckOneLastHafkada(l: LastHafkada)
      modifies this`problems
      ensures problems == old(problems) + LastHafkadaMessages(l)
    {
      AssertEq(Dec(SumAmounts(l.perut)), Dec(l.total), LastSumMismatch);
      var salaries := SalarySet(l.perut);
      Assert_(|salaries| == 1, LastSalaryNotUniform(salaries));
    }

    method CheckOneHafkadotYtd(t: Takziv)
      modifies this`problems
      ensures problems == old(problems) + HafkadotYtdMessages(t.ytd)
    {
      var months := AscendingMonths(t.ytd);
      for i := 0 to |months|
        invariant problems == old(problems) + MonthMessages(t.ytd, months[..i])
      {
        MonthMessagesStep(t.ytd, months, i);
        var salaries := MonthSalaries(t.ytd, months[i]);
        Assert_(|salaries| == 1, MonthSalaryNotUniform(months[i], salaries));
        AppendAssoc(old(problems), MonthMessages(t.ytd, months[..i]), Expect(|salaries| == 1, MonthSalaryNotUniform(months[i], salaries)));
      }
      assert months[..|months|] == months;
    }

    method CheckOneHafkadotYtdTotal(t: Takziv)
      modifies this`problems
      ensures problems == old(problems) + HafkadotYtdTotalMessages(t)
    {
      var sums: map<int, real> := map[];
      for i := 0 to |t.ytd|
        invariant forall c :: Lookup(sums, c) == SumFor(t.ytd[..i], c)
      {
        assert t.ytd[..i + 1][..i] == t.ytd[..i];
        var e := t.ytd[i];
        sums := sums[e.sug := Lookup(sums, e.sug) + e.amount];
      }
      assert t.ytd[..|t.ytd|] == t.ytd;
      ghost var e1 := ExpectEq(Dec(SumFor(t.ytd, 1)), Dec(t.yearly.pitzuim), YtdTotalMismatch(1));
      ghost var e2 := ExpectEq(Dec(SumFor(t.ytd, 2)), Dec(t.yearly.oved), YtdTotalMismatch(2));
      ghost var e3 := ExpectEq(Dec(SumFor(t.ytd, 3)), Dec(t.yearly.maavid), YtdTotalMismatch(3));
      assert HafkadotYtdTotalMessages(t) == e1 + e2 + e3;
      AssertEq(Dec(Lookup(sums, Pitzuim.Code())), Dec(t.yearly.pitzuim), YtdTotalMismatch(1));
      AssertEq(Dec(Lookup(sums, TagmulimOved.Code())), Dec(t.yearly.oved), YtdTotalMismatch(2));
      AssertEq(Dec(Lookup(sums, TagmulimMaavid.Code())), Dec(t.yearly.maavid), YtdTotalMismatch(3));
      AppendAssoc(old(problems), e1, e2);
      AppendAssoc(old(problems), e1 + e2, e3);
    }

    method CheckOneHafrashotSize(h: seq<HafrashaEntry>)
      modifies this`problems
      ensures problems == old(problems) + HafrashotSizeMessages(h)
    {
      var pcts: map<int, real> := map[];
      for i := 0 to |h|
        invariant pcts == Percentages(h[..i])
        invariant problems == old(problems) + DuplicateMessages(h[..i])
      {
        HafrashotStep(h, i);
        var sug := h[i].sug;
        Assert_(sug !in pcts, DuplicateSug(sug));
        AppendAssoc(old(problems), DuplicateMessages(h[..i]), Expect(sug !in pcts, DuplicateSug(sug)));
        pcts := pcts[sug := h[i].percentage];
      }
      assert h[..|h|] == h;
      CheckBands(pcts);
      AppendAssoc(old(problems), DuplicateMessages(h), BandMessages(pcts, BandedCodes));
    }

    /** The band loop of CheckHafrashotSize: each banded category missing or out of its band. */
    method CheckBands(pcts: map<int, real>)
      modifies this`problems
      ensures problems == old(problems) + BandMessages(pcts, BandedCodes)
    {
      BandTable();
      for k := 0 to |BandedCodes|
        invariant problems == old(problems) + BandMessages(pcts, BandedCodes[..k])
      {
        BandMessagesStep(pcts, k);
        var c := BandedCodes[k];
        var band := HafrashaRangesPension[c];
        ghost var step: seq<Message>;
        if c !in pcts {
          Report(Message(MissingSug(c), Plain));
          step := [Message(MissingSug(c), Plain)];
        } else {
          AssertRange(Dec(band.min), Dec(pcts[c]), Dec(band.max), SugOutOfRange(c));
          step := ExpectRange(Dec(band.min), Dec(pcts[c]), Dec(band.max), SugOutOfRange(c));
        }
        assert step == CodeBand(pcts, c);
        AppendAssoc(old(problems), BandMessages(pcts, BandedCodes[..k]), step);
      }
      assert BandedCodes[..|BandedCodes|] == BandedCodes;
    }

    method CheckOneHafrashotSizeInHafkadotYtd(e: YtdEntry) returns (r: Outcome<Failure>)
      modifies this`problems
      ensures Follows(old(problems), problems, r, EntryBandOutcome(e))
    {
      if e.sug !in HafrashaRangesPension {
        return Pass;
      }
      var band := HafrashaRangesPension[e.sug];
      var salary := e.salary;
      var schum := e.amount;
      if salary == 0.0 {
        return Fail(DivisionByZero(e));
      }
      var percentage := schum / salary * 100.0;
      AssertRange(Dec(band.min), Dec(percentage), Dec(band.max), EntryPercentageOutOfRange(e.sug));
      return Pass;
    }

    method CheckOneTotalHafkadaParts(t: Takziv) returns (r: Outcome<Failure>)
      modifies this`problems
      ensures Follows(old(problems), problems, r, NetGrossOutcome(t))
    {
      if |t.lastHafkadot| == 0 {
        return Fail(NoLastHafkada);
      }
      var last := t.lastHafkadot[0];
      var bruto := last.total;
      var neto := last.totalNet;
      var premium := FixNil(t.expenses.insurancePremium, Number(0.0));
      var fee := FixNil(t.expenses.managementFee, Number(0.0));
      if !premium.Number? {
        return Fail(NotANumber(premium));
      }
      if !fee.Number? {
        return Fail(NotANumber(fee));
      }
      Assert_(neto == bruto - premium.amount - fee.amount, NetMismatch(neto, bruto, premium.amount, fee.amount));
      return Pass;
    }

    method CheckOneNechonutDate(p: Polisa) returns (r: Outcome<Failure>)
      requires headers.Some?
      modifies this`problems
      ensures Follows(old(problems), problems, r, NechonutOutcome(p, headers.value.bitzua))
    {
      var nechonut := ParseDate(p.nechonutDate);
      if nechonut.None? {
        return Fail(BadDate(p.nechonutDate));
      }
      var bitzua := headers.value.bitzua.date;
      AssertLte(Day(nechonut.value), Day(bitzua), NechonutAfterBitzua);
      return Pass;
    }

    method CheckOneJoinDate(p: Polisa) returns (r: Outcome<Failure>)
      modifies this`problems
      ensures Follows(old(problems), problems, r, JoinDateOutcome(p, document.customer))
    {
      var customer := document.customer;
      var birthday := ParseDate(customer.birthDate);
      if birthday.None? {
        return Fail(BadDate(customer.birthDate));
      }
      var joinDay := ParseDate(p.joinDate);
      if joinDay.None? {
        return Fail(BadDate(p.joinDate));
      }
      AssertGt(Day(joinDay.value), Day(birthday.value), JoinBeforeBirth);
      return Pass;
    }

    /** The rule of this validator applied to one record. */
    method CheckOne(rec: Record) returns (r: Outcome<Failure>)
      requires headers.Some?
      modifies this`problems
      ensures Follows(old(problems), problems, r, RuleOutcome(rule, document, headers.value, rec))
    {
      match (rule, rec)
      case (CheckLastHafkada, LastHafkadaRecord(l)) =>
        CheckOneLastHafkada(l);
        r := Pass;
      case (CheckHafkadotYtd, TakzivRecord(t)) =>
        CheckOneHafkadotYtd(t);
        r := Pass;
      case (CheckHafkadotYtdTotal, TakzivRecord(t)) =>
        CheckOneHafkadotYtdTotal(t);
        r := Pass;
      case (CheckHafrashotSize, TakzivRecord(t)) =>
        CheckOneHafrashotSize(t.hafrashot);
        r := Pass;
      case (CheckHafrashotSizeInHafkadotYtd, YtdRecord(e)) =>
        r := CheckOneHafrashotSizeInHafkadotYtd(e);
      case (CheckTotalHafkadaParts, TakzivRecord(t)) =>
        r := CheckOneTotalHafkadaParts(t);
      case (CheckNechonutDate, PolisaRecord(p)) =>
        r := CheckOneNechonutDate(p);
      case (CheckJoinDate, PolisaRecord(p)) =>
        r := CheckOneJoinDate(p);
      case _ =>
        r := Fail(WrongRecord);
    }

    // -------------------------------------------------------------------
    // The traversal
    // -------------------------------------------------------------------

    /** Reads the header, then runs the rule over every record at the anchor, draining the problems after each. */
    method Check() returns (r: Result<seq<Finding>, Failure>)
      requires problems == []
      modifies this
      ensures r == CheckSpec(document, rule)
      ensures r.Success? ==> problems == []
      ensures ReadHeader(document.header).Success? ==> headers == Some(ReadHeader(document.header).value)
      ensures ReadHeader(document.header).Failure? ==> headers == old(headers)
    {
      var header := document.header;
      var bitzua := ParseDateTime(header.bitzua);
      if bitzua.None? {
        return Failure(BadDate(header.bitzua));
      }
      var h := HeaderInfo(header.sugMimshak, bitzua.value);
      headers := Some(h);
      assert ReadHeader(header) == Success(h);
      var path := RootPath(rule);
      var recs := Records(document, RootAnchor(rule));
      var results: seq<Finding> := [];
      ghost var per: seq<seq<Message>> := [];
      for idx := 0 to |recs|
        invariant headers == Some(h) && problems == []
        invariant RunRecords(rule, document, h, recs[..idx]) == Success(per)
        invariant results == Flatten(path, per)
      {
        var out := CheckOne(recs[idx]);
        if out.Fail? {
          RunRecordsStopsAt(rule, document, h, recs, idx);
          return Failure(out.error);
        }
        ghost var spec := RuleOutcome(rule, document, h, recs[idx]);
        assert spec.Success? && problems == [] + spec.value;
        assert [] + spec.value == spec.value;
        RunRecordsStep(rule, document, h, recs, idx, per, problems);
        FlattenStep(path, per, problems);
        per := per + [problems];
        results := results + Located(path, idx, problems);
        problems := [];
      }
      assert recs[..|recs|] == recs;
      return Success(results);
    }

    /** all_checks: every registered validator in registration order, each on a fresh instance. */
    static method AllChecks(doc: Document) returns (r: Result<seq<Finding>, Failure>)
      ensures r == AllChecksSpec(doc, Registry)
    {
      ghost var outs := CheckOutcomes(doc, Registry);
      var results: seq<Finding> := [];
      for i := 0 to |Registry|
        invariant JoinAll(outs[..i]) == Success(results)
      {
        var checker := new Checker(doc, Registry[i]);
        var out := checker.Check();
        assert out == outs[i];
        if out.Failure? {
          JoinAllStopsAt(outs, i);
          return Failure(out.error);
        }
        JoinAllStep(outs, i, results);
        results := results + out.value;
      }
      assert outs[..|outs|] == outs;
      return Success(results);
    }
  }

  lemma MonthMessagesStep(ytd: seq<YtdEntry>, months: seq<int>, i: nat)
    requires i < |months|
    ensures MonthMessages(ytd, months[..i + 1]) ==
            MonthMessages(ytd, months[..i]) + Expect(|MonthSalaries(ytd, months[i])| == 1,
                                                     MonthSalaryNotUniform(months[i], MonthSalaries(ytd, months[i])))
  {
    assert months[..i + 1][..i] == months[..i];
  }

  lemma HafrashotStep(h: seq<HafrashaEntry>, i: nat)
    requires i < |h|
    ensures Percentages(h[..i + 1]) == Percentages(h[..i])[h[i].sug := h[i].percentage]
    ensures DuplicateMessages(h[..i + 1]) ==
            DuplicateMessages(h[..i]) + Expect(h[i].sug !in Percentages(h[..i]), DuplicateSug(h[i].sug))
  {
    assert h[..i + 1][..i] == h[..i];
  }

  lemma BandMessagesStep(pcts: map<int, real>, k: nat)
    requires k < |BandedCodes|
    ensures forall c :: c in BandedCodes ==> c in HafrashaRangesPension
    ensures BandMessages(pcts, BandedCodes[..k + 1]) ==
            BandMessages(pcts, BandedCodes[..k]) + CodeBand(pcts, BandedCodes[k])
  {
    BandTable();
    assert BandedCodes[..k + 1][..k] == BandedCodes[..k];
  }

  lemma RunRecordsStep(rule: Rule, doc: Document, h: HeaderInfo, recs: seq<Record>, i: nat,
                       per: seq<seq<Message>>, ms: seq<Message>)
    requires i < |recs| && RunRecords(rule, doc, h, recs[..i]) == Success(per)
    requires RuleOutcome(rule, doc, h, recs[i]) == Success(ms)
    ensures RunRecords(rule, doc, h, recs[..i + 1]) == Success(per + [ms])
  {
    var os := Outcomes(rule, doc, h, recs);
    OutcomesPrefix(rule, doc, h, recs, i);
    OutcomesPrefix(rule, doc, h, recs, i + 1);
    CollectStep(os, i, per);
  }

  lemma OutcomesPrefix(rule: Rule, doc: Document, h: HeaderInfo, recs: seq<Record>, n: nat)
    requires n <= |recs|
    ensures Outcomes(rule, doc, h, recs[..n]) == Outcomes(rule, doc, h, recs)[..n]
  {
    assert forall k :: 0 <= k < n ==> recs[..n][k] == recs[k];
  }

  lemma FlattenStep(path: string, per: seq<seq<Message>>, ms: seq<Message>)
    ensures Flatten(path, per + [ms]) == Flatten(path, per) + Located(path, |per|, ms)
  {
    assert (per + [ms])[..|per|] == per;
  }

  /** A run whose records before `i` pass and whose record `i` fails ends with record i's error. */
  lemma RunRecordsStopsAt(rule: Rule, doc: Document, h: HeaderInfo, recs: seq<Record>, i: nat)
    requires i < |recs| && RunRecords(rule, doc, h, recs[..i]).Success?
    requires RuleOutcome(rule, doc, h, recs[i]).Failure?
    ensures RunRecords(rule, doc, h, recs) == Failure(RuleOutcome(rule, doc, h, recs[i]).error)
  {
    OutcomesPrefix(rule, doc, h, recs, i);
    CollectStopsAt(Outcomes(rule, doc, h, recs), i);
  }

  lemma JoinAllStep<T, E>(rs: seq<Result<seq<T>, E>>, i: nat, acc: seq<T>)
    requires i < |rs| && JoinAll(rs[..i]) == Success(acc) && rs[i].Success?
    ensures JoinAll(rs[..i + 1]) == Success(acc + rs[i].value)
  {
    assert rs[..i + 1][..i] == rs[..i];
  }

  /** Joining computations whose ones before `i` succeed and whose `i`-th fails yields that failure. */
  lemma {:induction false} JoinAllStopsAt<T, E>(rs: seq<Result<seq<T>, E>>, i: nat)
    requires i < |rs| && JoinAll(rs[..i]).Success? && rs[i].Failure?
    ensures JoinAll(rs) == Failure(rs[i].error)
  {
    var n := |rs| - 1;
    if i == n {
      assert rs[..n] == rs[..i];
    } else {
      assert rs[..n][..i] == rs[..i];
      JoinAllStopsAt(rs[..n], i);
    }
  }
}
