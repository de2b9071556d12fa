/**
 * Reference definitions of the rule catalogue: what each validator's
 * per-record rule reports, what the traversal of one validator yields, and
 * what the whole catalogue yields for a document. The imperative validators
 * in module Checkers are proved to compute exactly these.
 */
module Rules {
  import opened Wrappers
  import opened Schema
  import opened Decoded

  // ---------------------------------------------------------------------
  // Problems
  // ---------------------------------------------------------------------

  /** A compared value: an exact decimal amount or percentage, or a calendar date. */
  datatype Operand = Dec(amount: real) | Day(date: Date)

  predicate SameKind(a: Operand, b: Operand) { a.Dec? == b.Dec? }

  /** The order the comparisons use: numeric for amounts, chronological for dates. */
  predicate Less(a: Operand, b: Operand)
    requires SameKind(a, b)
  {
    match a
    case Dec(x) => x < b.amount
    case Day(d) => DateBefore(d, b.date)
  }

  /** Which rule a problem violates, with the values the message text quotes. */
  datatype Text =
    | LastSumMismatch
    | LastSalaryNotUniform(salaries: set<real>)
    | MonthSalaryNotUniform(month: int, monthSalaries: set<real>)
    | YtdTotalMismatch(totalCode: int)
    | DuplicateSug(duplicate: int)
    | MissingSug(missing: int)
    | SugOutOfRange(banded: int)
    | EntryPercentageOutOfRange(entrySug: int)
    | NetMismatch(neto: real, bruto: real, premium: real, fee: real)
    | NechonutAfterBitzua
    | JoinBeforeBirth

  /** The comparison an assertion primitive appends to its message. */
  datatype Detail =
    | Plain
    | NotEqual(left: Operand, right: Operand)
    | Below(value: Operand, min: Operand)
    | Above(value: Operand, max: Operand)
    | LessThan(left: Operand, right: Operand)
    | AtMost(left: Operand, right: Operand)
    | GreaterThan(left: Operand, right: Operand)
    | AtLeast(left: Operand, right: Operand)

  datatype Message = Message(text: Text, detail: Detail)

  /** A located problem: anchor path, zero-based record index, message. */
  datatype Finding = Finding(path: string, index: nat, message: Message)

  /** What aborts the validation of a whole document. */
  datatype Failure =
    | BadDate(text: string)            // the date or date-time does not parse
    | DivisionByZero(entry: YtdEntry)  // a zero salary in the percentage division
    | NotANumber(value: Value)         // a deduction that is neither a number nor nil-marked
    | NoLastHafkada                    // PerutPirteiHafkadaAchrona has no element 0
    | WrongRecord                      // a rule given a record of another repeated group

  // ---------------------------------------------------------------------
  // The assertion primitives, as values
  // ---------------------------------------------------------------------

  /** assert_: one message iff the check fails. */
  function Expect(check: bool, t: Text): (ms: seq<Message>)
    ensures |ms| <= 1 && (ms == [] <==> check)
    ensures !check ==> ms[0] == Message(t, Plain)
  {
    if check then [] else [Message(t, Plain)]
  }

  /** assert_eq: one message quoting both sides iff they differ. */
  function ExpectEq(left: Operand, right: Operand, t: Text): (ms: seq<Message>)
    ensures |ms| <= 1 && (ms == [] <==> left == right)
    ensures left != right ==> ms[0] == Message(t, NotEqual(left, right))
  {
    if left != right then [Message(t, NotEqual(left, right))] else []
  }

  /** assert_range: at most one message, iff the value lies outside [min, max]. */
  function ExpectRange(min: Operand, value: Operand, max: Operand, t: Text): (ms: seq<Message>)
    requires SameKind(min, value) && SameKind(value, max)
    ensures |ms| <= 1 && (ms == [] <==> !Less(value, min) && !Less(max, value))
    ensures Less(value, min) ==> ms[0] == Message(t, Below(value, min))
    ensures !Less(value, min) && Less(max, value) ==> ms[0] == Message(t, Above(value, max))
  {
    if Less(value, min) then [Message(t, Below(value, min))]
    else if Less(max, value) then [Message(t, Above(value, max))]
    else []
  }

  /** assert_gte: one message iff left < right. */
  function ExpectGte(left: Operand, right: Operand, t: Text): (ms: seq<Message>)
    requires SameKind(left, right)
    ensures |ms| <= 1 && (ms == [] <==> !Less(left, right))
    ensures Less(left, right) ==> ms[0] == Message(t, LessThan(left, right))
  {
    if Less(left, right) then [Message(t, LessThan(left, right))] else []
  }

  /** assert_gt: one message iff left <= right. */
  function ExpectGt(left: Operand, right: Operand, t: Text): (ms: seq<Message>)
    requires SameKind(left, right)
    ensures |ms| <= 1 && (ms == [] <==> Less(right, left))
    ensures !Less(right, left) ==> ms[0] == Message(t, AtMost(left, right))
  {
    if !Less(right, left) then [Message(t, AtMost(left, right))] else []
  }

  /** assert_lte: one message iff left > right. */
  function ExpectLte(left: Operand, right: Operand, t: Text): (ms: seq<Message>)
    requires SameKind(left, right)
    ensures |ms| <= 1 && (ms == [] <==> !Less(right, left))
    ensures Less(right, left) ==> ms[0] == Message(t, GreaterThan(left, right))
  {
    if Less(right, left) then [Message(t, GreaterThan(left, right))] else []
  }

  /** assert_lt: one message iff left >= right. */
  function ExpectLt(left: Operand, right: Operand, t: Text): (ms: seq<Message>)
    requires SameKind(left, right)
    ensures |ms| <= 1 && (ms == [] <==> Less(left, right))
    ensures !Less(left, right) ==> ms[0] == Message(t, AtLeast(left, right))
  {
    if !Less(left, right) then [Message(t, AtLeast(left, right))] else []
  }

  // ---------------------------------------------------------------------
  // CheckLastHafkada
  // ---------------------------------------------------------------------

  function LastSumMessage(l: LastHafkada): Message
  {
    Message(LastSumMismatch, NotEqual(Dec(SumAmounts(l.perut)), Dec(l.total)))
  }

  function LastSalaryMessage(l: LastHafkada): Message
  {
    Message(LastSalaryNotUniform(SalarySet(l.perut)), Plain)
  }

  /** The itemisation must add up to TOTAL-HAFKADA and carry one salary. */
  function LastHafkadaMessages(l: LastHafkada): (ms: seq<Message>)
    ensures |ms| <= 2
    ensures LastSumMessage(l) in ms <==> SumAmounts(l.perut) != l.total
    ensures LastSalaryMessage(l) in ms <==> !UniformSalary(l.perut)
    ensures l.perut == [] ==> LastSalaryMessage(l) in ms
    ensures ms == [] <==> SumAmounts(l.perut) == l.total && UniformSalary(l.perut)
    ensures ms == When(SumAmounts(l.perut) != l.total, LastSumMessage(l))
                  + When(!UniformSalary(l.perut), LastSalaryMessage(l))
  {
    SalarySetSingleton(l.perut);
    ExpectEq(Dec(SumAmounts(l.perut)), Dec(l.total), LastSumMismatch)
      + Expect(|SalarySet(l.perut)| == 1, LastSalaryNotUniform(SalarySet(l.perut)))
  }

  // ---------------------------------------------------------------------
  // CheckHafkadotYtd
  // ---------------------------------------------------------------------

  function MonthMessage(ytd: seq<YtdEntry>, m: int): Message
  {
    Message(MonthSalaryNotUniform(m, MonthSalaries(ytd, m)), Plain)
  }

  /** The uniform-salary check run for each month of `months`, in that order. */
  function MonthMessages(ytd: seq<YtdEntry>, months: seq<int>): (ms: seq<Message>)
    ensures |ms| <= |months|
  {
    if months == [] then []
    else
      var m := months[|months| - 1];
      MonthMessages(ytd, months[..|months| - 1])
        + Expect(|MonthSalaries(ytd, m)| == 1, MonthSalaryNotUniform(m, MonthSalaries(ytd, m)))
  }

  /** Every message names a visited month whose salaries are not uniform. */
  lemma {:induction false} MonthMessagesSound(ytd: seq<YtdEntry>, months: seq<int>)
    ensures forall k :: 0 <= k < |MonthMessages(ytd, months)| ==>
              MonthMessages(ytd, months)[k].text.MonthSalaryNotUniform? &&
              MonthMessages(ytd, months)[k].text.month in months &&
              MonthMessages(ytd, months)[k] == MonthMessage(ytd, MonthMessages(ytd, months)[k].text.month) &&
              |MonthSalaries(ytd, MonthMessages(ytd, months)[k].text.month)| != 1
  {
    if months != [] {
      var n := |months| - 1;
      var init := months[..n];
      var m := months[n];
      MonthMessagesSound(ytd, init);
      var a := MonthMessages(ytd, init);
      var e := Expect(|MonthSalaries(ytd, m)| == 1, MonthSalaryNotUniform(m, MonthSalaries(ytd, m)));
      var ms := a + e;
      assert MonthMessages(ytd, months) == ms;
      assert e != [] ==> e == [MonthMessage(ytd, m)] && |MonthSalaries(ytd, m)| != 1;
      forall k | 0 <= k < |ms|
        ensures ms[k].text.MonthSalaryNotUniform? && ms[k].text.month in months
        ensures ms[k] == MonthMessage(ytd, ms[k].text.month) && |MonthSalaries(ytd, ms[k].text.month)| != 1
      {
        if k < |a| {
          assert ms[k] == a[k];
          var p :| 0 <= p < |init| && init[p] == a[k].text.month;
          assert months[p] == init[p];
        } else {
          assert ms[k] == e[0] && months[n] == m;
        }
      }
    }
  }

  /** Every visited month whose salaries are not uniform is reported. */
  lemma {:induction false} MonthMessagesComplete(ytd: seq<YtdEntry>, months: seq<int>)
    ensures forall m :: m in months && |MonthSalaries(ytd, m)| != 1 ==> MonthMessage(ytd, m) in MonthMessages(ytd, months)
  {
    if months != [] {
      var n := |months| - 1;
      var init := months[..n];
      var m := months[n];
      MonthMessagesComplete(ytd, init);
      var a := MonthMessages(ytd, init);
      var e := Expect(|MonthSalaries(ytd, m)| == 1, MonthSalaryNotUniform(m, MonthSalaries(ytd, m)));
      assert MonthMessages(ytd, months) == a + e;
      forall x | x in months && |MonthSalaries(ytd, x)| != 1 ensures MonthMessage(ytd, x) in a + e {
        if x == m {
          assert (a + e)[|a|] == MonthMessage(ytd, m);
        } else {
          var j :| 0 <= j < |months| && months[j] == x;
          assert j < n && init[j] == x;
          assert MonthMessage(ytd, x) in a;
        }
      }
    }
  }

  /** Months visited in ascending order give messages in ascending month order. */
  lemma {:induction false} MonthMessagesOrdered(ytd: seq<YtdEntry>, months: seq<int>)
    requires forall i, j :: 0 <= i < j < |months| ==> months[i] < months[j]
    ensures forall i, j :: 0 <= i < j < |MonthMessages(ytd, months)| ==>
              MonthMessages(ytd, months)[i].text.MonthSalaryNotUniform? &&
              MonthMessages(ytd, months)[j].text.MonthSalaryNotUniform? &&
              MonthMessages(ytd, months)[i].text.month < MonthMessages(ytd, months)[j].text.month
  {
    if months != [] {
      var n := |months| - 1;
      var init := months[..n];
      var m := months[n];
      MonthMessagesOrdered(ytd, init);
      MonthMessagesSound(ytd, init);
      var a := MonthMessages(ytd, init);
      var e := Expect(|MonthSalaries(ytd, m)| == 1, MonthSalaryNotUniform(m, MonthSalaries(ytd, m)));
      var ms := a + e;
      assert MonthMessages(ytd, months) == ms;
      assert |e| <= 1;
      forall i, j | 0 <= i < j < |ms|
        ensures ms[i].text.MonthSalaryNotUniform? && ms[j].text.MonthSalaryNotUniform?
        ensures ms[i].text.month < ms[j].text.month
      {
        assert i < |a| && ms[i] == a[i];
        assert a[i].text.MonthSalaryNotUniform? && a[i].text.month in init;
        if j >= |a| {
          assert ms[j] == e[0] && e[0].text == MonthSalaryNotUniform(m, MonthSalaries(ytd, m));
          var p :| 0 <= p < |init| && init[p] == a[i].text.month;
          assert months[p] == init[p] && months[n] == m;
        } else {
          assert ms[j] == a[j];
        }
      }
      assert forall i, j :: 0 <= i < j < |ms| ==>
               ms[i].text.MonthSalaryNotUniform? && ms[j].text.MonthSalaryNotUniform? &&
               ms[i].text.month < ms[j].text.month;
    } else {
      assert MonthMessages(ytd, months) == [];
    }
  }

  /** One problem per salary month with more than one salary, in ascending month order. */
  function HafkadotYtdMessages(ytd: seq<YtdEntry>): (ms: seq<Message>)
    ensures forall m :: MonthMessage(ytd, m) in ms <==> m in MonthsOf(ytd) && |MonthSalaries(ytd, m)| > 1
    ensures forall k :: 0 <= k < |ms| ==>
              ms[k].text.MonthSalaryNotUniform? && ms[k].text.month in MonthsOf(ytd) &&
              ms[k] == MonthMessage(ytd, ms[k].text.month) && |MonthSalaries(ytd, ms[k].text.month)| > 1
    ensures forall i, j :: 0 <= i < j < |ms| ==> ms[i].text.month < ms[j].text.month
  {
    MonthsHaveSalaries(ytd);
    MonthMessagesSound(ytd, AscendingMonths(ytd));
    MonthMessagesComplete(ytd, AscendingMonths(ytd));
    MonthMessagesOrdered(ytd, AscendingMonths(ytd));
    MonthMessages(ytd, AscendingMonths(ytd))
  }

  // ---------------------------------------------------------------------
  // CheckHafkadotYtdTotal
  // ---------------------------------------------------------------------

  /** The categories whose yearly totals are reported: pitzuim, tagmulim oved, tagmulim maavid. */
  const TotalledCodes: seq<int> := [1, 2, 3]

  /** The reported yearly total of a category. */
  function ReportedTotal(y: YearlyTotals, code: int): real
  {
    if code == Pitzuim.Code() then y.pitzuim
    else if code == TagmulimOved.Code() then y.oved
    else y.maavid
  }

  function TotalMessage(t: Takziv, code: int): Message
  {
    Message(YtdTotalMismatch(code), NotEqual(Dec(SumFor(t.ytd, code)), Dec(ReportedTotal(t.yearly, code))))
  }

  /** Per-category year-to-date sums must equal the three reported yearly totals. */
  function HafkadotYtdTotalMessages(t: Takziv): (ms: seq<Message>)
    ensures |ms| <= 3
    ensures forall code :: code in TotalledCodes ==>
              (TotalMessage(t, code) in ms <==> SumFor(t.ytd, code) != ReportedTotal(t.yearly, code))
    ensures forall k :: 0 <= k < |ms| ==>
              ms[k].text.YtdTotalMismatch? && ms[k].text.totalCode in TotalledCodes &&
              ms[k] == TotalMessage(t, ms[k].text.totalCode)
    ensures ms == When(SumFor(t.ytd, 1) != ReportedTotal(t.yearly, 1), TotalMessage(t, 1))
                  + When(SumFor(t.ytd, 2) != ReportedTotal(t.yearly, 2), TotalMessage(t, 2))
                  + When(SumFor(t.ytd, 3) != ReportedTotal(t.yearly, 3), TotalMessage(t, 3))
  {
    ExpectEq(Dec(SumFor(t.ytd, 1)), Dec(t.yearly.pitzuim), YtdTotalMismatch(1))
      + ExpectEq(Dec(SumFor(t.ytd, 2)), Dec(t.yearly.oved), YtdTotalMismatch(2))
      + ExpectEq(Dec(SumFor(t.ytd, 3)), Dec(t.yearly.maavid), YtdTotalMismatch(3))
  }

  /** An entry of a category without a yearly total changes nothing. */
  lemma {:induction false} OtherCodesIgnored(t: Takziv, e: YtdEntry)
    requires e.sug !in TotalledCodes
    ensures HafkadotYtdTotalMessages(t.(ytd := t.ytd + [e])) == HafkadotYtdTotalMessages(t)
  {
    var ytd := t.ytd + [e];
    assert ytd[..|ytd| - 1] == t.ytd;
    assert SumFor(ytd, 1) == SumFor(t.ytd, 1);
    assert SumFor(ytd, 2) == SumFor(t.ytd, 2);
    assert SumFor(ytd, 3) == SumFor(t.ytd, 3);
  }

  /** On a reconciled block, changing one totalled entry by a nonzero amount yields exactly one problem, for its category. */
  lemma PerturbedEntryReported(t: Takziv, i: nat, delta: real)
    requires HafkadotYtdTotalMessages(t) == []
    requires i < |t.ytd| && t.ytd[i].sug in TotalledCodes && delta != 0.0
    ensures var t' := t.(ytd := t.ytd[i := t.ytd[i].(amount := t.ytd[i].amount + delta)]);
            HafkadotYtdTotalMessages(t') == [TotalMessage(t', t.ytd[i].sug)]
  {
    var t' := t.(ytd := t.ytd[i := t.ytd[i].(amount := t.ytd[i].amount + delta)]);
    var sug := t.ytd[i].sug;
    Reconciled(t);
    PerturbedCode(t, i, delta, 1);
    PerturbedCode(t, i, delta, 2);
    PerturbedCode(t, i, delta, 3);
    OnlyMismatch(t', sug);
  }

  lemma PerturbedCode(t: Takziv, i: nat, delta: real, c: int)
    requires i < |t.ytd| && delta != 0.0 && SumFor(t.ytd, c) == ReportedTotal(t.yearly, c)
    ensures var t' := t.(ytd := t.ytd[i := t.ytd[i].(amount := t.ytd[i].amount + delta)]);
            SumFor(t'.ytd, c) == ReportedTotal(t'.yearly, c) <==> c != t.ytd[i].sug
  {
    SumForPerturbed(t.ytd, i, delta, c);
  }

  lemma Reconciled(t: Takziv)
    requires HafkadotYtdTotalMessages(t) == []
    ensures SumFor(t.ytd, 1) == ReportedTotal(t.yearly, 1)
    ensures SumFor(t.ytd, 2) == ReportedTotal(t.yearly, 2)
    ensures SumFor(t.ytd, 3) == ReportedTotal(t.yearly, 3)
  {
  }

  /** When exactly one totalled category disagrees with its yearly total, it is the only message. */
  lemma OnlyMismatch(t: Takziv, code: int)
    requires code in TotalledCodes
    requires SumFor(t.ytd, 1) == ReportedTotal(t.yearly, 1) <==> code != 1
    requires SumFor(t.ytd, 2) == ReportedTotal(t.yearly, 2) <==> code != 2
    requires SumFor(t.ytd, 3) == ReportedTotal(t.yearly, 3) <==> code != 3
    ensures HafkadotYtdTotalMessages(t) == [TotalMessage(t, code)]
  {
  }

  // ---------------------------------------------------------------------
  // CheckHafrashotSize
  // ---------------------------------------------------------------------

  /** One message for every entry that repeats an earlier entry's category. */
  function DuplicateMessages(h: seq<HafrashaEntry>): (ms: seq<Message>)
    ensures |ms| == RepeatCount(h)
    ensures forall k :: 0 <= k < |ms| ==>
              ms[k].detail == Plain && ms[k].text.DuplicateSug? && ms[k].text.duplicate in Percentages(h)
  {
    if h == [] then []
    else
      var init := h[..|h| - 1];
      var sug := h[|h| - 1].sug;
      DuplicateMessages(init) + Expect(sug !in Percentages(init), DuplicateSug(sug))
  }

  predicate OutOfBand(p: real, b: Band) { p < b.min || p > b.max }

  predicate RangeReported(ms: seq<Message>, code: int)
  {
    exists k :: 0 <= k < |ms| && ms[k].text == SugOutOfRange(code)
  }

  /** The band check of one banded code: "missing" if undeclared, else assert_range against its band. */
  function CodeBand(pcts: map<int, real>, c: int): (ms: seq<Message>)
    requires c in HafrashaRangesPension
    ensures c !in pcts ==> ms == [Message(MissingSug(c), Plain)]
    ensures c in pcts ==> (ms == [] <==> !OutOfBand(pcts[c], HafrashaRangesPension[c]))
    ensures c in pcts && pcts[c] < HafrashaRangesPension[c].min ==>
              ms == [Message(SugOutOfRange(c), Below(Dec(pcts[c]), Dec(HafrashaRangesPension[c].min)))]
    ensures c in pcts && HafrashaRangesPension[c].min <= pcts[c] && HafrashaRangesPension[c].max < pcts[c] ==>
              ms == [Message(SugOutOfRange(c), Above(Dec(pcts[c]), Dec(HafrashaRangesPension[c].max)))]
  {
    var b := HafrashaRangesPension[c];
    if c !in pcts then [Message(MissingSug(c), Plain)]
    else ExpectRange(Dec(b.min), Dec(pcts[c]), Dec(b.max), SugOutOfRange(c))
  }

  /** For each banded code in turn: "missing" if undeclared, else the range check. */
  function BandMessages(pcts: map<int, real>, codes: seq<int>): (ms: seq<Message>)
    requires forall c :: c in codes ==> c in HafrashaRangesPension
    ensures |ms| <= |codes|
  {
    if codes == [] then []
    else BandMessages(pcts, codes[..|codes| - 1]) + CodeBand(pcts, codes[|codes| - 1])
  }

  /** The band messages of a list of codes are those of each code, in the order of the codes. */
  lemma {:induction false} BandMessagesSplit(pcts: map<int, real>, a: seq<int>, b: seq<int>)
    requires forall c :: c in a ==> c in HafrashaRangesPension
    requires forall c :: c in b ==> c in HafrashaRangesPension
    ensures BandMessages(pcts, a + b) == BandMessages(pcts, a) + BandMessages(pcts, b)
  {
    if b == [] {
      assert a + b == a;
    } else {
      var n := |b| - 1;
      var ab := a + b;
      assert ab[..|ab| - 1] == a + b[..n];
      BandMessagesSplit(pcts, a, b[..n]);
      AppendAssoc(BandMessages(pcts, a), BandMessages(pcts, b[..n]), CodeBand(pcts, b[n]));
    }
  }

  /** The band check of the pension table: codes 1, 2 and 3, each once, in that order. */
  lemma BandedCodesMessages(pcts: map<int, real>)
    ensures forall c :: c in BandedCodes ==> c in HafrashaRangesPension
    ensures BandMessages(pcts, BandedCodes) == CodeBand(pcts, 1) + CodeBand(pcts, 2) + CodeBand(pcts, 3)
  {
    assert BandedCodes[..2] == [1, 2];
    assert [1, 2][..1] == [1];
    assert [1][..0] == [];
    assert BandMessages(pcts, [1]) == CodeBand(pcts, 1);
    assert BandMessages(pcts, [1, 2]) == CodeBand(pcts, 1) + CodeBand(pcts, 2);
  }

  /** A band-check message is either "missing" for an undeclared code or "out of range" for a declared one outside its band. */
  predicate BandExplained(pcts: map<int, real>, codes: seq<int>, m: Message)
  {
    (m.text.MissingSug? && m.detail == Plain && m.text.missing in codes && m.text.missing !in pcts)
    || (m.text.SugOutOfRange? && m.text.banded in codes && m.text.banded in pcts &&
        m.text.banded in HafrashaRangesPension &&
        OutOfBand(pcts[m.text.banded], HafrashaRangesPension[m.text.banded]))
  }

  /** Every band message is explained by its code, and every undeclared or out-of-band code is reported. */
  lemma {:induction false} BandMessagesExplained(pcts: map<int, real>, codes: seq<int>)
    requires forall c :: c in codes ==> c in HafrashaRangesPension
    ensures forall m :: m in BandMessages(pcts, codes) ==> BandExplained(pcts, codes, m)
    ensures forall c :: c in codes && c !in pcts ==> Message(MissingSug(c), Plain) in BandMessages(pcts, codes)
    ensures forall c :: c in codes && c in pcts && OutOfBand(pcts[c], HafrashaRangesPension[c]) ==>
              RangeReported(BandMessages(pcts, codes), c)
  {
    if codes != [] {
      var n := |codes| - 1;
      var init := codes[..n];
      var c := codes[n];
      BandMessagesExplained(pcts, init);
      var before := BandMessages(pcts, init);
      var step := CodeBand(pcts, c);
      var ms := BandMessages(pcts, codes);
      assert ms == before + step;
      forall m | m in ms ensures BandExplained(pcts, codes, m) {
        if m in before {
          assert BandExplained(pcts, init, m);
        } else {
          assert m in step;
        }
      }
      forall x | x in codes && x !in pcts ensures Message(MissingSug(x), Plain) in ms {
        if x != c {
          assert x in init;
        }
      }
      forall x | x in codes && x in pcts && OutOfBand(pcts[x], HafrashaRangesPension[x])
        ensures RangeReported(ms, x)
      {
        if x == c {
          assert ms[|before|] == step[0];
        } else {
          assert x in init;
          var k :| 0 <= k < |before| && before[k].text == SugOutOfRange(x);
          assert ms[k] == before[k];
        }
      }
    }
  }

  /** Each category declared once; every banded category present and within its band. */
  function HafrashotSizeMessages(h: seq<HafrashaEntry>): (ms: seq<Message>)
    ensures RepeatCount(h) <= |ms| <= RepeatCount(h) + |BandedCodes|
    ensures forall k :: 0 <= k < RepeatCount(h) ==> ms[k].text.DuplicateSug?
    ensures ms == DuplicateMessages(h) + (CodeBand(Percentages(h), 1) + CodeBand(Percentages(h), 2)
                                          + CodeBand(Percentages(h), 3))
  {
    BandTable();
    BandedCodesMessages(Percentages(h));
    DuplicateMessages(h) + BandMessages(Percentages(h), BandedCodes)
  }

  /** A range problem is reported in a concatenation iff it is reported in one of its parts. */
  lemma RangeReportedConcat(a: seq<Message>, b: seq<Message>, c: int)
    ensures RangeReported(a + b, c) <==> RangeReported(a, c) || RangeReported(b, c)
  {
    if RangeReported(a + b, c) {
      var k :| 0 <= k < |a + b| && (a + b)[k].text == SugOutOfRange(c);
      if k >= |a| {
        assert b[k - |a|] == (a + b)[k];
      } else {
        assert a[k] == (a + b)[k];
      }
    }
    if RangeReported(b, c) {
      var k :| 0 <= k < |b| && b[k].text == SugOutOfRange(c);
      assert (a + b)[|a| + k] == b[k];
    }
    if RangeReported(a, c) {
      var k :| 0 <= k < |a| && a[k].text == SugOutOfRange(c);
      assert (a + b)[k] == a[k];
    }
  }

  /** CheckHafrashotSize reports a banded category missing exactly when no entry declares it. */
  lemma HafrashotSizeMissing(h: seq<HafrashaEntry>, c: int)
    requires c in BandedCodes
    ensures Message(MissingSug(c), Plain) in HafrashotSizeMessages(h) <==> forall i :: 0 <= i < |h| ==> h[i].sug != c
  {
    BandTable();
    PercentagesKeys(h, c);
    var dups := DuplicateMessages(h);
    var bands := BandMessages(Percentages(h), BandedCodes);
    BandMessagesExplained(Percentages(h), BandedCodes);
    assert HafrashotSizeMessages(h) == dups + bands;
    var m := Message(MissingSug(c), Plain);
    assert m !in dups;
    if m in bands {
      assert BandExplained(Percentages(h), BandedCodes, m);
    }
  }

  /** For a declared banded category, CheckHafrashotSize reports a range problem exactly when its
      (last declared) percentage is outside the category's band. */
  lemma HafrashotSizeRange(h: seq<HafrashaEntry>, c: int)
    requires c in BandedCodes && c in Percentages(h)
    ensures RangeReported(HafrashotSizeMessages(h), c) <==> OutOfBand(Percentages(h)[c], HafrashaRangesPension[c])
  {
    BandTable();
    var dups := DuplicateMessages(h);
    var bands := BandMessages(Percentages(h), BandedCodes);
    BandMessagesExplained(Percentages(h), BandedCodes);
    assert HafrashotSizeMessages(h) == dups + bands;
    RangeReportedConcat(dups, bands, c);
    assert !RangeReported(dups, c);
    if RangeReported(bands, c) {
      var k :| 0 <= k < |bands| && bands[k].text == SugOutOfRange(c);
      assert bands[k] in bands;
      assert BandExplained(Percentages(h), BandedCodes, bands[k]);
    }
  }

  /** One duplicate message per repeated entry, plus at most one message per banded category. */
  lemma HafrashotSizeCount(h: seq<HafrashaEntry>)
    ensures |DuplicateMessages(h)| + |Percentages(h)| == |h|
    ensures |HafrashotSizeMessages(h)| <= |h| - |Percentages(h)| + |BandedCodes|
  {
    BandTable();
    RepeatCountPlusCategories(h);
  }

  /** Two entries of `h` declare category `c`. */
  predicate DeclaredTwice(h: seq<HafrashaEntry>, c: int)
  {
    exists i, j :: 0 <= i < j < |h| && h[i].sug == c && h[j].sug == c
  }

  /** A category is reported as a duplicate exactly when two entries declare it. */
  lemma {:induction false} DuplicateReportedIffRepeated(h: seq<HafrashaEntry>, c: int)
    ensures Message(DuplicateSug(c), Plain) in DuplicateMessages(h) <==> DeclaredTwice(h, c)
  {
    if h != [] {
      var init := h[..|h| - 1];
      DuplicateReportedIffRepeated(init, c);
      PercentagesKeys(init, c);
      DuplicateMessagesSnoc(h, c);
      DeclaredTwiceSnoc(h, c);
    }
  }

  lemma DuplicateMessagesSnoc(h: seq<HafrashaEntry>, c: int)
    requires h != []
    ensures Message(DuplicateSug(c), Plain) in DuplicateMessages(h) <==>
            Message(DuplicateSug(c), Plain) in DuplicateMessages(h[..|h| - 1]) ||
            (h[|h| - 1].sug == c && c in Percentages(h[..|h| - 1]))
  {
    var init := h[..|h| - 1];
    var tail := Expect(h[|h| - 1].sug !in Percentages(init), DuplicateSug(h[|h| - 1].sug));
    assert DuplicateMessages(h) == DuplicateMessages(init) + tail;
  }

  lemma DeclaredTwiceSnoc(h: seq<HafrashaEntry>, c: int)
    requires h != []
    ensures DeclaredTwice(h, c) <==>
            DeclaredTwice(h[..|h| - 1], c) ||
            (h[|h| - 1].sug == c && exists i :: 0 <= i < |h| - 1 && h[i].sug == c)
  {
    var init := h[..|h| - 1];
    if DeclaredTwice(init, c) {
      var i, j :| 0 <= i < j < |init| && init[i].sug == c && init[j].sug == c;
      assert h[i].sug == c && h[j].sug == c;
    }
    if DeclaredTwice(h, c) {
      var i, j :| 0 <= i < j < |h| && h[i].sug == c && h[j].sug == c;
      if j < |h| - 1 {
        assert init[i].sug == c && init[j].sug == c;
      }
    }
  }

  /** How many entries of `h` declare category `c`. */
  function Declarations(h: seq<HafrashaEntry>, c: int): nat
  {
    |set i | 0 <= i < |h| && h[i].sug == c|
  }

  lemma DeclarationsSnoc(h: seq<HafrashaEntry>, c: int)
    requires h != []
    ensures Declarations(h, c) == Declarations(h[..|h| - 1], c) + (if h[|h| - 1].sug == c then 1 else 0)
  {
    var n := |h| - 1;
    var init := h[..n];
    var before := set i | 0 <= i < n && h[i].sug == c;
    assert (set i | 0 <= i < |init| && init[i].sug == c) == before;
    var all := set i | 0 <= i < |h| && h[i].sug == c;
    if h[n].sug == c {
      assert n !in before;
      assert all == before + {n};
    } else {
      assert all == before;
    }
  }

  /** A category is a key of the percentage map exactly when some entry declares it. */
  lemma DeclaredIffCounted(h: seq<HafrashaEntry>, c: int)
    ensures c in Percentages(h) <==> Declarations(h, c) > 0
  {
    PercentagesKeys(h, c);
    var all := set i | 0 <= i < |h| && h[i].sug == c;
    if c in Percentages(h) {
      var i :| 0 <= i < |h| && h[i].sug == c;
      assert i in all;
    } else {
      assert all == {};
    }
  }

  /** Each category gets one duplicate message per declaration after its first. */
  lemma {:induction false} DuplicatesPerCategory(h: seq<HafrashaEntry>, c: int)
    ensures multiset(DuplicateMessages(h))[Message(DuplicateSug(c), Plain)] ==
            if c in Percentages(h) then Declarations(h, c) - 1 else 0
  {
    DeclaredIffCounted(h, c);
    if h != [] {
      var init := h[..|h| - 1];
      var e := h[|h| - 1];
      DuplicatesPerCategory(init, c);
      DeclaredIffCounted(init, c);
      DeclarationsSnoc(h, c);
      var tail := Expect(e.sug !in Percentages(init), DuplicateSug(e.sug));
      assert DuplicateMessages(h) == DuplicateMessages(init) + tail;
    }
  }

  /** The duplicates of the first `n` entries come first: messages follow the entry order. */
  lemma {:induction false} DuplicateMessagesPrefix(h: seq<HafrashaEntry>, n: nat)
    requires n <= |h|
    ensures DuplicateMessages(h[..n]) <= DuplicateMessages(h)
  {
    if n == |h| {
      assert h[..n] == h;
    } else {
      var init := h[..|h| - 1];
      assert init[..n] == h[..n];
      DuplicateMessagesPrefix(init, n);
    }
  }

  // ---------------------------------------------------------------------
  // CheckHafrashotSizeInHafkadotYtd
  // ---------------------------------------------------------------------

  /** An entry's amount as a percentage of its salary. */
  function EntryPercentage(e: YtdEntry): real
    requires e.salary != 0.0
  {
    e.amount / e.salary * 100.0
  }

  /** For a banded category, the entry's percentage of salary must lie in the band. */
  function EntryBandOutcome(e: YtdEntry): (r: Result<seq<Message>, Failure>)
    ensures e.sug !in HafrashaRangesPension ==> r == Success([])
    ensures e.sug in HafrashaRangesPension && e.salary == 0.0 ==> r == Failure(DivisionByZero(e))
    ensures e.sug in HafrashaRangesPension && e.salary != 0.0 ==>
              r.Success? && |r.value| <= 1 &&
              (r.value == [] <==> !OutOfBand(EntryPercentage(e), HafrashaRangesPension[e.sug]))
    ensures e.sug in HafrashaRangesPension && e.salary != 0.0 &&
            EntryPercentage(e) < HafrashaRangesPension[e.sug].min ==>
              r.value == [Message(EntryPercentageOutOfRange(e.sug),
                                  Below(Dec(EntryPercentage(e)), Dec(HafrashaRangesPension[e.sug].min)))]
    ensures e.sug in HafrashaRangesPension && e.salary != 0.0 &&
            HafrashaRangesPension[e.sug].min <= EntryPercentage(e) &&
            HafrashaRangesPension[e.sug].max < EntryPercentage(e) ==>
              r.value == [Message(EntryPercentageOutOfRange(e.sug),
                                  Above(Dec(EntryPercentage(e)), Dec(HafrashaRangesPension[e.sug].max)))]
  {
    if e.sug !in HafrashaRangesPension then Success([])
    else
      var b := HafrashaRangesPension[e.sug];
      if e.salary == 0.0 then Failure(DivisionByZero(e))
      else Success(ExpectRange(Dec(b.min), Dec(e.amount / e.salary * 100.0), Dec(b.max), EntryPercentageOutOfRange(e.sug)))
  }

  /** For a positive salary the band test needs no division: min·salary <= 100·amount <= max·salary. */
  lemma EntryBandCrossMultiplied(e: YtdEntry)
    requires e.sug in HafrashaRangesPension && e.salary > 0.0
    ensures var b := HafrashaRangesPension[e.sug];
            EntryBandOutcome(e) == Success([]) <==> b.min * e.salary <= e.amount * 100.0 <= b.max * e.salary
  {
    var b := HafrashaRangesPension[e.sug];
    var p := EntryPercentage(e);
    AboveByCross(e.amount, e.salary, b.min);
    BelowByCross(e.amount, e.salary, b.max);
    assert EntryBandOutcome(e) == Success([]) <==> !OutOfBand(p, b);
  }

  lemma AboveByCross(a: real, s: real, lo: real)
    requires s > 0.0
    ensures lo <= a / s * 100.0 <==> lo * s <= a * 100.0
  {
    var p := a / s * 100.0;
    assert p * s == a * 100.0 by { assert a / s * s == a; }
    ScaleKeepsOrder(lo, p, s);
  }

  lemma BelowByCross(a: real, s: real, hi: real)
    requires s > 0.0
    ensures a / s * 100.0 <= hi <==> a * 100.0 <= hi * s
  {
    var p := a / s * 100.0;
    assert p * s == a * 100.0 by { assert a / s * s == a; }
    ScaleKeepsOrder(p, hi, s);
  }

  lemma ScaleKeepsOrder(x: real, y: real, s: real)
    requires s > 0.0
    ensures x <= y <==> x * s <= y * s
  {
    if x <= y {
      assert (y - x) * s >= 0.0;
    } else {
      assert (x - y) * s > 0.0;
    }
  }

  // ---------------------------------------------------------------------
  // CheckTotalHafkadaParts
  // ---------------------------------------------------------------------

  /** What a deduction field subtracts: nothing when nil-marked, its amount when a number. */
  function Deduction(v: Value): Option<real>
  {
    if IsNilMarker(v) then Some(0.0) else if v.Number? then Some(v.amount) else None
  }

  /** Net must equal gross minus insurance premium minus management fee (nil deductions are 0). */
  function NetGrossOutcome(t: Takziv): (r: Result<seq<Message>, Failure>)
    ensures t.lastHafkadot == [] ==> r == Failure(NoLastHafkada)
    ensures r.Success? <==>
              t.lastHafkadot != [] &&
              Deduction(t.expenses.insurancePremium).Some? && Deduction(t.expenses.managementFee).Some?
    ensures r.Success? ==>
              |r.value| <= 1 &&
              (r.value == [] <==>
                 t.lastHafkadot[0].totalNet == t.lastHafkadot[0].total
                   - Deduction(t.expenses.insurancePremium).value - Deduction(t.expenses.managementFee).value)
    ensures r.Success? && r.value != [] ==>
              r.value == [Message(NetMismatch(t.lastHafkadot[0].totalNet, t.lastHafkadot[0].total,
                                              Deduction(t.expenses.insurancePremium).value,
                                              Deduction(t.expenses.managementFee).value), Plain)]
    ensures t.lastHafkadot != [] && Deduction(t.expenses.insurancePremium).None? ==>
              r == Failure(NotANumber(t.expenses.insurancePremium))
    ensures t.lastHafkadot != [] && Deduction(t.expenses.insurancePremium).Some? &&
            Deduction(t.expenses.managementFee).None? ==>
              r == Failure(NotANumber(t.expenses.managementFee))
  {
    if t.lastHafkadot == [] then Failure(NoLastHafkada)
    else
      var last := t.lastHafkadot[0];
      var premium := FixNil(t.expenses.insurancePremium, Number(0.0));
      var fee := FixNil(t.expenses.managementFee, Number(0.0));
      if !premium.Number? then Failure(NotANumber(premium))
      else if !fee.Number? then Failure(NotANumber(fee))
      else
        var neto, bruto := last.totalNet, last.total;
        Success(Expect(neto == bruto - premium.amount - fee.amount,
                       NetMismatch(neto, bruto, premium.amount, fee.amount)))
  }

  // ---------------------------------------------------------------------
  // CheckNechonutDate and CheckJoinDate
  // ---------------------------------------------------------------------

  /** The policy's valuation date must not be after the header's execution date. */
  function NechonutOutcome(p: Polisa, bitzua: DateTime): (r: Result<seq<Message>, Failure>)
    ensures r.Failure? <==> ParseDate(p.nechonutDate).None?
    ensures ParseDate(p.nechonutDate).None? ==> r == Failure(BadDate(p.nechonutDate))
    ensures r.Success? ==>
              |r.value| <= 1 && (r.value != [] <==> DateBefore(bitzua.date, ParseDate(p.nechonutDate).value))
    ensures r.Success? && r.value != [] ==>
              r.value == [Message(NechonutAfterBitzua, GreaterThan(Day(ParseDate(p.nechonutDate).value), Day(bitzua.date)))]
  {
    match ParseDate(p.nechonutDate)
    case None => Failure(BadDate(p.nechonutDate))
    case Some(d) => Success(ExpectLte(Day(d), Day(bitzua.date), NechonutAfterBitzua))
  }

  /** The join date must be strictly after the customer's birth date. */
  function JoinDateOutcome(p: Polisa, c: Customer): (r: Result<seq<Message>, Failure>)
    ensures ParseDate(c.birthDate).None? ==> r == Failure(BadDate(c.birthDate))
    ensures ParseDate(c.birthDate).Some? && ParseDate(p.joinDate).None? ==> r == Failure(BadDate(p.joinDate))
    ensures r.Success? <==> ParseDate(c.birthDate).Some? && ParseDate(p.joinDate).Some?
    ensures r.Success? ==>
              |r.value| <= 1 &&
              (r.value == [] <==> DateBefore(ParseDate(c.birthDate).value, ParseDate(p.joinDate).value))
    ensures r.Success? && ParseDate(p.joinDate) == ParseDate(c.birthDate) ==> r.value != []
    ensures r.Success? && r.value != [] ==>
              r.value == [Message(JoinBeforeBirth, AtMost(Day(ParseDate(p.joinDate).value), Day(ParseDate(c.birthDate).value)))]
  {
    match ParseDate(c.birthDate)
    case None => Failure(BadDate(c.birthDate))
    case Some(birthday) =>
      match ParseDate(p.joinDate)
      case None => Failure(BadDate(p.joinDate))
      case Some(joinDay) => Success(ExpectGt(Day(joinDay), Day(birthday), JoinBeforeBirth))
  }

  // ---------------------------------------------------------------------
  // The catalogue and the traversal
  // ---------------------------------------------------------------------

  /** The registered validators. */
  datatype Rule =
    | CheckLastHafkada
    | CheckHafkadotYtd
    | CheckHafkadotYtdTotal
    | CheckHafrashotSize
    | CheckHafrashotSizeInHafkadotYtd
    | CheckTotalHafkadaParts
    | CheckNechonutDate
    | CheckJoinDate

  /** Registration order, which is the order of the catalogue's definitions. */
  const Registry: seq<Rule> := [
    CheckLastHafkada, CheckHafkadotYtd, CheckHafkadotYtdTotal, CheckHafrashotSize,
    CheckHafrashotSizeInHafkadotYtd, CheckTotalHafkadaParts, CheckNechonutDate, CheckJoinDate]

  function RootAnchor(rule: Rule): Anchor
  {
    match rule
    case CheckLastHafkada => LastHafkadot
    case CheckHafrashotSizeInHafkadotYtd => YtdEntries
    case CheckNechonutDate => Polisot
    case CheckJoinDate => Polisot
    case _ => Takzivim
  }

  function RootPath(rule: Rule): string
  {
    AnchorPath(RootAnchor(rule))
  }

  /** The per-run header context: SUG-MIMSHAK and the parsed TAARICH-BITZUA. */
  datatype HeaderInfo = HeaderInfo(sugMimshak: string, bitzua: DateTime)

  function ReadHeader(hd: Header): (r: Result<HeaderInfo, Failure>)
    ensures r.Success? <==> ParseDateTime(hd.bitzua).Some?
    ensures r.Success? ==> r.value.sugMimshak == hd.sugMimshak && Some(r.value.bitzua) == ParseDateTime(hd.bitzua)
  {
    match ParseDateTime(hd.bitzua)
    case None => Failure(BadDate(hd.bitzua))
    case Some(t) => Success(HeaderInfo(hd.sugMimshak, t))
  }

  /** What one validator's rule reports for one record. */
  function RuleOutcome(rule: Rule, doc: Document, h: HeaderInfo, rec: Record): (r: Result<seq<Message>, Failure>)
    ensures AnchorOf(rec) != RootAnchor(rule) ==> r == Failure(WrongRecord)
  {
    match (rule, rec)
    case (CheckLastHafkada, LastHafkadaRecord(l)) => Success(LastHafkadaMessages(l))
    case (CheckHafkadotYtd, TakzivRecord(t)) => Success(HafkadotYtdMessages(t.ytd))
    case (CheckHafkadotYtdTotal, TakzivRecord(t)) => Success(HafkadotYtdTotalMessages(t))
    case (CheckHafrashotSize, TakzivRecord(t)) => Success(HafrashotSizeMessages(t.hafrashot))
    case (CheckHafrashotSizeInHafkadotYtd, YtdRecord(e)) => EntryBandOutcome(e)
    case (CheckTotalHafkadaParts, TakzivRecord(t)) => NetGrossOutcome(t)
    case (CheckNechonutDate, PolisaRecord(p)) => NechonutOutcome(p, h.bitzua)
    case (CheckJoinDate, PolisaRecord(p)) => JoinDateOutcome(p, doc.customer)
    case _ => Failure(WrongRecord)
  }

  /** Only a record of another group gives the wrong-record error, and the four rules without a
      raising path succeed on every record of their own group. */
  lemma RuleOutcomeFits(rule: Rule, doc: Document, h: HeaderInfo, rec: Record)
    ensures RuleOutcome(rule, doc, h, rec) == Failure(WrongRecord) <==> AnchorOf(rec) != RootAnchor(rule)
    ensures (rule.CheckLastHafkada? || rule.CheckHafkadotYtd? || rule.CheckHafkadotYtdTotal? || rule.CheckHafrashotSize?) ==>
              (RuleOutcome(rule, doc, h, rec).Success? <==> AnchorOf(rec) == RootAnchor(rule))
  {
  }

  /** A validator never sees a record of another group: the ones under its anchor all fit its rule. */
  lemma RootRecordsFit(rule: Rule, doc: Document, h: HeaderInfo, i: nat)
    requires i < |Records(doc, RootAnchor(rule))|
    ensures RuleOutcome(rule, doc, h, Records(doc, RootAnchor(rule))[i]) != Failure(WrongRecord)
  {
    var a := RootAnchor(rule);
    RuleOutcomeFits(rule, doc, h, Records(doc, a)[i]);
    match a
    case Polisot => assert Records(doc, a)[i] == PolisaRecord(doc.polisot[i]);
    case Takzivim => assert Records(doc, a)[i] == TakzivRecord(TakzivimOf(doc.polisot)[i]);
    case LastHafkadot => assert Records(doc, a)[i] == LastHafkadaRecord(LastHafkadotOf(TakzivimOf(doc.polisot))[i]);
    case YtdEntries => assert Records(doc, a)[i] == YtdRecord(YtdOf(TakzivimOf(doc.polisot))[i]);
  }

  /** The rule's outcome on each record, in record order. */
  function Outcomes(rule: Rule, doc: Document, h: HeaderInfo, recs: seq<Record>): (rs: seq<Result<seq<Message>, Failure>>)
    ensures |rs| == |recs|
    ensures forall i :: 0 <= i < |recs| ==> rs[i] == RuleOutcome(rule, doc, h, recs[i])
  {
    seq(|recs|, i requires 0 <= i < |recs| => RuleOutcome(rule, doc, h, recs[i]))
  }

  /** The rule run over the records in order; the first record that fails aborts the run. */
  function RunRecords(rule: Rule, doc: Document, h: HeaderInfo, recs: seq<Record>): Result<seq<seq<Message>>, Failure>
  {
    Collect(Outcomes(rule, doc, h, recs))
  }

  /** The run succeeds iff every record does, keeping each record's messages; otherwise it fails
      with the error of the first record that fails. */
  lemma RunRecordsOutcome(rule: Rule, doc: Document, h: HeaderInfo, recs: seq<Record>)
    ensures var r := RunRecords(rule, doc, h, recs);
            r.Success? <==> forall i :: 0 <= i < |recs| ==> RuleOutcome(rule, doc, h, recs[i]).Success?
    ensures var r := RunRecords(rule, doc, h, recs);
            r.Success? ==>
              |r.value| == |recs| &&
              forall i :: 0 <= i < |recs| ==> RuleOutcome(rule, doc, h, recs[i]) == Success(r.value[i])
    ensures var r := RunRecords(rule, doc, h, recs);
            r.Failure? ==>
              exists i :: 0 <= i < |recs| && RuleOutcome(rule, doc, h, recs[i]) == Failure(r.error) &&
                forall j :: 0 <= j < i ==> RuleOutcome(rule, doc, h, recs[j]).Success?
  {
  }

  /** The number of messages over all records. */
  function TotalCount(per: seq<seq<Message>>): nat
  {
    if per == [] then 0 else TotalCount(per[..|per| - 1]) + |per[|per| - 1]|
  }

  /** The messages of record `i`, located. */
  function Located(path: string, i: nat, ms: seq<Message>): (fs: seq<Finding>)
    ensures |fs| == |ms| && forall j :: 0 <= j < |ms| ==> fs[j] == Finding(path, i, ms[j])
  {
    seq(|ms|, j requires 0 <= j < |ms| => Finding(path, i, ms[j]))
  }

  /** Each record's messages located at the record, concatenated in record order. */
  function Flatten(path: string, per: seq<seq<Message>>): (fs: seq<Finding>)
    ensures |fs| == TotalCount(per)
    ensures forall k :: 0 <= k < |fs| ==>
              fs[k].path == path && fs[k].index < |per| && fs[k].message in per[fs[k].index]
    ensures forall a, b :: 0 <= a <= b < |fs| ==> fs[a].index <= fs[b].index
  {
    if per == [] then []
    else
      var n := |per| - 1;
      var init := Flatten(path, per[..n]);
      var last := Located(path, n, per[n]);
      assert forall k :: 0 <= k < |init| ==> init[k].message in per[init[k].index] by {
        forall k | 0 <= k < |init| ensures init[k].message in per[init[k].index] {
          assert per[..n][init[k].index] == per[init[k].index];
        }
      }
      init + last
  }

  /** Message j of record i sits at position TotalCount(per[..i]) + j: ordered by record, then by report. */
  lemma {:induction false} FlattenAt(path: string, per: seq<seq<Message>>, i: nat, j: nat)
    requires i < |per| && j < |per[i]|
    ensures TotalCount(per[..i]) + j < |Flatten(path, per)|
    ensures Flatten(path, per)[TotalCount(per[..i]) + j] == Finding(path, i, per[i][j])
  {
    var n := |per| - 1;
    assert per[..n][..i] == per[..i] by { if i < n {} }
    if i == n {
      assert per[..n] == per[..i];
    } else {
      FlattenAt(path, per[..n], i, j);
    }
  }

  /** What one validator returns for a document, or why the document is abandoned. */
  function CheckSpec(doc: Document, rule: Rule): (r: Result<seq<Finding>, Failure>)
    ensures ReadHeader(doc.header).Failure? ==> r == Failure(ReadHeader(doc.header).error)
  {
    match ReadHeader(doc.header)
    case Failure(e) => Failure(e)
    case Success(h) =>
      match RunRecords(rule, doc, h, Records(doc, RootAnchor(rule)))
      case Failure(e) => Failure(e)
      case Success(per) => Success(Flatten(RootPath(rule), per))
  }

  /** A validator with no records at its anchor yields no findings once the header is read. */
  lemma NoRecordsNoFindings(doc: Document, rule: Rule)
    requires ReadHeader(doc.header).Success? && Records(doc, RootAnchor(rule)) == []
    ensures CheckSpec(doc, rule) == Success([])
  {
    assert Outcomes(rule, doc, ReadHeader(doc.header).value, []) == [];
  }

  /** Every finding of a validator is located at its anchor, at a record whose rule reported that message. */
  lemma CheckFindingsLocated(doc: Document, rule: Rule)
    requires CheckSpec(doc, rule).Success?
    ensures ReadHeader(doc.header).Success?
    ensures var fs := CheckSpec(doc, rule).value;
            var recs := Records(doc, RootAnchor(rule));
            forall k :: 0 <= k < |fs| ==>
              fs[k].path == RootPath(rule) && fs[k].index < |recs| &&
              RuleOutcome(rule, doc, ReadHeader(doc.header).value, recs[fs[k].index]).Success? &&
              fs[k].message in RuleOutcome(rule, doc, ReadHeader(doc.header).value, recs[fs[k].index]).value
  {
    RunRecordsOutcome(rule, doc, ReadHeader(doc.header).value, Records(doc, RootAnchor(rule)));
  }

  /** The validators' results concatenated in the given order; the first failure abandons the document. */
  function AllChecksSpec(doc: Document, rules: seq<Rule>): (r: Result<seq<Finding>, Failure>)
    ensures rules == [] ==> r == Success([])
  {
    JoinAll(CheckOutcomes(doc, rules))
  }

  /** Each validator's outcome, in the given order. */
  function CheckOutcomes(doc: Document, rules: seq<Rule>): (rs: seq<Result<seq<Finding>, Failure>>)
    ensures |rs| == |rules| && forall i :: 0 <= i < |rules| ==> rs[i] == CheckSpec(doc, rules[i])
  {
    seq(|rules|, i requires 0 <= i < |rules| => CheckSpec(doc, rules[i]))
  }

  /** A catalogue of one validator yields exactly that validator's result. */
  lemma AllChecksSingle(doc: Document, rule: Rule)
    ensures AllChecksSpec(doc, [rule]) == CheckSpec(doc, rule)
  {
    JoinAllOne(CheckOutcomes(doc, [rule]));
  }

  /** The run over all validators succeeds iff each validator does. */
  lemma AllChecksSucceed(doc: Document, rules: seq<Rule>)
    ensures AllChecksSpec(doc, rules).Success? <==>
              forall i :: 0 <= i < |rules| ==> CheckSpec(doc, rules[i]).Success?
  {
    JoinAllSucceeds(CheckOutcomes(doc, rules));
  }

  /** A failing run abandons the document with the error of the first validator that failed. */
  lemma AllChecksFirstFailure(doc: Document, rules: seq<Rule>)
    requires AllChecksSpec(doc, rules).Failure?
    ensures exists i :: 0 <= i < |rules| && CheckSpec(doc, rules[i]) == Failure(AllChecksSpec(doc, rules).error) &&
              forall j :: 0 <= j < i ==> CheckSpec(doc, rules[j]).Success?
  {
    JoinAllFirstFailure(CheckOutcomes(doc, rules));
  }

  /** A successful run holds validator i's findings, unchanged, right after those of the validators before it. */
  lemma AllChecksInOrder(doc: Document, rules: seq<Rule>, i: nat)
    requires AllChecksSpec(doc, rules).Success? && i < |rules|
    ensures CheckSpec(doc, rules[i]).Success?
    ensures var lo := TotalLength(CheckOutcomes(doc, rules)[..i]);
            lo + |CheckSpec(doc, rules[i]).value| <= |AllChecksSpec(doc, rules).value| &&
            AllChecksSpec(doc, rules).value[lo..lo + |CheckSpec(doc, rules[i]).value|] == CheckSpec(doc, rules[i]).value
  {
    JoinAllOffset(CheckOutcomes(doc, rules), i);
  }

  /** Any validator whose rule holds of every record (so reports nothing) contributes nothing. */
  lemma {:induction false} SilentRecordsNoFindings(doc: Document, rule: Rule)
    requires ReadHeader(doc.header).Success?
    requires forall rec :: rec in Records(doc, RootAnchor(rule)) ==>
               RuleOutcome(rule, doc, ReadHeader(doc.header).value, rec) == Success([])
    ensures CheckSpec(doc, rule) == Success([])
  {
    var h := ReadHeader(doc.header).value;
    var recs := Records(doc, RootAnchor(rule));
    var os := Outcomes(rule, doc, h, recs);
    forall i | 0 <= i < |os| ensures os[i] == Success([]) {
      assert recs[i] in recs;
    }
    CollectConst(os, []);
    FlattenSilent(RootPath(rule), Collect(os).value);
  }

  /** Records that report nothing yield no findings. */
  lemma {:induction false} FlattenSilent(path: string, per: seq<seq<Message>>)
    requires forall i :: 0 <= i < |per| ==> per[i] == []
    ensures Flatten(path, per) == []
  {
    if per != [] {
      FlattenSilent(path, per[..|per| - 1]);
    }
  }

  // ---------------------------------------------------------------------
  // Worked examples
  // ---------------------------------------------------------------------

  /** Percentages inside every band report nothing; a pitzuim percentage of 9.0 reports that one category, above 8.33. */
  lemma BandExamples()
    ensures HafrashotSizeMessages([HafrashaEntry(1, 7.0), HafrashaEntry(2, 6.5), HafrashaEntry(3, 7.0)]) == []
    ensures HafrashotSizeMessages([HafrashaEntry(1, 9.0), HafrashaEntry(2, 6.5), HafrashaEntry(3, 7.0)])
         == [Message(SugOutOfRange(1), Above(Dec(9.0), Dec(8.33)))]
  {
    BandExample(7.0, 6.5, 7.0, []);
    BandExample(9.0, 6.5, 7.0, [Message(SugOutOfRange(1), Above(Dec(9.0), Dec(8.33)))]);
  }

  /** A pitzuim percentage `p` with in-band employee and employer percentages: only pitzuim can be reported. */
  lemma BandExample(p: real, p2: real, p3: real, expected: seq<Message>)
    requires 6.0 <= p2 <= 7.0 && 6.5 <= p3 <= 7.5
    requires expected == ExpectRange(Dec(6.0), Dec(p), Dec(8.33), SugOutOfRange(1))
    ensures HafrashotSizeMessages([HafrashaEntry(1, p), HafrashaEntry(2, p2), HafrashaEntry(3, p3)]) == expected
  {
    var h := [HafrashaEntry(1, p), HafrashaEntry(2, p2), HafrashaEntry(3, p3)];
    var h1, h2 := h[..1], h[..2];
    assert h2[..1] == h1 && h1[..0] == [] && h[..2] == h2;
    assert Percentages(h1) == map[1 := p];
    assert Percentages(h2) == map[1 := p, 2 := p2];
    var pcts := map[1 := p, 2 := p2, 3 := p3];
    assert Percentages(h) == pcts;
    assert DuplicateMessages(h1) == [];
    assert DuplicateMessages(h2) == [];
    assert DuplicateMessages(h) == [];
    assert CodeBand(pcts, 2) == [] && CodeBand(pcts, 3) == [];
  }

  /** Gross 1000, premium 50 and a nil-marked fee: net 950 reconciles, net 900 is reported. */
  lemma NetGrossExamples()
    ensures var nilFee := Mapping(map[Name("xsi:nil") := Text("true")]);
            var t := Takziv([LastHafkada(1000.0, 950.0, [])], [], YearlyTotals(0.0, 0.0, 0.0), [],
                            Expenses(Number(50.0), nilFee));
            NetGrossOutcome(t) == Success([])
    ensures var t := Takziv([LastHafkada(1000.0, 900.0, [])], [], YearlyTotals(0.0, 0.0, 0.0), [],
                            Expenses(Number(50.0), Number(20.0)));
            NetGrossOutcome(t) == Success([Message(NetMismatch(900.0, 1000.0, 50.0, 20.0), Plain)])
  {
    var nilFee := Mapping(map[Name("xsi:nil") := Text("true")]);
    assert nilFee.entries.Keys == {Name("xsi:nil")};
    assert EndsWith("xsi:nil", "nil");
    assert IsNilMarker(nilFee);
  }

  /** Born 1990-01-01: joining the same day is reported, joining the next day is not. */
  lemma JoinDateExamples(nechonut: string)
    ensures var birth := FormatDate(Date(1990, 1, 1));
            JoinDateOutcome(Polisa(nechonut, birth, []), Customer(birth))
              == Success([Message(JoinBeforeBirth, AtMost(Day(Date(1990, 1, 1)), Day(Date(1990, 1, 1))))])
    ensures var birth := FormatDate(Date(1990, 1, 1));
            JoinDateOutcome(Polisa(nechonut, FormatDate(Date(1990, 1, 2)), []), Customer(birth)) == Success([])
  {
    ParseFormatDate(Date(1990, 1, 1));
    ParseFormatDate(Date(1990, 1, 2));
  }
}
