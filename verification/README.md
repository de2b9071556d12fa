# Pension filing validator — a verified Dafny model

This project models the validation engine of a checker for decoded pension-product filings.
A filing carries a header (KoteretKovetz), a customer block and a list of policies
(HeshbonOPolisa). Each policy has budget blocks (PirteiTaktziv). Each budget block holds:

- its last deposit (PerutPirteiHafkadaAchrona);
- its year-to-date deposits (PerutHafkadotMetchilatShana);
- its yearly totals (HafkadotShnatiyot);
- its declared allocation percentages (PerutHafrashotLePolisa);
- its expenses (PerutHotzaot).

The engine has a catalogue of eight validators. Each validator is anchored at one repeated group.
It runs its rule on every record of that group. After each record it drains the problems it
collected into `(anchor path, record index, message)` findings. The catalogue concatenates the
findings of all validators in registration order. An exception abandons the whole document.

The project also models an earlier single-class checker. It runs three of the rules over every
budget block and appends its messages to one list, which it never clears.

Modules:

- **`Wrappers`** (`wrappers.dfy`): `Option`, `Result` and `Outcome`. Also `JoinAll` and `Collect`, which run
  a sequence of computations until the first one fails.
- **`Schema`** (`schema.dfy`), modelling `pension_checker/schema.py`:
  - the allocation categories and the regulatory band table;
  - `YYYYMMDD` and `YYYYMMDDHHMMSS` parsing, with the formatting that partners it;
  - the explicit-nil normaliser.
- **`Decoded`** (`decoded.dfy`):
  - the decoded filing as typed records;
  - the anchors of the repeated groups, with their paths and the records under them;
  - the aggregates the rules compute: sums, salary sets, months, declared percentages.
- **`Rules`** (`rules.dfy`): pure reference definitions.
  - The assertion primitives, as the messages they add.
  - What each rule reports for one record.
  - What one validator yields for a filing, and what the catalogue yields.
  - The properties of all of these.
- **`Checkers`** (`checkers.dfy`), modelling `pension_checker/checkers.py`:
  - class `Checker`, with its `problems` and `headers` fields;
  - the assertion methods and the eight per-record rule methods, including the dictionary-building loops;
  - the `Check` traversal and the static `AllChecks`.

  Each method is proved to compute the matching `Rules` definition.
- **`Legacy`** (`legacy.dfy`), modelling `validate.py`:
  - the rules of class `PensionChecker` as functions over a `Trace`, which records the messages
    appended and the error that ended the run early, if any;
  - the class itself, with nested loops proved against those functions;
  - lemmas relating its rules to the validator catalogue.

Conventions:

- Amounts and percentages are exact `real`s, standing for `Decimal` values.
- Dates are `Date` and `DateTime` values.
- Messages are tagged values that carry the operands they compare, not formatted text.
- Exceptions are failure values, not preconditions:
  - a date that does not parse;
  - a zero salary in the percentage division;
  - a deduction that is neither a number nor nil;
  - an empty PerutPirteiHafkadaAchrona;
  - a legacy percentage lookup for an undeclared category.

## Model

| member | source | states |
|---|---|---|
| Schema.SugHafrasha.Code | pension_checker/schema.py:7-12 | every category code is positive; 8 and 9 are exactly the two health-fund categories |
| Schema.SugFromCode | pension_checker/schema.py:7-12 | a code names a category iff it is one of 1, 2, 3, 8, 9, and the category found carries that code |
| Schema.CodeRoundTrip | pension_checker/schema.py:7-12 | each category is recovered from its own code |
| Schema.BandTable | pension_checker/schema.py:15-19 | the band table covers exactly pitzuim (1), tagmulim oved (2) and tagmulim maavid (3) and not 8 or 9; every band has min < max; its iteration order is 1, 2, 3 |
| Schema.ParseDate | pension_checker/schema.py:26-27 | a date is produced only from an 8-digit string and is a real calendar date: year 1..9999, month 1..12, day within the month, leap years included |
| Schema.ParseDateTime | pension_checker/schema.py:22-27 | a date-time is produced only from a 14-digit string with valid clock fields; its date part is what ParseDate reads from the first 8 characters |
| Schema.ParseFormatDate | pension_checker/schema.py:26-27 | every valid date is accepted back from its fixed-width text (parsing is complete for valid dates) |
| Schema.FormatParseDate | pension_checker/schema.py:26-27 | an accepted string is exactly the fixed-width text of the date read from it |
| Schema.ParseFormatDateTime | pension_checker/schema.py:22-23 | every valid date-time is accepted back from its fixed-width text |
| Schema.FormatParseDateTime | pension_checker/schema.py:22-23 | an accepted date-time string is exactly the text of the value read from it |
| Schema.FixNil | pension_checker/schema.py:30-36 | the result is `default` exactly when the element is a one-entry mapping whose key is a name ending in "nil", and the element itself in every other case |
| Schema.FixNilIdempotent | pension_checker/schema.py:30-36 | normalising twice equals normalising once when the default is not itself a nil marker |
| Decoded.SalarySetSingleton | pension_checker/checkers.py:105-107 | the set of salaries has exactly one element iff the itemisation is non-empty and every item carries the first item's salary |
| Decoded.SumForAbsent | pension_checker/checkers.py:131-138 | a category with no year-to-date entries sums to 0, as a defaultdict read does |
| Decoded.SumForPerturbed | pension_checker/checkers.py:131-134 | changing one entry's amount by delta moves its own category's sum by delta and no other category's sum |
| Decoded.MonthsHaveSalaries | pension_checker/checkers.py:117-120 | every salary month that occurs has at least one salary |
| Decoded.AscendingMonths | pension_checker/checkers.py:117-119 | the groups visited are the distinct salary months, strictly ascending, each exactly once |
| Decoded.PercentagesKeys | pension_checker/checkers.py:158-163 | a category is a key of the dictionary iff some entry declares it |
| Decoded.PercentagesKeepLast | pension_checker/checkers.py:160-163 | a repeated category keeps the percentage of its last entry |
| Decoded.RepeatCountPlusCategories | pension_checker/checkers.py:160-163 | entries = distinct categories + repeats |
| Rules.Expect | pension_checker/checkers.py:54-56 | one message exactly when the check fails, none otherwise |
| Rules.ExpectEq | pension_checker/checkers.py:58-60 | one message quoting both sides exactly when they differ |
| Rules.ExpectRange | pension_checker/checkers.py:62-66 | at most one message, exactly when value < min (a "below" message) or value > max (an "above" message) |
| Rules.ExpectGte | pension_checker/checkers.py:68-70 | one message exactly when left < right |
| Rules.ExpectGt | pension_checker/checkers.py:72-74 | one message exactly when left <= right |
| Rules.ExpectLte | pension_checker/checkers.py:76-78 | one message exactly when left > right |
| Rules.ExpectLt | pension_checker/checkers.py:80-82 | one message exactly when left >= right |
| Rules.LastHafkadaMessages | pension_checker/checkers.py:97-109 | exactly the sum message if the itemised amounts do not add up to TOTAL-HAFKADA, followed by the salary message if the salaries are not one uniform value, each at most once and in that order; an empty itemisation is reported |
| Rules.MonthMessages | pension_checker/checkers.py:117-124 | at most one message per visited month group (the next three lemmas state which and in what order) |
| Rules.MonthMessagesSound | pension_checker/checkers.py:117-124 | every message names a visited month whose salaries are not one value, and quotes that month's salary set |
| Rules.MonthMessagesComplete | pension_checker/checkers.py:117-124 | every visited month with other than one salary is reported |
| Rules.MonthMessagesOrdered | pension_checker/checkers.py:117-124 | months visited in ascending order give messages in ascending month order |
| Rules.HafkadotYtdMessages | pension_checker/checkers.py:115-124 | a month is reported iff it occurs and has more than one salary; each message is that month's message quoting its salary set; messages are in strictly ascending month order, so no month is reported twice |
| Rules.HafkadotYtdTotalMessages | pension_checker/checkers.py:130-151 | exactly the mismatch messages of categories 1, 2 and 3, in that order, each present iff that category's year-to-date sum differs from its reported yearly total |
| Rules.OtherCodesIgnored | pension_checker/checkers.py:130-151 | an entry of a category other than 1, 2, 3 changes nothing |
| Rules.PerturbedEntryReported | pension_checker/checkers.py:130-151 | on a reconciled block, changing one totalled entry by a nonzero amount yields exactly one message, for that entry's category |
| Rules.DuplicateMessages | pension_checker/checkers.py:160-162 | as many messages as entries that repeat an earlier category, each a duplicate naming a declared category |
| Rules.DuplicatesPerCategory | pension_checker/checkers.py:158-162 | each category gets one duplicate message per declaration after its first (declarations minus one for a declared category, none otherwise) |
| Rules.DuplicateMessagesPrefix | pension_checker/checkers.py:158-162 | the duplicates of the first n entries are a prefix of all the duplicates, so messages follow entry order |
| Rules.DuplicateReportedIffRepeated | pension_checker/checkers.py:158-162 | a category is reported as a duplicate iff two entries declare it |
| Rules.CodeBand | pension_checker/checkers.py:165-173 | one banded code's check: "missing" when undeclared, nothing inside the band, Below under the minimum, Above over the maximum |
| Rules.BandMessages | pension_checker/checkers.py:164-173 | no more messages than codes (Rules.BandMessagesSplit gives the per-code sequence) |
| Rules.BandMessagesSplit | pension_checker/checkers.py:164-173 | the band messages of a list of codes are each code's messages concatenated in the order of the codes |
| Rules.BandedCodesMessages | pension_checker/checkers.py:164-173 | the pension table is checked as codes 1, 2, 3, once each, in that order |
| Rules.HafrashotSizeMessages | pension_checker/checkers.py:157-173 | exactly the duplicate messages followed by the checks of codes 1, 2 and 3, in that order, at most one message each |
| Rules.BandMessagesExplained | pension_checker/checkers.py:164-173 | every band message is a "missing" for an undeclared code or an out-of-range for a declared code outside its band; every undeclared code is reported missing and every out-of-band code is reported |
| Rules.HafrashotSizeMissing | pension_checker/checkers.py:157-173 | a banded category is reported missing iff no entry declares it |
| Rules.HafrashotSizeRange | pension_checker/checkers.py:157-173 | a declared banded category is reported out of range iff its last declared percentage is outside its band |
| Rules.HafrashotSizeCount | pension_checker/checkers.py:157-173 | duplicates number entries minus distinct categories; the whole list has at most three further messages |
| Rules.BandExamples | pension_checker/checkers.py:157-173 | 7.0/6.5/7.0 report nothing; a pitzuim percentage of 9.0 reports only pitzuim, above 8.33 |
| Rules.BandExample | pension_checker/checkers.py:164-173 | for any employee percentage in [6.0, 7.0] and employer percentage in [6.5, 7.5], the result is exactly the pitzuim range check |
| Rules.EntryBandOutcome | pension_checker/checkers.py:182-197 | no band: nothing; a zero salary: a division failure; otherwise at most one message, none iff amount/salary·100 lies in the band; below the band a Below message and above it an Above message, each quoting the percentage and the bound |
| Rules.EntryBandCrossMultiplied | pension_checker/checkers.py:182-197 | for a positive salary, the band test holds iff min·salary <= 100·amount <= max·salary |
| Rules.NetGrossOutcome | pension_checker/checkers.py:203-216 | fails on an empty last-deposit list or a deduction that is neither a number nor nil; otherwise at most one message, none iff net = gross − premium − fee with nil deductions as 0, and the message quotes net, gross and both deductions; the premium is checked before the fee and the failure quotes the offending field |
| Rules.NetGrossExamples | pension_checker/checkers.py:203-216 | gross 1000, premium 50, nil fee: net 950 reconciles; with fee 20, net 900 is reported |
| Rules.NechonutOutcome | pension_checker/checkers.py:222-225 | fails iff the valuation date does not parse; otherwise a message iff the valuation date is after the header's execution date, quoting both dates; the failure names the unparsable date |
| Rules.JoinDateOutcome | pension_checker/checkers.py:231-237 | the birth date is parsed first, then the join date, and a failure names the first that does not parse; otherwise a message iff the join date is not strictly after the birth date, so equal dates are reported; the message quotes the join date and the birth date |
| Rules.JoinDateExamples | pension_checker/checkers.py:231-237 | born 1990-01-01: joining that day is reported, joining the next day is not |
| Rules.ReadHeader | pension_checker/checkers.py:30-32 | the header is read iff TAARICH-BITZUA parses, keeping SUG-MIMSHAK and the parsed date-time |
| Rules.RuleOutcome | pension_checker/checkers.py:34-42 | a record of another group than the rule's anchor gives the wrong-record error |
| Rules.RuleOutcomeFits | pension_checker/checkers.py:34-42 | the wrong-record error arises iff the record is of another group; the four rules without a raising path succeed exactly on the records of their own group |
| Rules.RootRecordsFit | pension_checker/checkers.py:34-35 | every record listed at a validator's anchor belongs to that group, so the rule never meets the wrong-record error |
| Rules.RunRecordsOutcome | pension_checker/checkers.py:34-37 | succeeds iff the rule succeeds on every record, giving each record's messages in order; otherwise fails with the error of the first record that fails |
| Rules.Flatten | pension_checker/checkers.py:34-38 | one finding per message; each finding carries the anchor path and the index of a record that reported its message; indices never decrease |
| Rules.FlattenAt | pension_checker/checkers.py:34-38 | message j of record i sits right after all messages of earlier records, at position (messages before i) + j |
| Rules.FlattenSilent | pension_checker/checkers.py:34-38 | records that report nothing yield no findings |
| Rules.CheckSpec | pension_checker/checkers.py:28-38 | a header that does not parse fails the validator with its error |
| Rules.NoRecordsNoFindings | pension_checker/checkers.py:28-38 | once the header is read, a validator with no records at its anchor yields no findings |
| Rules.CheckFindingsLocated | pension_checker/checkers.py:28-38 | every finding carries the validator's anchor path and the index of an existing record whose rule reported that message |
| Rules.SilentRecordsNoFindings | pension_checker/checkers.py:28-38 | a validator whose rule reports nothing on every record yields no findings |
| Rules.AllChecksSpec | pension_checker/checkers.py:44-52 | an empty catalogue yields no findings |
| Rules.AllChecksSingle | pension_checker/checkers.py:44-52 | a catalogue of one validator yields exactly that validator's result |
| Rules.AllChecksSucceed | pension_checker/checkers.py:44-52 | the catalogue succeeds iff every validator succeeds |
| Rules.AllChecksFirstFailure | pension_checker/checkers.py:44-52 | a failing catalogue run carries the error of the first validator that failed, all earlier validators having succeeded |
| Rules.AllChecksInOrder | pension_checker/checkers.py:44-52 | validator i's findings appear unchanged and contiguous, right after the findings of the validators before it |
| Checkers.Checker.constructor | pension_checker/checkers.py:23-26 | a fresh validator holds its document, no problems and no header context |
| Checkers.Checker.Report | pension_checker/checkers.py:84-85 | appends exactly the message |
| Checkers.Checker.Assert_ | pension_checker/checkers.py:54-56 | appends what Rules.Expect gives: one message iff the check fails |
| Checkers.Checker.AssertEq | pension_checker/checkers.py:58-60 | appends what Rules.ExpectEq gives |
| Checkers.Checker.AssertRange | pension_checker/checkers.py:62-66 | appends what Rules.ExpectRange gives |
| Checkers.Checker.AssertGte | pension_checker/checkers.py:68-70 | appends what Rules.ExpectGte gives |
| Checkers.Checker.AssertGt | pension_checker/checkers.py:72-74 | appends what Rules.ExpectGt gives |
| Checkers.Checker.AssertLte | pension_checker/checkers.py:76-78 | appends what Rules.ExpectLte gives |
| Checkers.Checker.AssertLt | pension_checker/checkers.py:80-82 | appends what Rules.ExpectLt gives |
| Checkers.Checker.CheckOneLastHafkada | pension_checker/checkers.py:97-109 | appends exactly Rules.LastHafkadaMessages |
| Checkers.Checker.CheckOneHafkadotYtd | pension_checker/checkers.py:115-124 | the loop over the sorted month groups appends exactly Rules.HafkadotYtdMessages |
| Checkers.Checker.CheckOneHafkadotYtdTotal | pension_checker/checkers.py:130-151 | the summing loop keeps each category's running sum equal to SumFor over the entries seen, then appends exactly Rules.HafkadotYtdTotalMessages |
| Checkers.Checker.CheckOneHafrashotSize | pension_checker/checkers.py:157-173 | the loop keeps the dictionary equal to Percentages of the entries seen and appends their duplicates; with the band loop it appends exactly Rules.HafrashotSizeMessages |
| Checkers.Checker.CheckBands | pension_checker/checkers.py:164-173 | the loop over categories 1, 2, 3 appends exactly Rules.BandMessages: a "missing" for each undeclared one, the range check for each declared one |
| Checkers.Checker.CheckOneHafrashotSizeInHafkadotYtd | pension_checker/checkers.py:182-197 | appends Rules.EntryBandOutcome's messages, or raises its division failure having appended nothing |
| Checkers.Checker.CheckOneTotalHafkadaParts | pension_checker/checkers.py:203-216 | appends Rules.NetGrossOutcome's messages, or raises its failure having appended nothing |
| Checkers.Checker.CheckOneNechonutDate | pension_checker/checkers.py:222-225 | appends Rules.NechonutOutcome's messages against the cached execution date, or raises its failure |
| Checkers.Checker.CheckOneJoinDate | pension_checker/checkers.py:231-237 | appends Rules.JoinDateOutcome's messages against the customer block, or raises its failure |
| Checkers.Checker.CheckOne | pension_checker/checkers.py:40-42 | the validator's own rule applied to a record: it appends or fails exactly as Rules.RuleOutcome says |
| Checkers.Checker.Check | pension_checker/checkers.py:28-38 | returns exactly Rules.CheckSpec; on success the accumulator is empty again; the header context is the header read from the document whenever its execution date parses, and unchanged otherwise; the loop keeps findings = Flatten of the per-record messages so far |
| Checkers.Checker.AllChecks | pension_checker/checkers.py:44-52 | runs a fresh validator per registered rule in order and returns exactly Rules.AllChecksSpec |
| Legacy.LastMessages | validate.py:42-49 | exactly the sum message if the itemised amounts differ from TOTAL-HAFKADA, followed by the salary message if the salaries are not one uniform value, in that order |
| Legacy.LastHafkadaRun | validate.py:35-49 | only element 0 of PerutPirteiHafkadaAchrona is inspected; an empty list ends the run with nothing appended |
| Legacy.YtdTotalMessages | validate.py:51-73 | exactly the mismatch messages of categories 1, 2 and 3, in that order, each present iff that category's sum differs from its yearly total |
| Legacy.DuplicateMessages | validate.py:79-84 | one duplicate message per repeated entry |
| Legacy.EntriesRun | validate.py:89-101 | finishes iff every entry's category is declared; otherwise ends at the first undeclared one with its category; at most one message per entry |
| Legacy.PercentageRun | validate.py:75-101 | finishes iff every entry's category is declared; otherwise ends with the undeclared category of an entry |
| Legacy.PercentageRunReports | validate.py:75-87 | the run starts with the duplicates, one per repeat, and reports "missing" once iff some of 1, 2, 3 is undeclared |
| Legacy.EntriesReported | validate.py:89-101 | with every category declared, the entries reported are exactly those whose amount differs from pct·salary/100, one message each |
| Legacy.PredictedIsPercentage | validate.py:95-101 | for a nonzero salary, amount = pct·salary/100 iff amount/salary·100 = pct |
| Legacy.TakzivRun | validate.py:28-32 | a block's run starts with its year-to-date totals; it ends early with the missing-last-deposit error when there is no last deposit; it finishes iff there is one and the percentage run finishes |
| Legacy.PolisotRun | validate.py:22-33 | no policies: nothing reported; one policy: exactly the run of its budget blocks in order |
| Legacy.PolisotRunFinishes | validate.py:22-33 | the run finishes iff the run of every budget block of every policy does |
| Legacy.MissingLastHafkadaStops | validate.py:26-41 | a block with no last deposit ends the run right after its year-to-date totals are reported |
| Legacy.StopsAtTakziv | validate.py:22-33 | when a block ends early, the whole run ends with its error, after the messages of everything before it and its own |
| Legacy.LastHafkadaAgrees | validate.py:35-49 | on the same last deposit, the legacy rule and CheckLastHafkada report the same problems |
| Legacy.YtdTotalsAgree | validate.py:51-73 | on the same block, the legacy totals rule and CheckHafkadotYtdTotal report the same categories |
| Legacy.DuplicatesAgree | validate.py:77-84 | both percentage rules emit equally many duplicate messages, one per entry that repeats an earlier category |
| Legacy.PensionChecker.constructor | validate.py:18-20 | a fresh checker holds the document and no messages |
| Legacy.PensionChecker.Assert | validate.py:103-105 | appends the message iff the check fails, and nothing else |
| Legacy.PensionChecker.CheckLastHafkada | validate.py:35-49 | appends LastHafkadaRun's messages and passes, or fails with nothing appended |
| Legacy.PensionChecker.CheckHafkadotYtd | validate.py:51-73 | the summing loop keeps each running sum equal to SumFor over the entries seen; appends exactly YtdTotalMessages |
| Legacy.PensionChecker.CheckHafrashotPercentage | validate.py:75-101 | the duplicate loop keeps the dictionary equal to Percentages of the entries seen; with the entry loop it appends PercentageRun's messages, and on a lookup failure stops with the messages reported before it |
| Legacy.PensionChecker.CheckEntries | validate.py:89-101 | the entry loop appends EntriesRun's messages and passes, or stops at the first undeclared category with the messages of the entries before it |
| Legacy.PensionChecker.Check | validate.py:22-33 | appends PolisotRun's messages to whatever was there (never cleared); returns the whole message list, or the error that ended the run, keeping the messages reported before it |

## Left out

- Command-line handling, directory enumeration, CSV writing and the per-file error logging are not part of this model. This covers `pension_checker/__main__.py` and `main` in validate.py. They are I/O.
- Schema decoding with `xmlschema` is a foreign call, and so is `get_path`. The filing is given as typed records instead.
  - Only one YeshutYatzran/Mutzar is modelled.
  - String-path lookup through `get_path` is not modelled. A validator's root is an `Anchor` value whose records `Decoded.Records` lists. The header (checkers.py:30) and the customer block (checkers.py:232) are fields of the typed document.
  - A field missing from a decoded mapping is not modelled. The types guarantee every field.
- Discovery of the validators through `__subclasses__()` is replaced by the fixed `Rules.Registry`, in definition order.
- Message text is not modelled: the Hebrew sentences, the number formatting (`{value:.4}`) and the unbalanced parentheses. Messages are tagged values with their operands.
- `Decimal` arithmetic is exact `real` arithmetic. The division at pension_checker/checkers.py:190 rounds to 28 significant digits in the source. The model divides exactly.
- `strptime` also accepts unpadded fields. Only fixed-width ASCII digit strings are modelled. On those, the accepted strings are exactly the valid dates.
- Logging is left out.
- SUG-MIMSHAK is stored in the header context and never read.
- Checkers.Checker.Check requires an empty accumulator, which a freshly constructed validator has. This is how the catalogue uses it.
- Checkers.Checker.Check does not state the accumulator after a failure. The failure abandons the validator instance.
- Checkers.Checker.Check stores the header context only once the execution date has parsed. The source stores SUG-MIMSHAK first, and then the parse can fail.
- Legacy.PensionChecker.Check covers only the one product list of the typed filing. The source indexes `YeshutYatzran[0]` and `Mutzar[0]`.
