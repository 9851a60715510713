/** Unit economics of an offer, and the three-step setup assessment built on the reported fields. */
module LaunchEconomics {
  import opened LaunchTerms
  import opened Options
  import opened Texts
  import Intervals

  datatype Economics = Economics(
    price: int, variableCost: int, contribution: int, firstSaleNet: int, tenSalesNet: int,
    breakEvenSales: Option<int>, nonPositiveContribution: bool)

  const VARIABLE_COST_FIELDS: seq<Name> := [DeliveryCostMinor, ProviderFeeMinor, AgentCostMinor, AcquisitionCostMinor]

  function Amount(terms: Json, field: Name): int { if terms.NumAt(field) then terms.at[field].n else 0 }

  function Total(terms: Json, fields: seq<Name>): int {
    if fields == [] then 0 else Amount(terms, fields[0]) + Total(terms, fields[1..])
  }

  function CalculateLaunchEconomics(terms: Json): Economics {
    var variableCost := Total(terms, VARIABLE_COST_FIELDS);
    var contribution := Amount(terms, PriceMinor) - variableCost;
    var fixedCost := Amount(terms, FixedCostMinor);
    Economics(Amount(terms, PriceMinor), variableCost, contribution, contribution - fixedCost,
      contribution * 10 - fixedCost,
      if contribution > 0 then Some(Intervals.CeilDiv(fixedCost, contribution)) else None, contribution <= 0)
  }

  /** What is left after a number of sales: each brings the price less its four costs, and the fixed cost comes once. */
  function NetAfter(terms: Json, sales: int): int {
    sales * (Amount(terms, PriceMinor) - Amount(terms, DeliveryCostMinor) - Amount(terms, ProviderFeeMinor)
             - Amount(terms, AgentCostMinor) - Amount(terms, AcquisitionCostMinor)) - Amount(terms, FixedCostMinor)
  }

  lemma FourCosts(terms: Json)
    ensures Total(terms, VARIABLE_COST_FIELDS)
      == Amount(terms, DeliveryCostMinor) + Amount(terms, ProviderFeeMinor) + Amount(terms, AgentCostMinor)
         + Amount(terms, AcquisitionCostMinor)
  {
    hide Amount;
    assert VARIABLE_COST_FIELDS[1..] == [ProviderFeeMinor, AgentCostMinor, AcquisitionCostMinor];
    assert [ProviderFeeMinor, AgentCostMinor, AcquisitionCostMinor][1..] == [AgentCostMinor, AcquisitionCostMinor];
    assert [AgentCostMinor, AcquisitionCostMinor][1..] == [AcquisitionCostMinor];
    assert [AcquisitionCostMinor][1..] == [] && Total(terms, []) == 0;
    assert Total(terms, [AcquisitionCostMinor]) == Amount(terms, AcquisitionCostMinor);
    assert Total(terms, [AgentCostMinor, AcquisitionCostMinor])
        == Amount(terms, AgentCostMinor) + Amount(terms, AcquisitionCostMinor);
  }

  /**
   Break-even is the least number of sales that leaves nothing owing; there is none exactly when a sale earns
   nothing.
   */
  lemma BreakEvenIsLeast(terms: Json)
    requires ValidTerms(terms)
    ensures var e := CalculateLaunchEconomics(terms);
      && (e.breakEvenSales.None? <==> NetAfter(terms, 1) <= NetAfter(terms, 0))
      && (e.nonPositiveContribution <==> NetAfter(terms, 1) <= NetAfter(terms, 0))
      && (e.breakEvenSales.Some? ==>
            && e.breakEvenSales.value >= 0 && NetAfter(terms, e.breakEvenSales.value) >= 0
            && forall n :: NetAfter(terms, n) >= 0 ==> n >= e.breakEvenSales.value)
      && e.firstSaleNet == NetAfter(terms, 1) && e.tenSalesNet == NetAfter(terms, 10)
      && e.price == Amount(terms, PriceMinor) && e.price - e.variableCost == e.contribution
      && e.contribution == NetAfter(terms, 1) - NetAfter(terms, 0)
  {
    FixedCostIsNotNegative(terms);
    FourCosts(terms);
    hide ValidTerms, Total, Amount;
    var e := CalculateLaunchEconomics(terms);
    var (fixedCost, c) := (Amount(terms, FixedCostMinor), e.contribution);
    assert forall n :: NetAfter(terms, n) == n * c - fixedCost;
    if c > 0 {
      var least := e.breakEvenSales.value;
      Intervals.CeilDivIsLeast(fixedCost, c, least);
      Intervals.CeilDivIsLeast(fixedCost, c, -1);
      assert -1 * c == -c;
      forall n | NetAfter(terms, n) >= 0 ensures n >= least {
        Intervals.CeilDivIsLeast(fixedCost, c, n);
      }
    }
  }

  lemma FixedCostIsNotNegative(terms: Json)
    requires ValidTerms(terms)
    ensures Amount(terms, FixedCostMinor) >= 0
  {
    assert CHECK_ORDER[10] == FixedCostMinor;
    assert FieldOk(terms, CHECK_ORDER[10]);
  }

  // ---------------------------------------------------------------- setup

  datatype Status = Draft | Reviewable | ReviseCostsOrPrice

  /** The fields each step still needs, and the overall status. */
  datatype Setup = Setup(status: Status, describe: seq<Name>, identity: seq<Name>, economics: seq<Name>,
    result: Option<Economics>)

  function Missing(keys: seq<Name>, fields: seq<Name>): seq<Name> {
    if keys == [] then []
    else Missing(keys[..|keys| - 1], fields) + (if keys[|keys| - 1] in fields then [keys[|keys| - 1]] else [])
  }

  lemma {:induction false} MissingMeaning(keys: seq<Name>, fields: seq<Name>, f: Name)
    ensures f in Missing(keys, fields) <==> f in keys && f in fields
  {
    if keys != [] {
      MissingMeaning(keys[..|keys| - 1], fields, f);
      assert keys == keys[..|keys| - 1] + [keys[|keys| - 1]];
    }
  }

  predicate TitleOk(title: Option<string>) {
    title.Some? && Trim(title.value) != "" && Utf16Length(title.value) <= 120
  }

  /** The assessment shown while an offer is edited. */
  method EvaluateOfferSetup(title: Option<string>, launch: Json) returns (setup: Setup)
    ensures setup.status.Reviewable? <==>
      ValidTerms(launch) && TitleOk(title) && CalculateLaunchEconomics(launch).contribution > 0
    ensures setup.status.Draft? <==> !ValidTerms(launch) || !TitleOk(title)
    ensures setup.describe == [] && setup.identity == [] && setup.economics == [] <==> setup.status.Reviewable?
    ensures !setup.status.Draft? ==> setup.result == Some(CalculateLaunchEconomics(launch))
    ensures setup.identity == Missing(ID_FIELDS, InvalidFields(launch))
    ensures setup.describe
      == (if TitleOk(title) then [] else [Title]) + Missing(DESCRIPTION_FIELDS, InvalidFields(launch))
      + (if InvalidFields(launch) == [Launch] then [Launch] else [])
  {
    var fields := InvalidLaunchFields(launch);
    StepsCoverFields(launch);
    hide FieldOk, Missing, Failing, ValidTerms, InvalidFields, CalculateLaunchEconomics, TitleOk;
    EconomicsFlag(launch);
    var describe := Missing(DESCRIPTION_FIELDS, fields);
    if !TitleOk(title) { describe := [Title] + describe; }
    if |fields| == 1 && fields[0] == Launch { describe := describe + [Launch]; }
    var identity := Missing(ID_FIELDS, fields);
    var money := Missing([Currency] + MONEY_FIELDS, fields);
    var economics := if money != [] then None else Some(CalculateLaunchEconomics(launch));
    if economics.Some? && economics.value.nonPositiveContribution { money := money + [PriceMinor]; }
    var status :=
      if fields != [] || describe != [] then Draft
      else if economics.value.contribution > 0 then Reviewable
      else ReviseCostsOrPrice;
    setup := Setup(status, describe, identity, money, economics);
  }

  lemma EconomicsFlag(launch: Json)
    ensures CalculateLaunchEconomics(launch).nonPositiveContribution <==>
      CalculateLaunchEconomics(launch).contribution <= 0
  {
  }

  /** A step still needs those of its fields that fail their check. */
  lemma MissingOfReported(launch: Json, keys: seq<Name>, f: Name)
    requires keys == DESCRIPTION_FIELDS || keys == ID_FIELDS || keys == [Currency] + MONEY_FIELDS
    ensures f in Missing(keys, InvalidFields(launch)) <==> f in keys && !FieldOk(launch, f)
  {
    hide FieldOk, Failing;
    MissingMeaning(keys, InvalidFields(launch), f);
    FailingMeaning(launch, CHECK_ORDER, f);
    assert CHECK_ORDER == ID_FIELDS + DESCRIPTION_FIELDS + ([Currency] + MONEY_FIELDS);
  }

  ghost predicate AllOk(launch: Json, keys: seq<Name>) { forall f :: f in keys ==> FieldOk(launch, f) }

  lemma NothingMissing(launch: Json, keys: seq<Name>)
    requires keys == DESCRIPTION_FIELDS || keys == ID_FIELDS || keys == [Currency] + MONEY_FIELDS
    ensures Missing(keys, InvalidFields(launch)) == [] <==> AllOk(launch, keys)
  {
    var missing := Missing(keys, InvalidFields(launch));
    forall f ensures f in missing <==> f in keys && !FieldOk(launch, f) {
      MissingOfReported(launch, keys, f);
    }
    hide FieldOk, Missing, InvalidFields;
    assert missing != [] ==> missing[0] in missing;
  }

  lemma NothingFails(launch: Json)
    ensures AllOk(launch, CHECK_ORDER) <==> InvalidFields(launch) == [] || InvalidFields(launch) == [Launch]
  {
    hide FieldOk, Failing, TermsShape;
    var failing := Failing(launch, CHECK_ORDER);
    forall f ensures f in failing <==> f in CHECK_ORDER && !FieldOk(launch, f) {
      FailingMeaning(launch, CHECK_ORDER, f);
    }
    LaunchIsNoField();
    OnlyLaunch(TermsShape(launch), failing);
  }

  lemma LaunchIsNoField()
    ensures Launch !in CHECK_ORDER
  {
    assert CHECK_ORDER
        == [MerchantId, AgentId, Audience, Outcome, Currency, PriceMinor, DeliveryCostMinor, ProviderFeeMinor,
            AgentCostMinor, AcquisitionCostMinor, FixedCostMinor];
  }

  lemma OnlyLaunch(shaped: bool, failing: seq<Name>)
    requires Launch !in failing
    ensures var fields := (if shaped then [] else [Launch]) + failing;
      (fields == [] || fields == [Launch]) <==> forall f :: f !in failing
  {
    assert failing != [] ==> failing[0] in failing;
    if failing != [] && shaped { assert ([] + failing)[0] == failing[0]; }
    if failing != [] && !shaped { assert |[Launch] + failing| > 1; }
    if failing == [] { assert [] + failing == [] && [Launch] + failing == [Launch]; }
  }

  lemma OkTogether(launch: Json, a: seq<Name>, b: seq<Name>)
    ensures AllOk(launch, a + b) <==> AllOk(launch, a) && AllOk(launch, b)
  {
    hide FieldOk;
    assert forall f :: f in a + b <==> f in a || f in b;
  }

  /**
   The three steps share out all fields: none of them needs one exactly when at most the launch as a whole is
   reported.
   */
  lemma StepsCoverFields(launch: Json)
    ensures var fields := InvalidFields(launch);
      Missing(DESCRIPTION_FIELDS, fields) == [] && Missing(ID_FIELDS, fields) == []
        && Missing([Currency] + MONEY_FIELDS, fields) == []
      <==> fields == [] || fields == [Launch]
  {
    NothingFails(launch);
    NothingMissing(launch, DESCRIPTION_FIELDS);
    NothingMissing(launch, ID_FIELDS);
    NothingMissing(launch, [Currency] + MONEY_FIELDS);
    assert CHECK_ORDER == ID_FIELDS + DESCRIPTION_FIELDS + ([Currency] + MONEY_FIELDS);
    hide FieldOk, Failing, Missing, AllOk, InvalidFields;
    OkTogether(launch, ID_FIELDS, DESCRIPTION_FIELDS);
    OkTogether(launch, ID_FIELDS + DESCRIPTION_FIELDS, [Currency] + MONEY_FIELDS);
  }
}
