/** The takeover cash model: cash to close, location exposure, shortfall and operating difference as intervals. */
module TakeoverModel {
  import opened Integers
  import opened Intervals
  import opened Options

  datatype Field =
    | PurchasePrice | TransitionCosts | AssetSetupCosts | ProfessionalCosts | ReinvestmentCosts
    | MonthlyOperatingCosts | WorkingCapitalMonths | LocationDeposit | LocationMonthlyCost | LocationTermMonths
    | AvailableCash | MonthlyRevenue | CurrencyCode | LocationObligation

  datatype Obligation = Applies | NotApplicable | Unknown

  /** Validated inputs: amounts and counts as intervals, with the currency code and the location obligation apart. */
  datatype Inputs = Inputs(amounts: map<Field, Range>, currency: Option<string>, obligation: Option<Obligation>)

  /** One billion, in ten-thousandths. */
  const MAX_MONEY := 1_000_000_000_0000
  const MAX_COUNT := 1200
  const ZERO := Some(Range(0, 0))
  const UPFRONT := [PurchasePrice, TransitionCosts, AssetSetupCosts, ProfessionalCosts, ReinvestmentCosts]

  predicate IsCount(f: Field) { f == WorkingCapitalMonths || f == LocationTermMonths }

  /** Money is an interval on the grid within the limit, a count a single whole number. */
  predicate ValidAmount(f: Field, r: Range) {
    if IsCount(f) then 0 <= r.low == r.high <= MAX_COUNT else 0 <= r.low <= r.high <= MAX_MONEY
  }

  ghost predicate Valid(inputs: Inputs) {
    forall f :: f in inputs.amounts ==> ValidAmount(f, inputs.amounts[f])
  }

  predicate IsCurrency(s: string) { |s| == 3 && forall i :: 0 <= i < 3 ==> 'A' <= s[i] <= 'Z' }

  function Amount(inputs: Inputs, f: Field): Option<Range> {
    if f in inputs.amounts then Some(inputs.amounts[f]) else None
  }

  // ---------------------------------------------------------------- missing inputs

  predicate IsMissing(inputs: Inputs, f: Field) {
    if f == CurrencyCode then inputs.currency.None? || !IsCurrency(inputs.currency.value)
    else if f == LocationObligation then inputs.obligation.None? || inputs.obligation.value.Unknown?
    else f !in inputs.amounts
  }

  predicate LocationApplies(inputs: Inputs) { inputs.obligation == Some(Applies) }

  /** The missing ones of a list of fields, each once, in order. */
  function Missing(inputs: Inputs, fields: seq<Field>): (r: seq<Field>)
    ensures forall f :: f in r <==> f in fields && IsMissing(inputs, f)
  {
    if fields == [] then []
    else
      var init, last := Missing(inputs, fields[..|fields| - 1]), fields[|fields| - 1];
      assert fields == fields[..|fields| - 1] + [last];
      if IsMissing(inputs, last) && last !in init then init + [last] else init
  }

  function CloseKeys(inputs: Inputs): seq<Field> {
    UPFRONT + [MonthlyOperatingCosts, WorkingCapitalMonths, CurrencyCode, LocationObligation]
    + if LocationApplies(inputs) then [LocationDeposit, LocationMonthlyCost] else []
  }

  function ShortfallKeys(inputs: Inputs): seq<Field> { CloseKeys(inputs) + [AvailableCash, CurrencyCode] }

  function DifferenceKeys(inputs: Inputs): seq<Field> {
    [MonthlyRevenue, MonthlyOperatingCosts, LocationObligation, CurrencyCode]
    + if LocationApplies(inputs) then [LocationMonthlyCost] else []
  }

  const EXPOSURE_KEYS := [LocationMonthlyCost, LocationTermMonths, CurrencyCode]

  // ---------------------------------------------------------------- the model

  function MonthlyCosts(inputs: Inputs): Option<Range> {
    Add(Amount(inputs, MonthlyOperatingCosts),
      if LocationApplies(inputs) then Amount(inputs, LocationMonthlyCost) else ZERO)
  }

  /** The upfront amounts added one after the other, from zero. */
  function Upfront(inputs: Inputs): Option<Range> {
    var price := Add(ZERO, Amount(inputs, PurchasePrice));
    var transition := Add(price, Amount(inputs, TransitionCosts));
    var setup := Add(transition, Amount(inputs, AssetSetupCosts));
    var professional := Add(setup, Amount(inputs, ProfessionalCosts));
    Add(professional, Amount(inputs, ReinvestmentCosts))
  }

  function ClosingCosts(inputs: Inputs): Option<Range> {
    var upfront := Upfront(inputs);
    if upfront.Some? && LocationApplies(inputs) then Add(upfront, Amount(inputs, LocationDeposit)) else upfront
  }

  function CashToClose(inputs: Inputs): Option<Range> {
    if Missing(inputs, CloseKeys(inputs)) != [] then None
    else
      var cash := ClosingCosts(inputs);
      var monthly := if cash.Some? then MonthlyCosts(inputs) else None;
      if cash.Some? && monthly.Some? then Add(cash, Multiply(monthly, Amount(inputs, WorkingCapitalMonths))) else None
  }

  function LocationExposure(inputs: Inputs): Option<Range> {
    if !LocationApplies(inputs) || Missing(inputs, EXPOSURE_KEYS) != [] then None
    else Multiply(Amount(inputs, LocationMonthlyCost), Amount(inputs, LocationTermMonths))
  }

  function CashShortfall(inputs: Inputs): Option<Range> {
    if Missing(inputs, ShortfallKeys(inputs)) == [] && CashToClose(inputs).Some?
    then PositivePart(Subtract(CashToClose(inputs), Amount(inputs, AvailableCash)))
    else None
  }

  function OperatingDifference(inputs: Inputs): Option<Range> {
    var costs := if Missing(inputs, DifferenceKeys(inputs)) == [] then MonthlyCosts(inputs) else None;
    if costs.Some? then Subtract(Amount(inputs, MonthlyRevenue), costs) else None
  }

  // ---------------------------------------------------------------- the plain formulas at one choice of points

  type Point = map<Field, int>

  ghost predicate Choice(inputs: Inputs, p: Point) {
    forall f :: f in inputs.amounts ==> f in p && In(inputs.amounts[f], p[f])
  }

  function At(p: Point, f: Field): int { if f in p then p[f] else 0 }

  function MonthlyCostsAt(p: Point, applies: bool): int {
    At(p, MonthlyOperatingCosts) + if applies then At(p, LocationMonthlyCost) else 0
  }

  function UpfrontAt(p: Point): int {
    At(p, PurchasePrice) + At(p, TransitionCosts) + At(p, AssetSetupCosts) + At(p, ProfessionalCosts)
      + At(p, ReinvestmentCosts)
  }

  function ClosingCostsAt(p: Point, applies: bool): int {
    UpfrontAt(p) + if applies then At(p, LocationDeposit) else 0
  }

  /** The monthly costs of the working-capital period. */
  function ReserveAt(p: Point, applies: bool): int { MonthlyCostsAt(p, applies) * At(p, WorkingCapitalMonths) }

  function CashAt(p: Point, applies: bool): int {
    ClosingCostsAt(p, applies) + ReserveAt(p, applies)
  }

  ghost function CashValues(inputs: Inputs): iset<int> {
    iset p | Choice(inputs, p) :: CashAt(p, LocationApplies(inputs))
  }

  ghost function ExposureValues(inputs: Inputs): iset<int> {
    iset p | Choice(inputs, p) :: At(p, LocationMonthlyCost) * At(p, LocationTermMonths)
  }

  ghost function ShortfallValues(inputs: Inputs): iset<int> {
    iset p | Choice(inputs, p) :: Max(0, CashAt(p, LocationApplies(inputs)) - At(p, AvailableCash))
  }

  ghost function DifferenceValues(inputs: Inputs): iset<int> {
    iset p | Choice(inputs, p) :: At(p, MonthlyRevenue) - MonthlyCostsAt(p, LocationApplies(inputs))
  }

  function Lows(inputs: Inputs): Point { map f | f in inputs.amounts :: inputs.amounts[f].low }

  function Highs(inputs: Inputs): Point { map f | f in inputs.amounts :: inputs.amounts[f].high }

  lemma EndsAreChoices(inputs: Inputs)
    requires Valid(inputs)
    ensures Choice(inputs, Lows(inputs)) && Choice(inputs, Highs(inputs))
  {
    assert forall f :: f in inputs.amounts ==> ValidAmount(f, inputs.amounts[f]);
  }

  // ---------------------------------------------------------------- exactness

  lemma NothingMissing(inputs: Inputs, fields: seq<Field>)
    requires Missing(inputs, fields) == []
    ensures forall f :: f in fields ==> !IsMissing(inputs, f)
  {
    forall f | f in fields ensures !IsMissing(inputs, f) {
      assert f in Missing(inputs, fields) <==> IsMissing(inputs, f);
    }
  }

  /** Whether any field is missing, from the list of missing ones. */
  lemma MissingNone(inputs: Inputs, fields: seq<Field>)
    ensures Missing(inputs, fields) == [] <==> forall f :: f in fields ==> !IsMissing(inputs, f)
  {
    var missing := Missing(inputs, fields);
    if missing == [] {
      NothingMissing(inputs, fields);
    } else {
      assert missing[0] in missing;
    }
  }

  lemma KeyPresent(inputs: Inputs, keys: seq<Field>, i: nat)
    requires Missing(inputs, keys) == [] && i < |keys|
    ensures !IsMissing(inputs, keys[i])
  {
    NothingMissing(inputs, keys);
    assert keys[i] in keys;
  }

  lemma ClosePresent(inputs: Inputs)
    requires Missing(inputs, CloseKeys(inputs)) == []
    ensures UpfrontPresent(inputs)
    ensures MonthlyOperatingCosts in inputs.amounts && WorkingCapitalMonths in inputs.amounts
    ensures LocationApplies(inputs) ==> LocationDeposit in inputs.amounts && LocationMonthlyCost in inputs.amounts
  {
    var keys := CloseKeys(inputs);
    KeyPresent(inputs, keys, 0);
    KeyPresent(inputs, keys, 1);
    KeyPresent(inputs, keys, 2);
    KeyPresent(inputs, keys, 3);
    KeyPresent(inputs, keys, 4);
    KeyPresent(inputs, keys, 5);
    KeyPresent(inputs, keys, 6);
    if LocationApplies(inputs) {
      KeyPresent(inputs, keys, 9);
      KeyPresent(inputs, keys, 10);
    }
  }

  lemma ShortfallPresent(inputs: Inputs)
    requires Missing(inputs, ShortfallKeys(inputs)) == []
    ensures Missing(inputs, CloseKeys(inputs)) == [] && AvailableCash in inputs.amounts
  {
    var keys, close := ShortfallKeys(inputs), CloseKeys(inputs);
    KeyPresent(inputs, keys, |close|);
    forall f | f in close ensures !IsMissing(inputs, f) {
      var i :| 0 <= i < |close| && close[i] == f;
      KeyPresent(inputs, keys, i);
    }
    MissingNone(inputs, close);
  }

  lemma DifferencePresent(inputs: Inputs)
    requires Missing(inputs, DifferenceKeys(inputs)) == []
    ensures MonthlyRevenue in inputs.amounts && MonthlyOperatingCosts in inputs.amounts
    ensures LocationApplies(inputs) ==> LocationMonthlyCost in inputs.amounts
  {
    var keys := DifferenceKeys(inputs);
    KeyPresent(inputs, keys, 0);
    KeyPresent(inputs, keys, 1);
    if LocationApplies(inputs) { KeyPresent(inputs, keys, 4); }
  }

  lemma ExposurePresent(inputs: Inputs)
    requires Missing(inputs, EXPOSURE_KEYS) == []
    ensures LocationMonthlyCost in inputs.amounts && LocationTermMonths in inputs.amounts
  {
    KeyPresent(inputs, EXPOSURE_KEYS, 0);
    KeyPresent(inputs, EXPOSURE_KEYS, 1);
  }

  lemma MonthlyCostsExact(inputs: Inputs)
    requires Valid(inputs) && MonthlyOperatingCosts in inputs.amounts
    requires LocationApplies(inputs) ==> LocationMonthlyCost in inputs.amounts
    ensures var applies := LocationApplies(inputs);
      && MonthlyCosts(inputs)
        == Some(Range(MonthlyCostsAt(Lows(inputs), applies), MonthlyCostsAt(Highs(inputs), applies)))
      && 0 <= MonthlyCostsAt(Lows(inputs), applies) <= MonthlyCostsAt(Highs(inputs), applies) <= 2 * MAX_MONEY
  {
    var a := inputs.amounts[MonthlyOperatingCosts];
    assert ValidAmount(MonthlyOperatingCosts, a);
    if LocationApplies(inputs) {
      assert ValidAmount(LocationMonthlyCost, inputs.amounts[LocationMonthlyCost]);
      AddEnds(a, inputs.amounts[LocationMonthlyCost]);
    } else {
      AddEnds(a, Range(0, 0));
    }
  }

  lemma ProductBounds(low: int, high: int, n: nat)
    requires 0 <= low <= high <= 2 * MAX_MONEY && n <= MAX_COUNT
    ensures 0 <= low * n <= high * n <= 2400 * MAX_MONEY
  {
    ScaledOrder(0, low, high, n);
    ScaledOrder(low, high, 2 * MAX_MONEY, n);
    ScaledOrder(0, n, MAX_COUNT, 2 * MAX_MONEY);
  }

  ghost predicate UpfrontPresent(inputs: Inputs) {
    && PurchasePrice in inputs.amounts && TransitionCosts in inputs.amounts && AssetSetupCosts in inputs.amounts
    && ProfessionalCosts in inputs.amounts && ReinvestmentCosts in inputs.amounts
  }

  lemma AddAmount(inputs: Inputs, total: Range, f: Field)
    requires Valid(inputs) && f in inputs.amounts && !IsCount(f)
    requires 0 <= total.low <= total.high <= 8 * MAX_MONEY
    ensures Add(Some(total), Amount(inputs, f))
      == Some(Range(total.low + At(Lows(inputs), f), total.high + At(Highs(inputs), f)))
    ensures 0 <= At(Lows(inputs), f) <= At(Highs(inputs), f) <= MAX_MONEY
  {
    assert ValidAmount(f, inputs.amounts[f]);
    AddEnds(total, inputs.amounts[f]);
  }

  lemma UpfrontEnds(inputs: Inputs)
    requires Valid(inputs) && UpfrontPresent(inputs)
    ensures Upfront(inputs) == Some(Range(UpfrontAt(Lows(inputs)), UpfrontAt(Highs(inputs))))
    ensures 0 <= UpfrontAt(Lows(inputs)) <= UpfrontAt(Highs(inputs)) <= 8 * MAX_MONEY
  {
    AddAmount(inputs, Range(0, 0), PurchasePrice);
    var price := Add(ZERO, Amount(inputs, PurchasePrice));
    AddAmount(inputs, price.value, TransitionCosts);
    var transition := Add(price, Amount(inputs, TransitionCosts));
    AddAmount(inputs, transition.value, AssetSetupCosts);
    var setup := Add(transition, Amount(inputs, AssetSetupCosts));
    AddAmount(inputs, setup.value, ProfessionalCosts);
    var professional := Add(setup, Amount(inputs, ProfessionalCosts));
    AddAmount(inputs, professional.value, ReinvestmentCosts);
  }

  lemma ClosingCostsEnds(inputs: Inputs)
    requires Valid(inputs) && Missing(inputs, CloseKeys(inputs)) == []
    ensures var applies := LocationApplies(inputs);
      && ClosingCosts(inputs)
        == Some(Range(ClosingCostsAt(Lows(inputs), applies), ClosingCostsAt(Highs(inputs), applies)))
      && 0 <= ClosingCostsAt(Lows(inputs), applies) <= ClosingCostsAt(Highs(inputs), applies) <= 9 * MAX_MONEY
  {
    hide Upfront, UpfrontAt, Add, Missing;
    ClosePresent(inputs);
    UpfrontEnds(inputs);
    if LocationApplies(inputs) { AddAmount(inputs, Upfront(inputs).value, LocationDeposit); }
  }

  lemma ReserveEnds(inputs: Inputs)
    requires Valid(inputs) && Missing(inputs, CloseKeys(inputs)) == []
    ensures var applies := LocationApplies(inputs);
      && MonthlyCosts(inputs).Some?
      && Multiply(MonthlyCosts(inputs), Amount(inputs, WorkingCapitalMonths))
         == Some(Range(ReserveAt(Lows(inputs), applies), ReserveAt(Highs(inputs), applies)))
      && 0 <= ReserveAt(Lows(inputs), applies) <= ReserveAt(Highs(inputs), applies) <= 2400 * MAX_MONEY
  {
    ClosePresent(inputs);
    MonthlyCostsExact(inputs);
    var monthly, months := MonthlyCosts(inputs).value, inputs.amounts[WorkingCapitalMonths];
    assert ValidAmount(WorkingCapitalMonths, months);
    ProductBounds(monthly.low, monthly.high, months.low);
    MultiplyByCount(monthly, months.low);
  }

  lemma CashEnds(inputs: Inputs)
    requires Valid(inputs) && Missing(inputs, CloseKeys(inputs)) == []
    ensures var applies := LocationApplies(inputs);
      && CashToClose(inputs) == Some(Range(CashAt(Lows(inputs), applies), CashAt(Highs(inputs), applies)))
      && 0 <= CashAt(Lows(inputs), applies) <= CashAt(Highs(inputs), applies) <= 3000 * MAX_MONEY
  {
    hide ClosingCosts, ClosingCostsAt, ReserveAt, MonthlyCosts, Multiply, Missing;
    ClosingCostsEnds(inputs);
    ReserveEnds(inputs);
    AddEnds(ClosingCosts(inputs).value, Multiply(MonthlyCosts(inputs), Amount(inputs, WorkingCapitalMonths)).value);
  }

  lemma CountIsFixed(inputs: Inputs, p: Point, f: Field)
    requires Valid(inputs) && Choice(inputs, p) && f in inputs.amounts && IsCount(f)
    ensures At(Lows(inputs), f) == At(p, f) == At(Highs(inputs), f) && At(p, f) >= 0
  {
    assert ValidAmount(f, inputs.amounts[f]);
  }

  lemma UpfrontBetween(inputs: Inputs, p: Point)
    requires Choice(inputs, p) && UpfrontPresent(inputs)
    ensures UpfrontAt(Lows(inputs)) <= UpfrontAt(p) <= UpfrontAt(Highs(inputs))
  {
  }

  lemma MonthlyCostsBetween(inputs: Inputs, p: Point)
    requires Choice(inputs, p) && MonthlyOperatingCosts in inputs.amounts
    requires LocationApplies(inputs) ==> LocationMonthlyCost in inputs.amounts
    ensures var applies := LocationApplies(inputs);
      MonthlyCostsAt(Lows(inputs), applies) <= MonthlyCostsAt(p, applies) <= MonthlyCostsAt(Highs(inputs), applies)
  {
  }

  lemma CashBetween(inputs: Inputs, p: Point)
    requires Valid(inputs) && Missing(inputs, CloseKeys(inputs)) == [] && Choice(inputs, p)
    ensures var applies := LocationApplies(inputs);
      CashAt(Lows(inputs), applies) <= CashAt(p, applies) <= CashAt(Highs(inputs), applies)
  {
    var applies := LocationApplies(inputs);
    ClosePresent(inputs);
    UpfrontBetween(inputs, p);
    MonthlyCostsBetween(inputs, p);
    CountIsFixed(inputs, p, WorkingCapitalMonths);
    ScaledOrder(MonthlyCostsAt(Lows(inputs), applies), MonthlyCostsAt(p, applies),
      MonthlyCostsAt(Highs(inputs), applies),
                At(p, WorkingCapitalMonths));
  }

  /** Cash to close is known exactly when nothing is missing, and then is the exact image of the plain sum. */
  lemma CashToCloseIsExact(inputs: Inputs)
    requires Valid(inputs)
    ensures CashToClose(inputs).Some? <==> forall f :: f in CloseKeys(inputs) ==> !IsMissing(inputs, f)
    ensures CashToClose(inputs).Some? ==> Exact(CashToClose(inputs).value, CashValues(inputs))
  {
    MissingNone(inputs, CloseKeys(inputs));
    if Missing(inputs, CloseKeys(inputs)) == [] {
      CashEnds(inputs);
      EndsAreChoices(inputs);
      forall x | x in CashValues(inputs) ensures In(CashToClose(inputs).value, x) {
        var p :| Choice(inputs, p) && x == CashAt(p, LocationApplies(inputs));
        CashBetween(inputs, p);
      }
    }
  }

  lemma LocationExposureIsExact(inputs: Inputs)
    requires Valid(inputs)
    ensures LocationExposure(inputs).Some? <==>
      LocationApplies(inputs) && forall f :: f in EXPOSURE_KEYS ==> !IsMissing(inputs, f)
    ensures LocationExposure(inputs).Some? ==> Exact(LocationExposure(inputs).value, ExposureValues(inputs))
  {
    MissingNone(inputs, EXPOSURE_KEYS);
    if Missing(inputs, EXPOSURE_KEYS) == [] && LocationApplies(inputs) {
      ExposurePresent(inputs);
      ExposureEnds(inputs);
      EndsAreChoices(inputs);
      forall x | x in ExposureValues(inputs) ensures In(LocationExposure(inputs).value, x) {
        var p :| Choice(inputs, p) && x == At(p, LocationMonthlyCost) * At(p, LocationTermMonths);
        CountIsFixed(inputs, p, LocationTermMonths);
        ScaledOrder(At(Lows(inputs), LocationMonthlyCost), At(p, LocationMonthlyCost),
          At(Highs(inputs), LocationMonthlyCost),
                    At(p, LocationTermMonths));
      }
    }
  }

  lemma ExposureEnds(inputs: Inputs)
    requires Valid(inputs) && LocationMonthlyCost in inputs.amounts && LocationTermMonths in inputs.amounts
    ensures Multiply(Amount(inputs, LocationMonthlyCost), Amount(inputs, LocationTermMonths))
         == Some(Range(At(Lows(inputs), LocationMonthlyCost) * At(Lows(inputs), LocationTermMonths),
                       At(Highs(inputs), LocationMonthlyCost) * At(Highs(inputs), LocationTermMonths)))
  {
    var cost, term := inputs.amounts[LocationMonthlyCost], inputs.amounts[LocationTermMonths];
    assert ValidAmount(LocationMonthlyCost, cost) && ValidAmount(LocationTermMonths, term);
    ProductBounds(cost.low, cost.high, term.low);
    MultiplyByCount(cost, term.low);
  }

  lemma CashShortfallEnds(inputs: Inputs)
    requires Valid(inputs) && Missing(inputs, ShortfallKeys(inputs)) == []
    ensures Missing(inputs, CloseKeys(inputs)) == [] && AvailableCash in inputs.amounts
    ensures var (applies, available) := (LocationApplies(inputs), inputs.amounts[AvailableCash]);
      CashShortfall(inputs) == Some(Range(
        Max(0, CashAt(Lows(inputs), applies) - available.high), Max(0, CashAt(Highs(inputs), applies) - available.low)))
  {
    ShortfallPresent(inputs);
    CashEnds(inputs);
    hide CashAt, CashToClose, Missing, Subtract, PositivePart;
    var (cash, available) := (CashToClose(inputs).value, inputs.amounts[AvailableCash]);
    assert ValidAmount(AvailableCash, available);
    SubtractEnds(cash, available);
    PositivePartEnds(Range(cash.low - available.high, cash.high - available.low));
  }

  lemma ShortfallIsBetween(inputs: Inputs, x: int)
    requires Valid(inputs) && Missing(inputs, ShortfallKeys(inputs)) == [] && x in ShortfallValues(inputs)
    ensures CashShortfall(inputs).Some? && In(CashShortfall(inputs).value, x)
  {
    CashShortfallEnds(inputs);
    hide CashShortfall, ShortfallValues, CashAt, Missing, Lows, Highs, Choice, Valid, ShortfallKeys, LocationApplies;
    var p := ShortfallChoice(inputs, x);
    CashIsChosen(inputs, p);
    CashBetween(inputs, p);
  }

  lemma CashShortfallImage(inputs: Inputs)
    requires Valid(inputs) && Missing(inputs, ShortfallKeys(inputs)) == []
    ensures CashShortfall(inputs).Some? && Exact(CashShortfall(inputs).value, ShortfallValues(inputs))
  {
    hide CashShortfall, ShortfallValues, CashAt, Missing, Lows, Highs, Valid, ShortfallKeys, LocationApplies, In;
    CashShortfallEnds(inputs);
    ShortfallEnds(inputs);
    forall x | x in ShortfallValues(inputs) ensures In(CashShortfall(inputs).value, x) {
      ShortfallIsBetween(inputs, x);
    }
  }

  lemma CashIsChosen(inputs: Inputs, p: Point)
    requires Choice(inputs, p) && AvailableCash in inputs.amounts
    ensures In(inputs.amounts[AvailableCash], At(p, AvailableCash))
  {
  }

  /** The shortfall is known exactly when nothing is missing, and then is the exact image of the plain formula. */
  lemma CashShortfallIsExact(inputs: Inputs)
    requires Valid(inputs)
    ensures CashShortfall(inputs).Some? <==> forall f :: f in ShortfallKeys(inputs) ==> !IsMissing(inputs, f)
    ensures CashShortfall(inputs).Some? ==> Exact(CashShortfall(inputs).value, ShortfallValues(inputs))
  {
    MissingNone(inputs, ShortfallKeys(inputs));
    hide Exact, ShortfallValues, IsMissing, Missing, ShortfallKeys, CashToClose;
    if Missing(inputs, ShortfallKeys(inputs)) == [] { CashShortfallImage(inputs); }
  }

  lemma ShortfallChoice(inputs: Inputs, x: int) returns (p: Point)
    requires x in ShortfallValues(inputs)
    ensures Choice(inputs, p) && x == Max(0, CashAt(p, LocationApplies(inputs)) - At(p, AvailableCash))
  {
    p :| Choice(inputs, p) && x == Max(0, CashAt(p, LocationApplies(inputs)) - At(p, AvailableCash));
  }

  lemma WithAvailable(inputs: Inputs, p: Point, cash: int)
    requires Choice(inputs, p) && AvailableCash in inputs.amounts && In(inputs.amounts[AvailableCash], cash)
    ensures Max(0, CashAt(p, LocationApplies(inputs)) - cash) in ShortfallValues(inputs)
  {
    var q := p[AvailableCash := cash];
    assert Choice(inputs, q);
    CashIgnoresAvailable(p, cash, LocationApplies(inputs));
    hide CashAt, Choice;
    assert At(q, AvailableCash) == cash;
  }

  lemma CashIgnoresAvailable(p: Point, cash: int, applies: bool)
    ensures CashAt(p[AvailableCash := cash], applies) == CashAt(p, applies)
  {
  }

  lemma ShortfallEnds(inputs: Inputs)
    requires Valid(inputs) && AvailableCash in inputs.amounts
    ensures var applies, available := LocationApplies(inputs), inputs.amounts[AvailableCash];
      && Max(0, CashAt(Lows(inputs), applies) - available.high) in ShortfallValues(inputs)
      && Max(0, CashAt(Highs(inputs), applies) - available.low) in ShortfallValues(inputs)
  {
    hide CashAt, ShortfallValues, Choice;
    EndsAreChoices(inputs);
    var available := inputs.amounts[AvailableCash];
    assert ValidAmount(AvailableCash, available);
    WithAvailable(inputs, Lows(inputs), available.high);
    WithAvailable(inputs, Highs(inputs), available.low);
  }

  lemma RevenueLessCosts(inputs: Inputs)
    requires Valid(inputs) && MonthlyRevenue in inputs.amounts && MonthlyCosts(inputs).Some?
    requires Ordered(MonthlyCosts(inputs).value) && 0 <= MonthlyCosts(inputs).value.low
      && MonthlyCosts(inputs).value.high <= 2 * MAX_MONEY
    ensures var (revenue, costs) := (inputs.amounts[MonthlyRevenue], MonthlyCosts(inputs).value);
      Subtract(Amount(inputs, MonthlyRevenue), MonthlyCosts(inputs))
        == Some(Range(revenue.low - costs.high, revenue.high - costs.low))
  {
    hide MonthlyCosts, Subtract;
    var (revenue, costs) := (inputs.amounts[MonthlyRevenue], MonthlyCosts(inputs).value);
    assert ValidAmount(MonthlyRevenue, revenue);
    SubtractEnds(revenue, costs);
  }

  lemma OperatingDifferenceEnds(inputs: Inputs)
    requires Valid(inputs) && Missing(inputs, DifferenceKeys(inputs)) == []
    ensures MonthlyRevenue in inputs.amounts && MonthlyOperatingCosts in inputs.amounts
    ensures LocationApplies(inputs) ==> LocationMonthlyCost in inputs.amounts
    ensures var (applies, revenue) := (LocationApplies(inputs), inputs.amounts[MonthlyRevenue]);
      OperatingDifference(inputs) == Some(Range(
        revenue.low - MonthlyCostsAt(Highs(inputs), applies), revenue.high - MonthlyCostsAt(Lows(inputs), applies)))
  {
    hide MonthlyCosts, MonthlyCostsAt, Missing, Subtract, Lows, Highs, Amount, Valid;
    DifferencePresent(inputs);
    MonthlyCostsExact(inputs);
    RevenueLessCosts(inputs);
  }

  lemma DifferenceIsBetween(inputs: Inputs, x: int)
    requires Valid(inputs) && Missing(inputs, DifferenceKeys(inputs)) == [] && x in DifferenceValues(inputs)
    ensures OperatingDifference(inputs).Some? && In(OperatingDifference(inputs).value, x)
  {
    OperatingDifferenceEnds(inputs);
    hide OperatingDifference, DifferenceValues, MonthlyCostsAt, Missing, Lows, Highs, Choice, Valid, DifferenceKeys,
      LocationApplies;
    var p := DifferenceChoice(inputs, x);
    RevenueIsChosen(inputs, p);
    MonthlyCostsBetween(inputs, p);
  }

  lemma OperatingDifferenceImage(inputs: Inputs)
    requires Valid(inputs) && Missing(inputs, DifferenceKeys(inputs)) == []
    ensures OperatingDifference(inputs).Some? && Exact(OperatingDifference(inputs).value, DifferenceValues(inputs))
  {
    hide OperatingDifference, DifferenceValues, MonthlyCostsAt, Missing, Lows, Highs, Valid, DifferenceKeys,
      LocationApplies, In;
    OperatingDifferenceEnds(inputs);
    DifferenceEnds(inputs);
    forall x | x in DifferenceValues(inputs) ensures In(OperatingDifference(inputs).value, x) {
      DifferenceIsBetween(inputs, x);
    }
  }

  lemma RevenueIsChosen(inputs: Inputs, p: Point)
    requires Choice(inputs, p) && MonthlyRevenue in inputs.amounts
    ensures In(inputs.amounts[MonthlyRevenue], At(p, MonthlyRevenue))
  {
  }

  /** The difference is known exactly when nothing is missing, and then is the exact image of the plain formula. */
  lemma OperatingDifferenceIsExact(inputs: Inputs)
    requires Valid(inputs)
    ensures OperatingDifference(inputs).Some? <==> forall f :: f in DifferenceKeys(inputs) ==> !IsMissing(inputs, f)
    ensures OperatingDifference(inputs).Some? ==> Exact(OperatingDifference(inputs).value, DifferenceValues(inputs))
  {
    MissingNone(inputs, DifferenceKeys(inputs));
    hide Exact, DifferenceValues, IsMissing, Missing, DifferenceKeys;
    if Missing(inputs, DifferenceKeys(inputs)) == [] { OperatingDifferenceImage(inputs); }
  }

  lemma DifferenceChoice(inputs: Inputs, x: int) returns (p: Point)
    requires x in DifferenceValues(inputs)
    ensures Choice(inputs, p) && x == At(p, MonthlyRevenue) - MonthlyCostsAt(p, LocationApplies(inputs))
  {
    p :| Choice(inputs, p) && x == At(p, MonthlyRevenue) - MonthlyCostsAt(p, LocationApplies(inputs));
  }

  lemma WithRevenue(inputs: Inputs, p: Point, revenue: int)
    requires Choice(inputs, p) && MonthlyRevenue in inputs.amounts && In(inputs.amounts[MonthlyRevenue], revenue)
    ensures revenue - MonthlyCostsAt(p, LocationApplies(inputs)) in DifferenceValues(inputs)
  {
    var q := p[MonthlyRevenue := revenue];
    assert Choice(inputs, q);
    assert MonthlyCostsAt(q, LocationApplies(inputs)) == MonthlyCostsAt(p, LocationApplies(inputs));
    hide MonthlyCostsAt, Choice;
    assert At(q, MonthlyRevenue) == revenue;
  }

  lemma DifferenceEnds(inputs: Inputs)
    requires Valid(inputs) && MonthlyRevenue in inputs.amounts
    ensures var applies, revenue := LocationApplies(inputs), inputs.amounts[MonthlyRevenue];
      && revenue.low - MonthlyCostsAt(Highs(inputs), applies) in DifferenceValues(inputs)
      && revenue.high - MonthlyCostsAt(Lows(inputs), applies) in DifferenceValues(inputs)
  {
    hide MonthlyCostsAt, DifferenceValues, Choice;
    EndsAreChoices(inputs);
    var revenue := inputs.amounts[MonthlyRevenue];
    assert ValidAmount(MonthlyRevenue, revenue);
    WithRevenue(inputs, Highs(inputs), revenue.low);
    WithRevenue(inputs, Lows(inputs), revenue.high);
  }

  // ---------------------------------------------------------------- which inputs each output needs

  /** The code is three capital letters. */
  predicate HasCurrency(inputs: Inputs) {
    match inputs.currency
    case None => false
    case Some(s) => |s| == 3 && 'A' <= s[0] <= 'Z' && 'A' <= s[1] <= 'Z' && 'A' <= s[2] <= 'Z'
  }

  /** It is said whether a location obligation applies, and if so the named amounts of it are given. */
  predicate LocationSettled(inputs: Inputs, needed: set<Field>) {
    match inputs.obligation
    case None => false
    case Some(Unknown) => false
    case Some(NotApplicable) => true
    case Some(Applies) => needed <= inputs.amounts.Keys
  }

  lemma CurrencyMeaning(inputs: Inputs)
    ensures IsMissing(inputs, CurrencyCode) <==> !HasCurrency(inputs)
  {
  }

  /** The seven amounts, the currency and the location that the cash to close needs are known. */
  predicate CloseKnown(inputs: Inputs) {
    && {PurchasePrice, TransitionCosts, AssetSetupCosts, ProfessionalCosts, ReinvestmentCosts, MonthlyOperatingCosts,
         WorkingCapitalMonths} <= inputs.amounts.Keys
    && HasCurrency(inputs) && LocationSettled(inputs, {LocationDeposit, LocationMonthlyCost})
  }

  lemma CloseKeysMeaning(inputs: Inputs, f: Field)
    ensures f in CloseKeys(inputs) <==>
      || f in {PurchasePrice, TransitionCosts, AssetSetupCosts, ProfessionalCosts, ReinvestmentCosts,
               MonthlyOperatingCosts, WorkingCapitalMonths, CurrencyCode, LocationObligation}
      || (inputs.obligation == Some(Applies) && f in {LocationDeposit, LocationMonthlyCost})
  {
  }

  lemma UnlessMissing(inputs: Inputs)
    ensures (forall f :: f in CloseKeys(inputs) ==> !IsMissing(inputs, f)) <==>
      && !IsMissing(inputs, PurchasePrice) && !IsMissing(inputs, TransitionCosts) && !IsMissing(inputs, AssetSetupCosts)
      && !IsMissing(inputs, ProfessionalCosts) && !IsMissing(inputs, ReinvestmentCosts)
      && !IsMissing(inputs, MonthlyOperatingCosts) && !IsMissing(inputs, WorkingCapitalMonths)
      && !IsMissing(inputs, CurrencyCode) && !IsMissing(inputs, LocationObligation)
      && (inputs.obligation == Some(Applies) ==>
            !IsMissing(inputs, LocationDeposit) && !IsMissing(inputs, LocationMonthlyCost))
  {
    forall f ensures f in CloseKeys(inputs) <==>
      || f in {PurchasePrice, TransitionCosts, AssetSetupCosts, ProfessionalCosts, ReinvestmentCosts,
               MonthlyOperatingCosts, WorkingCapitalMonths, CurrencyCode, LocationObligation}
      || (inputs.obligation == Some(Applies) && f in {LocationDeposit, LocationMonthlyCost})
    {
      CloseKeysMeaning(inputs, f);
    }
    hide *;
    var keys := CloseKeys(inputs);
    assert PurchasePrice in keys && TransitionCosts in keys && AssetSetupCosts in keys && ProfessionalCosts in keys;
    assert ReinvestmentCosts in keys && MonthlyOperatingCosts in keys && WorkingCapitalMonths in keys;
    assert CurrencyCode in keys && LocationObligation in keys;
    assert inputs.obligation == Some(Applies) ==> LocationDeposit in keys && LocationMonthlyCost in keys;
  }

  lemma CloseKnownMeaning(inputs: Inputs)
    ensures CloseKnown(inputs) <==> forall f :: f in CloseKeys(inputs) ==> !IsMissing(inputs, f)
  {
    UnlessMissing(inputs);
    CurrencyMeaning(inputs);
    hide CloseKeys, HasCurrency, IsCurrency;
  }

  /** Which inputs each of the four outputs needs, written out. */
  lemma KnownExactly(inputs: Inputs)
    requires Valid(inputs)
    ensures CashToClose(inputs).Some? <==> CloseKnown(inputs)
    ensures CashShortfall(inputs).Some? <==> CloseKnown(inputs) && AvailableCash in inputs.amounts
    ensures LocationExposure(inputs).Some? <==>
      && inputs.obligation == Some(Applies) && HasCurrency(inputs)
      && LocationMonthlyCost in inputs.amounts && LocationTermMonths in inputs.amounts
    ensures OperatingDifference(inputs).Some? <==>
      && MonthlyRevenue in inputs.amounts && MonthlyOperatingCosts in inputs.amounts && HasCurrency(inputs)
      && LocationSettled(inputs, {LocationMonthlyCost})
  {
    CashToCloseIsExact(inputs);
    CashShortfallIsExact(inputs);
    LocationExposureIsExact(inputs);
    OperatingDifferenceIsExact(inputs);
    CloseKnownMeaning(inputs);
    ShortfallKnownMeaning(inputs);
    ExposureKnownMeaning(inputs);
    DifferenceKnownMeaning(inputs);
    hide *;
  }

  lemma ShortfallKnownMeaning(inputs: Inputs)
    ensures (forall f :: f in ShortfallKeys(inputs) ==> !IsMissing(inputs, f)) <==>
      CloseKnown(inputs) && AvailableCash in inputs.amounts
  {
    CloseKnownMeaning(inputs);
    assert forall f :: f in ShortfallKeys(inputs) <==>
      f in CloseKeys(inputs) || f == AvailableCash || f == CurrencyCode;
    CloseKeysMeaning(inputs, CurrencyCode);
    hide CloseKeys, ShortfallKeys, CloseKnown, IsCurrency;
    assert AvailableCash in ShortfallKeys(inputs);
  }

  lemma ExposureKnownMeaning(inputs: Inputs)
    ensures LocationApplies(inputs) <==> inputs.obligation == Some(Applies)
    ensures (forall f :: f in EXPOSURE_KEYS ==> !IsMissing(inputs, f)) <==>
      HasCurrency(inputs) && LocationMonthlyCost in inputs.amounts && LocationTermMonths in inputs.amounts
  {
    assert forall f :: f in EXPOSURE_KEYS <==> f in {LocationMonthlyCost, LocationTermMonths, CurrencyCode};
    CurrencyMeaning(inputs);
    var keys := EXPOSURE_KEYS;
    hide EXPOSURE_KEYS, HasCurrency, IsCurrency;
    assert LocationMonthlyCost in keys && LocationTermMonths in keys && CurrencyCode in keys;
  }

  lemma DifferenceKnownMeaning(inputs: Inputs)
    ensures (forall f :: f in DifferenceKeys(inputs) ==> !IsMissing(inputs, f)) <==>
      && MonthlyRevenue in inputs.amounts && MonthlyOperatingCosts in inputs.amounts && HasCurrency(inputs)
      && LocationSettled(inputs, {LocationMonthlyCost})
  {
    assert forall f :: f in DifferenceKeys(inputs) <==>
      || f in {MonthlyRevenue, MonthlyOperatingCosts, LocationObligation, CurrencyCode}
      || (inputs.obligation == Some(Applies) && f == LocationMonthlyCost);
    CurrencyMeaning(inputs);
    var keys := DifferenceKeys(inputs);
    hide DifferenceKeys, HasCurrency, IsCurrency;
    assert MonthlyRevenue in keys && MonthlyOperatingCosts in keys;
    assert LocationObligation in keys && CurrencyCode in keys;
    assert LocationApplies(inputs) ==> LocationMonthlyCost in keys;
  }

  // ---------------------------------------------------------------- the order of missing inputs

  /** The field is first named at a place of the list. */
  predicate FirstAt(fields: seq<Field>, f: Field, i: nat) { i < |fields| && fields[i] == f && f !in fields[..i] }

  /** The listed ones are each listed once, in the order in which the fields first name them. */
  ghost predicate InOrderOf(fields: seq<Field>, listed: seq<Field>) {
    forall a, b, i: nat, j: nat ::
      0 <= a < b < |listed| && FirstAt(fields, listed[a], i) && FirstAt(fields, listed[b], j) ==> i < j
  }

  lemma {:induction false} MissingInOrder(inputs: Inputs, fields: seq<Field>)
    ensures InOrderOf(fields, Missing(inputs, fields))
  {
    if fields != [] {
      var n := |fields| - 1;
      var (before, last) := (Missing(inputs, fields[..n]), fields[n]);
      MissingInOrder(inputs, fields[..n]);
      OrderKept(fields, before);
      if IsMissing(inputs, last) && last !in before { OrderExtended(fields, before); }
    }
  }

  lemma OrderKept(fields: seq<Field>, listed: seq<Field>)
    requires fields != [] && InOrderOf(fields[..|fields| - 1], listed)
    requires forall f :: f in listed ==> f in fields[..|fields| - 1]
    ensures InOrderOf(fields, listed)
  {
    forall a, b, i: nat, j: nat
      | 0 <= a < b < |listed| && FirstAt(fields, listed[a], i) && FirstAt(fields, listed[b], j)
      ensures i < j
    {
      assert listed[a] in listed && listed[b] in listed;
      EarlierPlace(fields, listed[a], i);
      EarlierPlace(fields, listed[b], j);
    }
  }

  lemma OrderExtended(fields: seq<Field>, listed: seq<Field>)
    requires fields != [] && InOrderOf(fields, listed)
    requires forall f :: f in listed ==> f in fields[..|fields| - 1]
    requires fields[|fields| - 1] !in fields[..|fields| - 1]
    ensures InOrderOf(fields, listed + [fields[|fields| - 1]])
  {
    var longer := listed + [fields[|fields| - 1]];
    forall a, b, i: nat, j: nat
      | 0 <= a < b < |longer| && FirstAt(fields, longer[a], i) && FirstAt(fields, longer[b], j)
      ensures i < j
    {
      assert listed[a] in listed;
      EarlierPlace(fields, listed[a], i);
      if b < |listed| { assert FirstAt(fields, listed[b], j); } else { NamedFrom(fields, longer[b], j, |fields| - 1); }
    }
  }

  /** A field named among the first n is first named there, another one later. */
  lemma NamedFrom(fields: seq<Field>, f: Field, i: nat, n: nat)
    requires n <= |fields| && FirstAt(fields, f, i)
    ensures f in fields[..n] <==> i < n
  {
    if i < n {
      assert fields[..n][i] == f;
    } else {
      assert fields[..i][..n] == fields[..n];
    }
  }

  lemma EarlierPlace(fields: seq<Field>, f: Field, i: nat)
    requires fields != [] && f in fields[..|fields| - 1] && FirstAt(fields, f, i)
    ensures i < |fields| - 1 && FirstAt(fields[..|fields| - 1], f, i)
  {
    NamedFrom(fields, f, i, |fields| - 1);
    assert fields[..|fields| - 1][..i] == fields[..i];
  }
}
