/** The monthly plan model: operating result, break-even volume, runway, funding gap and funding difference. */
module MonthlyModel {
  import opened Doubles
  import opened Integers
  import opened Intervals
  import opened Options

  datatype Field =
    | Price | Units | VariableCost | FixedCosts | Payroll | SetupCosts | Cash
    | Acquisition | Transition | TargetMonths | Requested

  datatype Path = BuyExisting | BuildNew | Undecided

  /** Validated inputs; buyBuild is the plan mode that asks for a path. */
  datatype Inputs = Inputs(amounts: map<Field, Range>, path: Option<Path>, buyBuild: bool)

  /** One billion, in ten-thousandths. */
  const MAX_MONEY := 1_000_000_000_0000
  const MAX_UNITS := 100_000_000

  predicate IsCount(f: Field) { f == Units || f == TargetMonths }

  predicate ValidAmount(f: Field, r: Range) {
    if IsCount(f) then 0 <= r.low == r.high <= MAX_UNITS else 0 <= r.low <= r.high <= MAX_MONEY
  }

  ghost predicate Valid(inputs: Inputs) { forall f :: f in inputs.amounts ==> ValidAmount(f, inputs.amounts[f]) }

  function Amount(inputs: Inputs, f: Field): Option<Range> {
    if f in inputs.amounts then Some(inputs.amounts[f]) else None
  }

  // ---------------------------------------------------------------- the model

  function Contribution(inputs: Inputs): Option<Range> {
    Subtract(Multiply(Amount(inputs, Price), Amount(inputs, Units)),
      Multiply(Amount(inputs, VariableCost), Amount(inputs, Units)))
  }

  function OperatingCosts(inputs: Inputs): Option<Range> { Add(Amount(inputs, FixedCosts), Amount(inputs, Payroll)) }

  function OperatingResult(inputs: Inputs): Option<Range> { Subtract(Contribution(inputs), OperatingCosts(inputs)) }

  function UnitContribution(inputs: Inputs): Option<Range> {
    Subtract(Amount(inputs, Price), Amount(inputs, VariableCost))
  }

  /** The range between two computed doubles, rounded to the grid; none beyond the largest safe integer. */
  function FiniteDoubles(low: real, high: real): Option<Range> {
    if AbsReal(low) > 9007199254740991.0 || AbsReal(high) > 9007199254740991.0 then None
    else if low <= high then Some(Range(GridOf(low), GridOf(high)))
    else Some(Range(GridOf(high), GridOf(low)))
  }

  /** Volumes are whole numbers, held like all range ends in ten-thousandths. */
  datatype BreakEven = BreakEvenUnknown | NoPositiveContribution | IncludesNonpositive | Volume(units: Option<Range>)

  function BreakEvenUnits(inputs: Inputs): BreakEven {
    match (OperatingCosts(inputs), UnitContribution(inputs))
    case (Some(costs), Some(unit)) =>
      if unit.high <= 0 then NoPositiveContribution
      else if unit.low <= 0 then IncludesNonpositive
      else Volume(FiniteDoubles(
        CeilingOfQuotient(costs.low, unit.high) as real, CeilingOfQuotient(costs.high, unit.low) as real))
    case _ => BreakEvenUnknown
  }

  function Burn(inputs: Inputs): Option<Range> {
    match OperatingResult(inputs)
    case None => None
    case Some(result) => PositivePart(Some(Range(-result.high, -result.low)))
  }

  datatype Runway = RunwayUnknown | NoBurn | Months(months: Option<Range>) | CrossesZero

  function RunwayMonths(inputs: Inputs): Runway
    requires Valid(inputs)
  {
    match (Amount(inputs, Cash), Burn(inputs))
    case (_, Some(burn)) =>
      if burn.high == 0 then NoBurn
      else if Amount(inputs, Cash).None? then RunwayUnknown
      else
        var cash := inputs.amounts[Cash];
        if burn.low > 0 then Months(FiniteDoubles(Quotient(cash.low, burn.high), Quotient(cash.high, burn.low)))
        else if burn.high > 0 then CrossesZero
        else RunwayUnknown
    case _ => RunwayUnknown
  }

  function InitialOutlay(inputs: Inputs): Option<Range> {
    match inputs.path
    case Some(BuyExisting) => Add(Amount(inputs, Acquisition), Amount(inputs, Transition))
    case Some(BuildNew) => Amount(inputs, SetupCosts)
    case Some(Undecided) => None
    case None => if inputs.buyBuild then None else Amount(inputs, SetupCosts)
  }

  function FundingGap(inputs: Inputs): Option<Range> {
    match (InitialOutlay(inputs), Amount(inputs, Cash), Amount(inputs, TargetMonths), Burn(inputs))
    case (Some(outlay), Some(cash), Some(months), Some(burn)) =>
      if burn.high == 0 then PositivePart(FiniteRange(outlay.low - cash.high, outlay.high - cash.low))
      else PositivePart(Subtract(Add(Some(outlay), Multiply(Some(burn), Some(months))), Some(cash)))
    case _ => None
  }

  function FundingDifference(inputs: Inputs): Option<Range> {
    if Amount(inputs, Requested).Some? && FundingGap(inputs).Some?
    then Subtract(Amount(inputs, Requested), FundingGap(inputs))
    else None
  }

  // ---------------------------------------------------------------- the plain formulas at one choice of points

  type Point = map<Field, int>

  ghost predicate Choice(inputs: Inputs, p: Point) {
    forall f :: f in inputs.amounts ==> f in p && In(inputs.amounts[f], p[f])
  }

  function At(p: Point, f: Field): int { if f in p then p[f] else 0 }

  function CostsAt(p: Point): int { At(p, FixedCosts) + At(p, Payroll) }

  function UnitAt(p: Point): int { At(p, Price) - At(p, VariableCost) }

  function ResultAt(p: Point): int { At(p, Price) * At(p, Units) - At(p, VariableCost) * At(p, Units) - CostsAt(p) }

  function BurnAt(p: Point): int { Max(0, -ResultAt(p)) }

  function OutlayAt(p: Point, inputs: Inputs): int {
    if inputs.path == Some(BuyExisting) then At(p, Acquisition) + At(p, Transition) else At(p, SetupCosts)
  }

  function GapAt(p: Point, inputs: Inputs): int {
    Max(0, OutlayAt(p, inputs) + BurnAt(p) * At(p, TargetMonths) - At(p, Cash))
  }

  ghost function ResultValues(inputs: Inputs): iset<int> { iset p | Choice(inputs, p) :: ResultAt(p) }

  ghost function BurnValues(inputs: Inputs): iset<int> { iset p | Choice(inputs, p) :: BurnAt(p) }

  ghost function GapValues(inputs: Inputs): iset<int> { iset p | Choice(inputs, p) :: GapAt(p, inputs) }

  ghost function DifferenceValues(inputs: Inputs): iset<int> {
    iset p | Choice(inputs, p) :: At(p, Requested) - GapAt(p, inputs)
  }

  /** The choice that makes the plan cheapest to fund, and the dearest one. */
  function Best(inputs: Inputs): Point {
    map f | f in inputs.amounts :: if f == Price || f == Cash then inputs.amounts[f].high else inputs.amounts[f].low
  }

  function Worst(inputs: Inputs): Point {
    map f | f in inputs.amounts :: if f == Price || f == Cash then inputs.amounts[f].low else inputs.amounts[f].high
  }

  lemma EndsAreChoices(inputs: Inputs)
    requires Valid(inputs)
    ensures Choice(inputs, Best(inputs)) && Choice(inputs, Worst(inputs))
  {
    assert forall f :: f in inputs.amounts ==> ValidAmount(f, inputs.amounts[f]);
  }

  // ---------------------------------------------------------------- operating result and burn

  ghost predicate ResultPresent(inputs: Inputs) {
    && Price in inputs.amounts && Units in inputs.amounts && VariableCost in inputs.amounts
    && FixedCosts in inputs.amounts && Payroll in inputs.amounts
  }

  /** An absent input of the operating result makes it unknown. */
  lemma AbsentResultInput(inputs: Inputs)
    ensures OperatingResult(inputs).Some? ==> ResultPresent(inputs)
  {
  }

  lemma ContributionEnds(inputs: Inputs)
    requires Valid(inputs) && Contribution(inputs).Some?
    ensures Price in inputs.amounts && Units in inputs.amounts && VariableCost in inputs.amounts
    ensures var (price, cost, n) := (inputs.amounts[Price], inputs.amounts[VariableCost], inputs.amounts[Units].low);
      Contribution(inputs).value == Range(price.low * n - cost.high * n, price.high * n - cost.low * n)
    ensures Ordered(Contribution(inputs).value)
  {
    var (price, cost, n) := (inputs.amounts[Price], inputs.amounts[VariableCost], inputs.amounts[Units].low);
    assert ValidAmount(Price, price) && ValidAmount(VariableCost, cost) && ValidAmount(Units, inputs.amounts[Units]);
    MultiplyByCount(price, n);
    MultiplyByCount(cost, n);
    ScaledOrder(price.low, price.low, price.high, n);
    ScaledOrder(cost.low, cost.low, cost.high, n);
    SubtractEnds(Range(price.low * n, price.high * n), Range(cost.low * n, cost.high * n));
  }

  lemma CostsEnds(inputs: Inputs)
    requires Valid(inputs) && FixedCosts in inputs.amounts && Payroll in inputs.amounts
    ensures OperatingCosts(inputs) == Some(Range(CostsAt(Best(inputs)), CostsAt(Worst(inputs))))
    ensures 0 <= CostsAt(Best(inputs)) <= CostsAt(Worst(inputs)) <= 2 * MAX_MONEY
  {
    assert ValidAmount(FixedCosts, inputs.amounts[FixedCosts]) && ValidAmount(Payroll, inputs.amounts[Payroll]);
    AddEnds(inputs.amounts[FixedCosts], inputs.amounts[Payroll]);
  }

  lemma CountIsFixed(inputs: Inputs, p: Point, f: Field)
    requires Valid(inputs) && Choice(inputs, p) && f in inputs.amounts && IsCount(f)
    ensures At(p, f) == inputs.amounts[f].low == At(Best(inputs), f) == At(Worst(inputs), f) && At(p, f) >= 0
  {
    assert ValidAmount(f, inputs.amounts[f]);
  }

  lemma ResultEnds(inputs: Inputs)
    requires Valid(inputs) && OperatingResult(inputs).Some?
    ensures OperatingResult(inputs).value == Range(ResultAt(Worst(inputs)), ResultAt(Best(inputs)))
    ensures Ordered(OperatingResult(inputs).value)
  {
    hide Multiply, CostsAt;
    ContributionEnds(inputs);
    CostsEnds(inputs);
    EndsAreChoices(inputs);
    CountIsFixed(inputs, Best(inputs), Units);
    SubtractEnds(Contribution(inputs).value, OperatingCosts(inputs).value);
  }

  lemma ResultBetween(inputs: Inputs, p: Point)
    requires Valid(inputs) && ResultPresent(inputs) && Choice(inputs, p)
    ensures ResultAt(Worst(inputs)) <= ResultAt(p) <= ResultAt(Best(inputs))
  {
    CountIsFixed(inputs, p, Units);
    ScaledOrder(inputs.amounts[Price].low, At(p, Price), inputs.amounts[Price].high, At(p, Units));
    ScaledOrder(inputs.amounts[VariableCost].low, At(p, VariableCost), inputs.amounts[VariableCost].high, At(p, Units));
  }

  /** A known operating result is the exact image of the plain formula. */
  lemma OperatingResultIsExact(inputs: Inputs)
    requires Valid(inputs)
    ensures OperatingResult(inputs).Some? ==> Exact(OperatingResult(inputs).value, ResultValues(inputs))
  {
    hide OperatingResult, ResultAt;
    if OperatingResult(inputs).Some? {
      ResultEnds(inputs);
      AbsentResultInput(inputs);
      EndsAreChoices(inputs);
      forall x | x in ResultValues(inputs) ensures In(OperatingResult(inputs).value, x) {
        var p :| Choice(inputs, p) && x == ResultAt(p);
        ResultBetween(inputs, p);
      }
    }
  }

  /** Revenue, variable cost and result stay within the largest safe integer. */
  predicate ResultWithinLimit(inputs: Inputs) {
    && At(Best(inputs), Price) * At(Best(inputs), Units) <= MAX_SAFE
    && At(Worst(inputs), VariableCost) * At(Worst(inputs), Units) <= MAX_SAFE
    && ResultAt(Worst(inputs)) >= -MAX_SAFE
  }

  lemma MultipliedKnown(a: Range, n: nat)
    requires 0 <= a.low <= a.high
    ensures Multiply(Some(a), Some(Range(n, n))).Some? <==> a.high * n <= MAX_SAFE
    ensures a.high * n <= MAX_SAFE ==> Multiply(Some(a), Some(Range(n, n))) == Some(Range(a.low * n, a.high * n))
    ensures 0 <= a.low * n <= a.high * n
  {
    ScaledOrder(0, a.low, a.high, n);
    MultiplyByCount(a, n);
  }

  lemma ContributionKnown(inputs: Inputs)
    requires Valid(inputs) && ResultPresent(inputs)
    ensures var (price, cost, n) := (inputs.amounts[Price], inputs.amounts[VariableCost], inputs.amounts[Units].low);
      Contribution(inputs).Some? <==> price.high * n <= MAX_SAFE && cost.high * n <= MAX_SAFE
    ensures Contribution(inputs).Some? ==> Contribution(inputs).value.high <= MAX_SAFE
  {
    var (price, cost, n) := (inputs.amounts[Price], inputs.amounts[VariableCost], inputs.amounts[Units].low);
    assert ValidAmount(Price, price) && ValidAmount(VariableCost, cost) && ValidAmount(Units, inputs.amounts[Units]);
    MultipliedKnown(price, n);
    MultipliedKnown(cost, n);
    hide Multiply;
    if price.high * n <= MAX_SAFE && cost.high * n <= MAX_SAFE {
      SubtractEnds(Range(price.low * n, price.high * n), Range(cost.low * n, cost.high * n));
    }
  }

  lemma SubtractKnown(a: Range, b: Range)
    requires Ordered(a) && Ordered(b) && a.high <= MAX_SAFE && b.low >= 0
    ensures Subtract(Some(a), Some(b)).Some? <==> a.low - b.high >= -MAX_SAFE
  {
    SubtractEnds(a, b);
  }

  lemma ResultKnownFromParts(inputs: Inputs)
    requires Valid(inputs) && ResultPresent(inputs) && Contribution(inputs).Some?
    ensures OperatingResult(inputs).Some? <==> ResultAt(Worst(inputs)) >= -MAX_SAFE
  {
    hide Multiply, CostsAt, Subtract, Contribution;
    ContributionKnown(inputs);
    ContributionEnds(inputs);
    CostsEnds(inputs);
    EndsAreChoices(inputs);
    CountIsFixed(inputs, Worst(inputs), Units);
    SubtractKnown(Contribution(inputs).value, OperatingCosts(inputs).value);
  }

  /** The operating result is known exactly when its inputs are present and nothing computed on the way is too large. */
  lemma OperatingResultKnown(inputs: Inputs)
    requires Valid(inputs)
    ensures OperatingResult(inputs).Some? <==> ResultPresent(inputs) && ResultWithinLimit(inputs)
  {
    AbsentResultInput(inputs);
    if ResultPresent(inputs) {
      ContributionKnown(inputs);
      EndsAreChoices(inputs);
      CountIsFixed(inputs, Worst(inputs), Units);
      assert OperatingResult(inputs).Some? ==> Contribution(inputs).Some?;
      hide Contribution, OperatingResult, ResultAt;
      if Contribution(inputs).Some? { ResultKnownFromParts(inputs); }
    }
  }

  lemma BurnKnown(inputs: Inputs)
    requires Valid(inputs)
    ensures Burn(inputs).Some? <==> OperatingResult(inputs).Some?
  {
    hide OperatingResult, ResultAt;
    OperatingResultKnown(inputs);
    if OperatingResult(inputs).Some? {
      ResultEnds(inputs);
      var result := OperatingResult(inputs).value;
      PositivePartEnds(Range(-result.high, -result.low));
    }
  }

  /** A known burn is the exact image of the plain formula. */
  lemma BurnIsExact(inputs: Inputs)
    requires Valid(inputs)
    ensures Burn(inputs).Some? ==> Exact(Burn(inputs).value, BurnValues(inputs))
  {
    hide Burn, BurnAt, Valid, Choice, Best, Worst;
    if Burn(inputs).Some? {
      BurnEnds(inputs);
      EndsAreChoices(inputs);
      forall x | x in BurnValues(inputs) ensures In(Burn(inputs).value, x) {
        var p :| Choice(inputs, p) && x == BurnAt(p);
        BurnBetween(inputs, p);
      }
    }
  }

  lemma BurnEnds(inputs: Inputs)
    requires Valid(inputs) && Burn(inputs).Some?
    ensures OperatingResult(inputs).Some?
    ensures Burn(inputs).value == Range(BurnAt(Best(inputs)), BurnAt(Worst(inputs)))
    ensures 0 <= BurnAt(Best(inputs)) <= BurnAt(Worst(inputs))
  {
    hide OperatingResult, ResultAt;
    ResultEnds(inputs);
    var result := OperatingResult(inputs).value;
    PositivePartEnds(Range(-result.high, -result.low));
  }

  lemma BurnBetween(inputs: Inputs, p: Point)
    requires Valid(inputs) && Burn(inputs).Some? && Choice(inputs, p)
    ensures BurnAt(Best(inputs)) <= BurnAt(p) <= BurnAt(Worst(inputs))
  {
    AbsentResultInput(inputs);
    ResultBetween(inputs, p);
  }

  // ---------------------------------------------------------------- break-even

  lemma UnitBetween(inputs: Inputs, p: Point)
    requires Valid(inputs) && Price in inputs.amounts && VariableCost in inputs.amounts && Choice(inputs, p)
    ensures UnitContribution(inputs).Some? && In(UnitContribution(inputs).value, UnitAt(p))
    ensures UnitContribution(inputs).value == Range(UnitAt(Worst(inputs)), UnitAt(Best(inputs)))
    ensures UnitContribution(inputs).value.high <= MAX_MONEY
  {
    assert ValidAmount(Price, inputs.amounts[Price]) && ValidAmount(VariableCost, inputs.amounts[VariableCost]);
    SubtractEnds(inputs.amounts[Price], inputs.amounts[VariableCost]);
  }

  lemma CostsBetween(inputs: Inputs, p: Point)
    requires Valid(inputs) && FixedCosts in inputs.amounts && Payroll in inputs.amounts && Choice(inputs, p)
    ensures 0 <= CostsAt(Best(inputs)) <= CostsAt(p) <= CostsAt(Worst(inputs)) <= 2 * MAX_MONEY
  {
    CostsEnds(inputs);
  }

  /** A point covers its costs from this volume on and no earlier. */
  function LeastVolume(p: Point): int
    requires UnitAt(p) > 0
  {
    CeilDiv(CostsAt(p), UnitAt(p))
  }

  lemma LeastVolumeCovers(p: Point, n: int)
    requires UnitAt(p) > 0
    ensures n * UnitAt(p) >= CostsAt(p) <==> n >= LeastVolume(p)
  {
    CeilDivIsLeast(CostsAt(p), UnitAt(p), n);
  }

  /** The costs are a multiple of the unit contribution and the quotient of their doubles is past the tie above it. */
  predicate PastTie(p: Point)
    requires UnitAt(p) > 0
  {
    var (a, b, n) := (CostsAt(p), UnitAt(p), LeastVolume(p));
    a > 0 && a == n * b && n > 0 && FromGrid(a) > FromGrid(b) * (n as real + HalfUlp(n as real))
  }

  /** What the source takes for the least covering volume of a choice: one more past a tie. */
  function ComputedVolume(p: Point): int
    requires UnitAt(p) > 0
  {
    LeastVolume(p) + (if PastTie(p) then 1 else 0)
  }

  lemma LeastVolumeBrackets(p: Point)
    requires UnitAt(p) > 0
    ensures (LeastVolume(p) - 1) * UnitAt(p) < CostsAt(p) <= LeastVolume(p) * UnitAt(p)
  {
    hide LeastVolume, UnitAt, CostsAt;
    LeastVolumeCovers(p, LeastVolume(p));
    LeastVolumeCovers(p, LeastVolume(p) - 1);
  }

  /** The rounded-up quotient of doubles is the computed volume, for all costs that validated amounts can add up to. */
  lemma CeilingIsComputedVolume(p: Point)
    requires UnitAt(p) > 0 && 0 <= CostsAt(p) <= 2 * MAX_MONEY
    ensures CeilingOfQuotient(CostsAt(p), UnitAt(p)) == ComputedVolume(p)
    ensures 0 <= ComputedVolume(p) <= 2 * MAX_MONEY + 1
  {
    hide LeastVolume, UnitAt, CostsAt, CeilingOfQuotient, FromGrid, HalfUlp;
    LeastVolumeBrackets(p);
    VolumeAtMostCosts(CostsAt(p), UnitAt(p), LeastVolume(p));
    CeilingIsLeastOrNext(CostsAt(p), UnitAt(p), LeastVolume(p));
    if CostsAt(p) > 0 && CostsAt(p) == LeastVolume(p) * UnitAt(p) {
      CeilingPassesExactly(CostsAt(p), UnitAt(p), LeastVolume(p));
    } else if CostsAt(p) == 0 {
      FreeIsZero(UnitAt(p), LeastVolume(p));
    }
  }

  lemma VolumeAtMostCosts(a: nat, b: int, n: int)
    requires b > 0 && (n - 1) * b < a <= n * b
    ensures 0 <= n <= a
  {
    SignOfProduct(n, b);
    if n > 0 { ScaledOrder(1, 1, b, n - 1); }
  }

  /** A whole volume as the range ends hold it: its number of steps, exact up to GRID_LIMIT. */
  function OnGrid(n: int): (steps: int)
    ensures -GRID_LIMIT <= n * 10000 <= GRID_LIMIT ==> steps == n * 10000
  {
    if -GRID_LIMIT <= n * 10000 <= GRID_LIMIT then WholeStaysOnGrid(n); GridOf(n as real) else GridOf(n as real)
  }

  lemma OnGridOrders(m: int, n: int)
    requires 0 <= m && 0 <= n <= 2 * MAX_MONEY + 1
    ensures m <= n <==> OnGrid(m) <= OnGrid(n)
  {
    hide GridOf;
    if m <= n {
      GridOfIsMonotone(m as real, n as real);
    } else {
      GridOfIsMonotone((n + 1) as real, m as real);
      GridOfIsNear(n as real);
      GridOfIsNear((n + 1) as real);
    }
  }

  lemma VolumeParts(inputs: Inputs)
    requires Valid(inputs) && BreakEvenUnits(inputs).Volume?
    ensures FixedCosts in inputs.amounts && Payroll in inputs.amounts && Price in inputs.amounts
      && VariableCost in inputs.amounts
    ensures OperatingCosts(inputs) == Some(Range(CostsAt(Best(inputs)), CostsAt(Worst(inputs))))
    ensures UnitContribution(inputs) == Some(Range(UnitAt(Worst(inputs)), UnitAt(Best(inputs))))
    ensures 0 < UnitAt(Worst(inputs)) <= UnitAt(Best(inputs))
      && 0 <= CostsAt(Best(inputs)) <= CostsAt(Worst(inputs)) <= 2 * MAX_MONEY
  {
    EndsAreChoices(inputs);
    UnitBetween(inputs, Best(inputs));
    CostsEnds(inputs);
  }

  /** The computed volumes order like the least ones. */
  lemma ComputedVolumesOrder(p: Point, p': Point)
    requires UnitAt(p) >= UnitAt(p') > 0 && 0 <= CostsAt(p) <= CostsAt(p') <= 2 * MAX_MONEY
    ensures LeastVolume(p) <= LeastVolume(p') && ComputedVolume(p) <= ComputedVolume(p')
  {
    hide CeilDiv, UnitAt, CostsAt, ComputedVolume, Quotient;
    CeilDivMonotone(CostsAt(p), UnitAt(p), CostsAt(p'), UnitAt(p'));
    QuotientIsMonotone(CostsAt(p), UnitAt(p), CostsAt(p'), UnitAt(p'));
    CeilingIsComputedVolume(p);
    CeilingIsComputedVolume(p');
  }

  /**
   A calculated break-even is never cut off, and its ends are what the source takes for the least volumes of the two
   end choices.
   */
  lemma BreakEvenEnds(inputs: Inputs)
    requires Valid(inputs)
    ensures BreakEvenUnits(inputs).Volume? ==>
      && UnitAt(Best(inputs)) > 0 && UnitAt(Worst(inputs)) > 0
      && BreakEvenUnits(inputs).units
         == Some(Range(OnGrid(ComputedVolume(Best(inputs))), OnGrid(ComputedVolume(Worst(inputs)))))
  {
    hide OperatingCosts, UnitContribution, CeilingOfQuotient, ComputedVolume, CostsAt, UnitAt, GridOf;
    if BreakEvenUnits(inputs).Volume? {
      VolumeParts(inputs);
      CeilingIsComputedVolume(Best(inputs));
      CeilingIsComputedVolume(Worst(inputs));
      ComputedVolumesOrder(Best(inputs), Worst(inputs));
    }
  }

  ghost predicate ContainsLeastVolume(inputs: Inputs, units: Range, p: Point)
  {
    Choice(inputs, p) ==> UnitAt(p) > 0 && In(units, OnGrid(LeastVolume(p)))
  }

  lemma LeastVolumeBetween(inputs: Inputs, p: Point)
    requires Valid(inputs) && BreakEvenUnits(inputs).Volume? && Choice(inputs, p)
    ensures UnitAt(p) > 0 && UnitAt(Best(inputs)) > 0 && UnitAt(Worst(inputs)) > 0
    ensures 0 <= LeastVolume(Best(inputs)) <= LeastVolume(p) <= LeastVolume(Worst(inputs)) <= 2 * MAX_MONEY
  {
    hide OperatingCosts, UnitContribution, CostsAt, UnitAt, ComputedVolume, LeastVolume;
    VolumeParts(inputs);
    UnitBetween(inputs, p);
    CostsBetween(inputs, p);
    ComputedVolumesOrder(Best(inputs), p);
    ComputedVolumesOrder(p, Worst(inputs));
    LeastVolumeBrackets(Best(inputs));
    LeastVolumeBrackets(Worst(inputs));
    VolumeAtMostCosts(CostsAt(Best(inputs)), UnitAt(Best(inputs)), LeastVolume(Best(inputs)));
    VolumeAtMostCosts(CostsAt(Worst(inputs)), UnitAt(Worst(inputs)), LeastVolume(Worst(inputs)));
  }

  /** No volume is missed at the high end, and the low end is at most one unit too high. */
  lemma BreakEvenBounds(inputs: Inputs, p: Point)
    requires Valid(inputs) && Choice(inputs, p)
    ensures BreakEvenUnits(inputs).Volume? ==>
      && UnitAt(p) > 0 && BreakEvenUnits(inputs).units.Some?
      && OnGrid(LeastVolume(p)) <= BreakEvenUnits(inputs).units.value.high
      && BreakEvenUnits(inputs).units.value.low <= OnGrid(LeastVolume(p) + 1)
  {
    hide BreakEvenUnits, UnitAt, LeastVolume, PastTie, OnGrid;
    if BreakEvenUnits(inputs).Volume? {
      BreakEvenEnds(inputs);
      LeastVolumeBetween(inputs, p);
      OnGridOrders(LeastVolume(p), ComputedVolume(Worst(inputs)));
      OnGridOrders(ComputedVolume(Best(inputs)), LeastVolume(p) + 1);
    }
  }

  /**
   The range contains the least covering volume of every choice exactly when the cheapest choice is not past a tie.
   */
  lemma BreakEvenContainsLeastVolume(inputs: Inputs)
    requires Valid(inputs)
    ensures BreakEvenUnits(inputs).Volume? ==>
      && BreakEvenUnits(inputs).units.Some? && UnitAt(Best(inputs)) > 0
      && ((forall p :: ContainsLeastVolume(inputs, BreakEvenUnits(inputs).units.value, p)) <==> !PastTie(Best(inputs)))
  {
    hide BreakEvenUnits, UnitAt, LeastVolume, PastTie, OnGrid;
    if BreakEvenUnits(inputs).Volume? {
      BreakEvenEnds(inputs);
      EndsAreChoices(inputs);
      var (units, low) := (BreakEvenUnits(inputs).units.value, Best(inputs));
      LeastVolumeBetween(inputs, low);
      OnGridOrders(ComputedVolume(low), LeastVolume(low));
      if PastTie(low) {
        assert !ContainsLeastVolume(inputs, units, low);
      } else {
        forall p ensures ContainsLeastVolume(inputs, units, p) {
          if Choice(inputs, p) { LeastVolumeContained(inputs, p); }
        }
      }
    }
  }

  lemma LeastVolumeContained(inputs: Inputs, p: Point)
    requires Valid(inputs) && BreakEvenUnits(inputs).Volume? && Choice(inputs, p)
    ensures UnitAt(p) > 0 && UnitAt(Best(inputs)) > 0 && BreakEvenUnits(inputs).units.Some?
    ensures !PastTie(Best(inputs)) ==> In(BreakEvenUnits(inputs).units.value, OnGrid(LeastVolume(p)))
  {
    hide BreakEvenUnits, UnitAt, LeastVolume, PastTie, OnGrid;
    BreakEvenEnds(inputs);
    BreakEvenBounds(inputs, p);
    LeastVolumeBetween(inputs, p);
    OnGridOrders(LeastVolume(Best(inputs)), LeastVolume(p));
  }

  /** Costs and unit contribution in whole sixteenths, as whole amounts are, are never past a tie. */
  lemma SixteenthsAreNotPastTie(p: Point)
    requires UnitAt(p) > 0 && 0 <= CostsAt(p) <= 2 * MAX_MONEY && CostsAt(p) % 625 == 0 && UnitAt(p) % 625 == 0
    ensures !PastTie(p)
  {
    hide LeastVolume, UnitAt, CostsAt, CeilingOfQuotient, PastTie;
    LeastVolumeBrackets(p);
    SixteenthsAreLeast(CostsAt(p), UnitAt(p), LeastVolume(p));
    CeilingIsComputedVolume(p);
  }

  /** Costs of 350 and a price of 0.70 at no variable cost: 500 units cover, the source calculates 501 to 501. */
  lemma OneUnitTooMany(inputs: Inputs)
    requires Valid(inputs)
    requires Amount(inputs, Price) == Some(Range(7000, 7000)) && Amount(inputs, VariableCost) == Some(Range(0, 0))
    requires Amount(inputs, FixedCosts) == Some(Range(350_0000, 350_0000))
      && Amount(inputs, Payroll) == Some(Range(0, 0))
    ensures BreakEvenUnits(inputs) == Volume(Some(Range(501_0000, 501_0000)))
    ensures UnitAt(Best(inputs)) > 0 && LeastVolume(Best(inputs)) == 500
  {
    hide CeilingOfQuotient, GridOf;
    TieAt350();
    assert UnitContribution(inputs) == Some(Range(7000, 7000));
    assert OperatingCosts(inputs) == Some(Range(350_0000, 350_0000));
    WholeStaysOnGrid(501);
  }

  ghost predicate BreakEvenPresent(inputs: Inputs) {
    && FixedCosts in inputs.amounts && Payroll in inputs.amounts
    && Price in inputs.amounts && VariableCost in inputs.amounts
  }

  ghost predicate SomeUnitEarns(inputs: Inputs) { exists p :: Choice(inputs, p) && UnitAt(p) > 0 }

  ghost predicate SomeUnitLoses(inputs: Inputs) { exists p :: Choice(inputs, p) && UnitAt(p) <= 0 }

  lemma UnitSigns(inputs: Inputs)
    requires Valid(inputs) && BreakEvenPresent(inputs)
    ensures SomeUnitEarns(inputs) <==> UnitContribution(inputs).value.high > 0
    ensures SomeUnitLoses(inputs) <==> UnitContribution(inputs).value.low <= 0
    ensures SomeUnitEarns(inputs) || SomeUnitLoses(inputs)
  {
    hide UnitAt, UnitContribution, Best, Worst, Valid, Choice;
    EndsAreChoices(inputs);
    UnitBetween(inputs, Best(inputs));
    forall p | Choice(inputs, p) ensures In(UnitContribution(inputs).value, UnitAt(p)) { UnitBetween(inputs, p); }
    assert UnitAt(Best(inputs)) > 0 || UnitAt(Best(inputs)) <= 0;
  }

  /** The break-even status says whether no choice of points, every choice, or only some earn on a unit. */
  lemma BreakEvenStatus(inputs: Inputs)
    requires Valid(inputs)
    ensures BreakEvenUnits(inputs).BreakEvenUnknown? <==> !BreakEvenPresent(inputs)
    ensures BreakEvenUnits(inputs).NoPositiveContribution? <==> BreakEvenPresent(inputs) && !SomeUnitEarns(inputs)
    ensures BreakEvenUnits(inputs).Volume? <==> BreakEvenPresent(inputs) && !SomeUnitLoses(inputs)
    ensures BreakEvenUnits(inputs).IncludesNonpositive?
      <==> BreakEvenPresent(inputs) && SomeUnitEarns(inputs) && SomeUnitLoses(inputs)
  {
    hide CeilingOfQuotient, GridOf, SomeUnitEarns, SomeUnitLoses;
    if BreakEvenPresent(inputs) {
      UnitSigns(inputs);
      EndsAreChoices(inputs);
      CostsEnds(inputs);
      UnitBetween(inputs, Best(inputs));
      hide OperatingCosts, UnitContribution, CostsAt, UnitAt;
    }
  }

  // ---------------------------------------------------------------- runway

  lemma RunwayEnds(inputs: Inputs)
    requires Valid(inputs) && RunwayMonths(inputs).Months?
    ensures Cash in inputs.amounts && Burn(inputs).Some? && Burn(inputs).value.low > 0
    ensures var cash, burn := inputs.amounts[Cash], Burn(inputs).value;
      RunwayMonths(inputs).months
        == Some(Range(GridOf(Quotient(cash.low, burn.high)), GridOf(Quotient(cash.high, burn.low))))
  {
    hide Quotient, GridOf, Burn, BurnAt;
    BurnEnds(inputs);
    var cash, burn := inputs.amounts[Cash], Burn(inputs).value;
    assert ValidAmount(Cash, cash);
    QuotientIsMonotone(cash.low, burn.high, cash.high, burn.low);
    QuotientIsSafe(cash.low, burn.high);
    QuotientIsSafe(cash.high, burn.low);
  }

  lemma QuotientIsSafe(a: nat, b: int)
    requires a <= MAX_MONEY && b > 0
    ensures 0.0 <= Quotient(a, b) <= 9007199254740991.0
  {
    hide Quotient;
    QuotientIsNear(a, b);
    QuotientOrder(a as real, b as real, a as real, 1.0);
  }

  /** Cash divided by burn, in steps of the grid. */
  function ExactMonths(cash: int, burn: int): real
    requires burn > 0
  {
    cash as real / burn as real * 10000.0
  }

  /** The exact quotient lies in the range widened by a step, and by a relative 2^-50 for quotients that large. */
  predicate IsNear(months: Range, steps: real) {
    var slack := 0.6 + steps * 8.0 / TWO_53;
    Ordered(months) && months.low as real - slack <= steps <= months.high as real + slack
  }

  /**
   A calculated runway is never cut off, is ordered, and contains cash divided by burn at every choice to within the
   rounding.
   */
  lemma RunwayContainsQuotient(inputs: Inputs, p: Point)
    requires Valid(inputs) && Choice(inputs, p)
    ensures RunwayMonths(inputs).Months? ==>
      && RunwayMonths(inputs).months.Some? && BurnAt(p) > 0
      && IsNear(RunwayMonths(inputs).months.value, ExactMonths(At(p, Cash), BurnAt(p)))
  {
    hide Quotient, GridOf, Burn, BurnAt, RunwayMonths;
    if RunwayMonths(inputs).Months? {
      RunwayEnds(inputs);
      BurnEnds(inputs);
      BurnBetween(inputs, p);
      var cash, burn, b, c := inputs.amounts[Cash], Burn(inputs).value, BurnAt(p), At(p, Cash);
      assert ValidAmount(Cash, cash);
      QuotientIsMonotone(cash.low, burn.high, c, b);
      QuotientIsMonotone(c, b, cash.high, burn.low);
      GridOfIsMonotone(Quotient(cash.low, burn.high), Quotient(c, b));
      GridOfIsMonotone(Quotient(c, b), Quotient(cash.high, burn.low));
      GridQuotientIsNear(c, b);
    }
  }

  ghost predicate SomeChoiceBurns(inputs: Inputs) { exists p :: Choice(inputs, p) && BurnAt(p) > 0 }

  ghost predicate SomeChoiceKeeps(inputs: Inputs) { exists p :: Choice(inputs, p) && BurnAt(p) == 0 }

  ghost predicate BurnKnownAndCash(inputs: Inputs) {
    ResultPresent(inputs) && ResultWithinLimit(inputs) && Cash in inputs.amounts
  }

  lemma BurnSigns(inputs: Inputs)
    requires Valid(inputs) && Burn(inputs).Some?
    ensures SomeChoiceBurns(inputs) <==> Burn(inputs).value.high > 0
    ensures SomeChoiceKeeps(inputs) <==> Burn(inputs).value.low == 0
    ensures SomeChoiceBurns(inputs) || SomeChoiceKeeps(inputs)
  {
    hide BurnAt, Burn, Best, Worst, Valid, Choice;
    EndsAreChoices(inputs);
    BurnEnds(inputs);
    forall p | Choice(inputs, p) ensures In(Burn(inputs).value, BurnAt(p)) { BurnBetween(inputs, p); }
    assert BurnAt(Best(inputs)) > 0 || BurnAt(Best(inputs)) == 0;
  }

  /**
   The runway status. With a known operating result: no burn if no choice of points burns; otherwise, with cash given,
   months if every choice burns and a crossing of zero if only some do. Unknown in all other cases.
   */
  lemma RunwayStatus(inputs: Inputs)
    requires Valid(inputs)
    ensures RunwayMonths(inputs).NoBurn?
      <==> ResultPresent(inputs) && ResultWithinLimit(inputs) && !SomeChoiceBurns(inputs)
    ensures RunwayMonths(inputs).Months? <==> BurnKnownAndCash(inputs) && !SomeChoiceKeeps(inputs)
    ensures RunwayMonths(inputs).CrossesZero?
      <==> BurnKnownAndCash(inputs) && SomeChoiceBurns(inputs) && SomeChoiceKeeps(inputs)
    ensures RunwayMonths(inputs).RunwayUnknown?
      <==> !(ResultPresent(inputs) && ResultWithinLimit(inputs))
           || (Cash !in inputs.amounts && SomeChoiceBurns(inputs))
  {
    hide *;
    BurnKnown(inputs);
    OperatingResultKnown(inputs);
    CashIsGiven(inputs);
    if Burn(inputs).Some? {
      BurnSigns(inputs);
      BurnIsNotNegative(inputs);
    }
    StatusByBurn(inputs);
  }

  lemma CashIsGiven(inputs: Inputs)
    ensures BurnKnownAndCash(inputs) <==> ResultPresent(inputs) && ResultWithinLimit(inputs) && Cash in inputs.amounts
  {
  }

  lemma BurnIsNotNegative(inputs: Inputs)
    requires Valid(inputs) && Burn(inputs).Some?
    ensures 0 <= Burn(inputs).value.low <= Burn(inputs).value.high
  {
    hide *;
    BurnEnds(inputs);
  }

  /** The runway status by the range of the burn. */
  lemma StatusByBurn(inputs: Inputs)
    requires Valid(inputs) && (Burn(inputs).Some? ==> 0 <= Burn(inputs).value.low <= Burn(inputs).value.high)
    ensures var (r, b) := (RunwayMonths(inputs), Burn(inputs));
      && (r.NoBurn? <==> b.Some? && b.value.high == 0)
      && (r.Months? <==> b.Some? && b.value.low > 0 && Cash in inputs.amounts)
      && (r.CrossesZero? <==> b.Some? && b.value.low == 0 < b.value.high && Cash in inputs.amounts)
      && (r.RunwayUnknown? <==> b.None? || (b.value.high > 0 && Cash !in inputs.amounts))
  {
    hide Burn, Quotient, FiniteDoubles, Valid;
  }

  /** A price of 9 to 11 for 100 units against costs of 1000 loses 100 a month or earns 100: the runway crosses zero. */
  lemma MayBurn(inputs: Inputs)
    requires Valid(inputs)
    requires Amount(inputs, Price) == Some(Range(9_0000, 11_0000)) && Amount(inputs, Units) == Some(Range(100, 100))
    requires Amount(inputs, VariableCost) == Some(Range(0, 0))
    requires Amount(inputs, FixedCosts) == Some(Range(1000_0000, 1000_0000))
    requires Amount(inputs, Payroll) == Some(Range(0, 0)) && Cash in inputs.amounts
    ensures RunwayMonths(inputs).CrossesZero?
  {
    assert Contribution(inputs) == Some(Range(900_0000, 1100_0000));
    assert OperatingCosts(inputs) == Some(Range(1000_0000, 1000_0000));
  }

  // ---------------------------------------------------------------- funding

  lemma OutlayEnds(inputs: Inputs)
    requires Valid(inputs) && InitialOutlay(inputs).Some?
    ensures InitialOutlay(inputs).value == Range(OutlayAt(Best(inputs), inputs), OutlayAt(Worst(inputs), inputs))
    ensures 0 <= OutlayAt(Best(inputs), inputs) <= OutlayAt(Worst(inputs), inputs) <= 2 * MAX_MONEY
  {
    if inputs.path == Some(BuyExisting) {
      assert ValidAmount(Acquisition, inputs.amounts[Acquisition])
        && ValidAmount(Transition, inputs.amounts[Transition]);
      AddEnds(inputs.amounts[Acquisition], inputs.amounts[Transition]);
    } else {
      assert ValidAmount(SetupCosts, inputs.amounts[SetupCosts]);
    }
  }

  lemma OutlayBetween(inputs: Inputs, p: Point)
    requires Valid(inputs) && InitialOutlay(inputs).Some? && Choice(inputs, p)
    ensures OutlayAt(Best(inputs), inputs) <= OutlayAt(p, inputs) <= OutlayAt(Worst(inputs), inputs)
  {
  }

  /** The branch for no burn at all gives what the general formula would. */
  lemma ZeroBurnBranchIsGeneral(outlay: Range, cash: Range, n: nat)
    requires Ordered(outlay) && Ordered(cash) && Max(Abs(outlay.low), Abs(outlay.high)) <= MAX_SAFE
    ensures PositivePart(FiniteRange(outlay.low - cash.high, outlay.high - cash.low))
         == PositivePart(Subtract(Add(Some(outlay), Multiply(Some(Range(0, 0)), Some(Range(n, n)))), Some(cash)))
  {
    assert 0 * n == 0;
    assert Multiply(Some(Range(0, 0)), Some(Range(n, n))) == Some(Range(0, 0));
  }

  lemma GapEnds(inputs: Inputs)
    requires Valid(inputs) && FundingGap(inputs).Some?
    ensures FundingGap(inputs).value == Range(GapAt(Best(inputs), inputs), GapAt(Worst(inputs), inputs))
    ensures Ordered(FundingGap(inputs).value)
  {
    hide Burn, BurnAt, OutlayAt, InitialOutlay;
    AbsentGapParts(inputs);
    OutlayEnds(inputs);
    BurnEnds(inputs);
    EndsAreChoices(inputs);
    CountIsFixed(inputs, Best(inputs), TargetMonths);
    var outlay, burn, cash := InitialOutlay(inputs).value, Burn(inputs).value, inputs.amounts[Cash];
    assert ValidAmount(Cash, cash) && ValidAmount(TargetMonths, inputs.amounts[TargetMonths]);
    GapRange(outlay, burn, inputs.amounts[TargetMonths].low, cash);
  }

  lemma AbsentGapParts(inputs: Inputs)
    requires FundingGap(inputs).Some?
    ensures InitialOutlay(inputs).Some? && Burn(inputs).Some? && Cash in inputs.amounts
      && TargetMonths in inputs.amounts
  {
  }

  /** Both branches of the funding formula on given intervals. */
  lemma GapRange(outlay: Range, burn: Range, n: nat, cash: Range)
    requires Ordered(outlay) && 0 <= burn.low <= burn.high && Ordered(cash)
    ensures var gap := if burn.high == 0 then PositivePart(FiniteRange(outlay.low - cash.high, outlay.high - cash.low))
                       else PositivePart(Subtract(Add(Some(outlay), Multiply(Some(burn), Some(Range(n, n)))),
                         Some(cash)));
      gap.Some? ==>
        gap.value == Range(Max(0, outlay.low + burn.low * n - cash.high),
          Max(0, outlay.high + burn.high * n - cash.low))
        && Ordered(gap.value)
  {
    ScaledOrder(burn.low, burn.low, burn.high, n);
    if burn.high == 0 {
      assert burn.low * n == 0 && burn.high * n == 0;
    } else {
      var paid := Multiply(Some(burn), Some(Range(n, n)));
      if paid.Some? {
        MultiplyByCount(burn, n);
        AddEnds(outlay, paid.value);
      }
    }
  }

  lemma GapBetween(inputs: Inputs, p: Point)
    requires Valid(inputs) && FundingGap(inputs).Some? && Choice(inputs, p)
    ensures GapAt(Best(inputs), inputs) <= GapAt(p, inputs) <= GapAt(Worst(inputs), inputs)
  {
    hide Burn, BurnAt, OutlayAt, InitialOutlay, FundingGap;
    AbsentGapParts(inputs);
    OutlayBetween(inputs, p);
    BurnBetween(inputs, p);
    CountIsFixed(inputs, p, TargetMonths);
    ScaledOrder(BurnAt(Best(inputs)), BurnAt(p), BurnAt(Worst(inputs)), At(p, TargetMonths));
  }

  /** The inputs of the funding gap on the chosen path; an undecided path has none. */
  ghost predicate GapPresent(inputs: Inputs) {
    && ResultPresent(inputs) && Cash in inputs.amounts && TargetMonths in inputs.amounts
    && inputs.path != Some(Undecided) && (inputs.path == None ==> !inputs.buyBuild)
    && (if inputs.path == Some(BuyExisting) then Acquisition in inputs.amounts && Transition in inputs.amounts
        else SetupCosts in inputs.amounts)
  }

  lemma OutlayKnown(inputs: Inputs)
    requires Valid(inputs)
    ensures InitialOutlay(inputs).Some? <==>
      && inputs.path != Some(Undecided) && (inputs.path == None ==> !inputs.buyBuild)
      && (if inputs.path == Some(BuyExisting) then Acquisition in inputs.amounts && Transition in inputs.amounts
          else SetupCosts in inputs.amounts)
  {
    if inputs.path == Some(BuyExisting) && Acquisition in inputs.amounts && Transition in inputs.amounts {
      assert ValidAmount(Acquisition, inputs.amounts[Acquisition])
        && ValidAmount(Transition, inputs.amounts[Transition]);
      AddEnds(inputs.amounts[Acquisition], inputs.amounts[Transition]);
    }
  }

  /** Both branches of the funding formula give a range exactly when the largest need stays within the limit. */
  lemma GapRangeKnown(outlay: Range, burn: Range, n: nat, cash: Range)
    requires 0 <= outlay.low <= outlay.high <= 2 * MAX_MONEY && 0 <= burn.low <= burn.high
      && 0 <= cash.low <= cash.high <= MAX_MONEY
    ensures var gap := if burn.high == 0 then PositivePart(FiniteRange(outlay.low - cash.high, outlay.high - cash.low))
                       else PositivePart(Subtract(Add(Some(outlay), Multiply(Some(burn), Some(Range(n, n)))),
                         Some(cash)));
      gap.Some? <==> outlay.high + burn.high * n <= MAX_SAFE
  {
    MultipliedKnown(burn, n);
    hide Multiply, Subtract, Add, PositivePart;
    if burn.high == 0 {
      assert burn.high * n == 0;
      PositivePartEnds(Range(outlay.low - cash.high, outlay.high - cash.low));
    } else if burn.high * n <= MAX_SAFE {
      AddedGapKnown(outlay, Range(burn.low * n, burn.high * n), cash);
    } else {
      NothingKnown(outlay, cash);
    }
  }

  lemma AddedGapKnown(outlay: Range, paid: Range, cash: Range)
    requires 0 <= outlay.low <= outlay.high && 0 <= paid.low <= paid.high && 0 <= cash.low <= cash.high <= MAX_MONEY
    ensures PositivePart(Subtract(Add(Some(outlay), Some(paid)), Some(cash))).Some? <==>
      outlay.high + paid.high <= MAX_SAFE
  {
    AddEnds(outlay, paid);
    if outlay.high + paid.high <= MAX_SAFE {
      SubtractEnds(Range(outlay.low + paid.low, outlay.high + paid.high), cash);
      PositivePartEnds(Range(outlay.low + paid.low - cash.high, outlay.high + paid.high - cash.low));
    }
  }

  lemma NothingKnown(outlay: Range, cash: Range)
    ensures PositivePart(Subtract(Add(Some(outlay), None), Some(cash))) == None
  {
  }

  /** The largest need, the initial outlay and the burn of all months, stays within the limit. */
  predicate NeedWithinLimit(inputs: Inputs) {
    OutlayAt(Worst(inputs), inputs) + BurnAt(Worst(inputs)) * At(Worst(inputs), TargetMonths) <= MAX_SAFE
  }

  lemma GapKnownFromParts(inputs: Inputs)
    requires Valid(inputs) && InitialOutlay(inputs).Some? && Cash in inputs.amounts && TargetMonths in inputs.amounts
    requires Burn(inputs).Some?
    ensures FundingGap(inputs).Some? <==> NeedWithinLimit(inputs)
  {
    hide Burn, BurnAt, OutlayAt, InitialOutlay, Multiply, Subtract, Add, PositivePart, FiniteRange;
    OutlayEnds(inputs);
    BurnEnds(inputs);
    EndsAreChoices(inputs);
    CountIsFixed(inputs, Worst(inputs), TargetMonths);
    var outlay, burn, cash := InitialOutlay(inputs).value, Burn(inputs).value, inputs.amounts[Cash];
    assert ValidAmount(Cash, cash) && ValidAmount(TargetMonths, inputs.amounts[TargetMonths]);
    GapRangeKnown(outlay, burn, inputs.amounts[TargetMonths].low, cash);
  }

  /**
   The funding gap is known exactly when every input of its path is present and neither the operating result nor the
   largest need is too large; the difference is known exactly when the gap is and a request is present.
   */
  lemma FundingKnown(inputs: Inputs)
    requires Valid(inputs)
    ensures FundingGap(inputs).Some? <==> GapPresent(inputs) && ResultWithinLimit(inputs) && NeedWithinLimit(inputs)
    ensures FundingDifference(inputs).Some? <==> FundingGap(inputs).Some? && Requested in inputs.amounts
  {
    hide Burn, BurnAt, OutlayAt, InitialOutlay, FundingGap, ResultWithinLimit, NeedWithinLimit, Subtract;
    OutlayKnown(inputs);
    BurnKnown(inputs);
    OperatingResultKnown(inputs);
    if FundingGap(inputs).Some? { AbsentGapParts(inputs); }
    if InitialOutlay(inputs).Some? && Burn(inputs).Some? && Cash in inputs.amounts && TargetMonths in inputs.amounts {
      GapKnownFromParts(inputs);
    }
    if FundingGap(inputs).Some? && Requested in inputs.amounts { DifferenceKnown(inputs); }
  }

  lemma DifferenceKnown(inputs: Inputs)
    requires Valid(inputs) && FundingGap(inputs).Some? && Requested in inputs.amounts
    ensures FundingDifference(inputs).Some?
  {
    hide GapAt, FundingGap, Subtract;
    var requested := inputs.amounts[Requested];
    assert ValidAmount(Requested, requested);
    GapEnds(inputs);
    GapIsSafe(inputs);
    SubtractEnds(requested, FundingGap(inputs).value);
  }

  lemma GapIsSafe(inputs: Inputs)
    requires FundingGap(inputs).Some?
    ensures 0 <= FundingGap(inputs).value.low && FundingGap(inputs).value.high <= MAX_SAFE
  {
  }

  /** A known funding gap is the exact image of the plain formula, whichever branch computed it. */
  lemma FundingGapIsExact(inputs: Inputs)
    requires Valid(inputs)
    ensures FundingGap(inputs).Some? ==> Exact(FundingGap(inputs).value, GapValues(inputs))
  {
    hide FundingGap, GapAt;
    if FundingGap(inputs).Some? {
      GapEnds(inputs);
      EndsAreChoices(inputs);
      forall x | x in GapValues(inputs) ensures In(FundingGap(inputs).value, x) {
        var p :| Choice(inputs, p) && x == GapAt(p, inputs);
        GapBetween(inputs, p);
      }
    }
  }

  lemma WithRequested(inputs: Inputs, p: Point, requested: int)
    requires Choice(inputs, p) && Requested in inputs.amounts && In(inputs.amounts[Requested], requested)
    ensures requested - GapAt(p, inputs) in DifferenceValues(inputs)
  {
    var q := p[Requested := requested];
    assert Choice(inputs, q);
    GapIgnoresRequested(p, requested, inputs);
    hide GapAt, Choice;
    assert At(q, Requested) == requested;
  }

  lemma GapIgnoresRequested(p: Point, requested: int, inputs: Inputs)
    ensures GapAt(p[Requested := requested], inputs) == GapAt(p, inputs)
  {
  }

  lemma DifferenceEnds(inputs: Inputs)
    requires Valid(inputs) && FundingDifference(inputs).Some?
    ensures FundingDifference(inputs).value.low in DifferenceValues(inputs)
    ensures FundingDifference(inputs).value.high in DifferenceValues(inputs)
    ensures var requested := inputs.amounts[Requested];
      FundingDifference(inputs).value
      == Range(requested.low - GapAt(Worst(inputs), inputs), requested.high - GapAt(Best(inputs), inputs))
  {
    hide FundingGap, GapAt, DifferenceValues, Choice;
    var requested := inputs.amounts[Requested];
    assert ValidAmount(Requested, requested);
    GapEnds(inputs);
    SubtractEnds(requested, FundingGap(inputs).value);
    EndsAreChoices(inputs);
    WithRequested(inputs, Worst(inputs), requested.low);
    WithRequested(inputs, Best(inputs), requested.high);
  }

  /** A known difference between request and gap is the exact image of the plain formula. */
  lemma FundingDifferenceIsExact(inputs: Inputs)
    requires Valid(inputs)
    ensures FundingDifference(inputs).Some? ==> Exact(FundingDifference(inputs).value, DifferenceValues(inputs))
  {
    hide FundingGap, GapAt;
    if FundingDifference(inputs).Some? {
      DifferenceEnds(inputs);
      forall x | x in DifferenceValues(inputs) ensures In(FundingDifference(inputs).value, x) {
        var p :| Choice(inputs, p) && x == At(p, Requested) - GapAt(p, inputs);
        GapBetween(inputs, p);
      }
    }
  }
}
