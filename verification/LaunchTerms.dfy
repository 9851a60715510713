/** Plain values as a browser keeps them, and the validity of launch terms. */
module LaunchTerms {
  import opened Texts

  /** Property names; every name the code does not mention is Extra. */
  datatype Name =
    | Id | Title | Description | Price | Launch | Workflow | Revision | CreatedAt | UpdatedAt
    | InputRevision | RunId | Status | OutputText | OutputDigest | ReviewedDigest
    | MerchantId | AgentId | Audience | Outcome | Currency
    | PriceMinor | DeliveryCostMinor | ProviderFeeMinor | AgentCostMinor | AcquisitionCostMinor | FixedCostMinor
    | Schema | Drafts
    | Extra(text: string)

  /** A plain value. Objects remember the order of their keys, which JSON text shows. */
  datatype Json =
    | Null
    | Bool(b: bool)
    | Num(n: int)
    | Fraction(text: string)
    | Str(s: string)
    | Arr(items: seq<Json>)
    | Obj(order: seq<Name>, at: map<Name, Json>)
  {
    predicate StrAt(name: Name) { Obj? && name in at && at[name].Str? }
    predicate NumAt(name: Name) { Obj? && name in at && at[name].Num? }
  }

  predicate Truthy(v: Json) {
    match v
    case Null => false
    case Bool(b) => b
    case Num(n) => n != 0
    case Fraction(_) => true
    case Str(s) => s != ""
    case Arr(_) => true
    case Obj(_, _) => true
  }

  const MAX_SAFE_INTEGER := 9007199254740991
  const MAXIMUM_AMOUNT_MINOR := 1000000000

  predicate SafeInteger(v: Json) { v.Num? && -MAX_SAFE_INTEGER <= v.n <= MAX_SAFE_INTEGER }

  const ID_FIELDS: seq<Name> := [MerchantId, AgentId]
  const DESCRIPTION_FIELDS: seq<Name> := [Audience, Outcome]
  const MONEY_FIELDS: seq<Name> :=
    [PriceMinor, DeliveryCostMinor, ProviderFeeMinor, AgentCostMinor, AcquisitionCostMinor, FixedCostMinor]
  const CHECK_ORDER: seq<Name> := ID_FIELDS + DESCRIPTION_FIELDS + [Currency] + MONEY_FIELDS

  /** The keys of launch terms in alphabetical order. */
  const TERMS_ORDER: seq<Name> :=
    [AcquisitionCostMinor, AgentCostMinor, AgentId, Audience, Currency, DeliveryCostMinor, FixedCostMinor, MerchantId,
     Outcome, PriceMinor, ProviderFeeMinor]
  const TERMS_KEYS: set<Name> :=
    {AcquisitionCostMinor, AgentCostMinor, AgentId, Audience, Currency, DeliveryCostMinor, FixedCostMinor, MerchantId,
     Outcome, PriceMinor, ProviderFeeMinor}

  predicate LowerOrDigit(c: char) { 'a' <= c <= 'z' || IsDigit(c) }

  predicate RegistryId(s: string) {
    1 <= |s| <= 128 && LowerOrDigit(s[0])
    && forall i :: 1 <= i < |s| ==> LowerOrDigit(s[i]) || s[i] == '.' || s[i] == '_' || s[i] == '-'
  }

  predicate CurrencyCode(s: string) { |s| == 3 && forall i :: 0 <= i < 3 ==> 'A' <= s[i] <= 'Z' }

  /** The check a single field has to pass. */
  predicate FieldOk(v: Json, field: Name) {
    if field in ID_FIELDS then v.StrAt(field) && RegistryId(v.at[field].s)
    else if field in DESCRIPTION_FIELDS then
      v.StrAt(field) && v.at[field].s != "" && Trim(v.at[field].s) == v.at[field].s && Utf16Length(v.at[field].s) <= 280
    else if field == Currency then v.StrAt(field) && CurrencyCode(v.at[field].s)
    else
      v.NumAt(field) && SafeInteger(v.at[field])
      && (if field == PriceMinor then 1 else 0) <= v.at[field].n <= MAXIMUM_AMOUNT_MINOR
  }

  predicate TermsShape(v: Json) { v.Obj? && v.at.Keys == TERMS_KEYS }

  /** Launch terms in one line: the right keys, and every one of them in order. */
  predicate ValidTerms(v: Json) { TermsShape(v) && forall i :: 0 <= i < |CHECK_ORDER| ==> FieldOk(v, CHECK_ORDER[i]) }

  function Failing(v: Json, fields: seq<Name>): seq<Name> {
    if fields == [] then []
    else Failing(v, fields[..|fields| - 1]) + (if FieldOk(v, fields[|fields| - 1]) then [] else [fields[|fields| - 1]])
  }

  /** The reported fields in the order of the checks; the whole value is reported as Launch. */
  function InvalidFields(v: Json): seq<Name> {
    (if TermsShape(v) then [] else [Launch]) + Failing(v, CHECK_ORDER)
  }

  method CheckFields(v: Json, fields: seq<Name>, found: seq<Name>) returns (result: seq<Name>)
    ensures result == found + Failing(v, fields)
  {
    result := found;
    for i := 0 to |fields|
      invariant result == found + Failing(v, fields[..i])
    {
      assert fields[..i + 1][..i] == fields[..i];
      if !FieldOk(v, fields[i]) { result := result + [fields[i]]; }
    }
    assert fields[..|fields|] == fields;
  }

  /** Collects the fields to report, group by group. */
  method InvalidLaunchFields(value: Json) returns (fields: seq<Name>)
    ensures fields == InvalidFields(value)
    ensures fields == [] <==> ValidTerms(value)
  {
    FailingByGroup(value);
    NothingFailing(value);
    hide FieldOk, Failing, ValidTerms;
    fields := if TermsShape(value) then [] else [Launch];
    fields := CheckFields(value, ID_FIELDS, fields);
    fields := CheckFields(value, DESCRIPTION_FIELDS, fields);
    if !FieldOk(value, Currency) { fields := fields + [Currency]; }
    fields := CheckFields(value, MONEY_FIELDS, fields);
  }

  lemma FailingByGroup(v: Json)
    ensures Failing(v, CHECK_ORDER)
      == Failing(v, ID_FIELDS) + Failing(v, DESCRIPTION_FIELDS) + (if FieldOk(v, Currency) then [] else [Currency])
         + Failing(v, MONEY_FIELDS)
  {
    hide FieldOk;
    FailingOfConcat(v, ID_FIELDS + DESCRIPTION_FIELDS + [Currency], MONEY_FIELDS);
    FailingOfConcat(v, ID_FIELDS + DESCRIPTION_FIELDS, [Currency]);
    FailingOfConcat(v, ID_FIELDS, DESCRIPTION_FIELDS);
    assert [Currency][..0] == [] && Failing(v, []) == [];
  }

  lemma {:induction false} FailingOfConcat(v: Json, a: seq<Name>, b: seq<Name>)
    ensures Failing(v, a + b) == Failing(v, a) + Failing(v, b)
    decreases |b|
  {
    if b == [] {
      assert a + b == a;
    } else {
      assert (a + b)[..|a + b| - 1] == a + b[..|b| - 1];
      FailingOfConcat(v, a, b[..|b| - 1]);
    }
  }

  /** A field is reported exactly when its check fails. */
  lemma {:induction false} FailingMeaning(v: Json, fields: seq<Name>, f: Name)
    ensures f in Failing(v, fields) <==> f in fields && !FieldOk(v, f)
    decreases |fields|
  {
    if fields != [] {
      var init := fields[..|fields| - 1];
      FailingMeaning(v, init, f);
      assert fields == init + [fields[|fields| - 1]];
    }
  }

  /** Nothing is reported exactly for valid terms. */
  lemma NothingFailing(v: Json)
    ensures InvalidFields(v) == [] <==> ValidTerms(v)
  {
    hide FieldOk;
    forall i | 0 <= i < |CHECK_ORDER|
      ensures CHECK_ORDER[i] in Failing(v, CHECK_ORDER) <==> !FieldOk(v, CHECK_ORDER[i])
    {
      FailingMeaning(v, CHECK_ORDER, CHECK_ORDER[i]);
    }
    if Failing(v, CHECK_ORDER) != [] {
      var f := Failing(v, CHECK_ORDER)[0];
      FailingMeaning(v, CHECK_ORDER, f);
    }
  }

  // ---------------------------------------------------------------- valid terms, field by field

  predicate MoneyAt(v: Json, field: Name, least: int) {
    v.NumAt(field) && least <= v.at[field].n <= 1_000_000_000
  }

  predicate RegistryIdAt(v: Json, field: Name) { v.StrAt(field) && RegistryId(v.at[field].s) }

  predicate ShortTextAt(v: Json, field: Name) {
    && v.StrAt(field) && v.at[field].s != "" && NoOuterSpace(v.at[field].s) && Utf16Length(v.at[field].s) <= 280
  }

  lemma KeysOfTerms()
    ensures TERMS_KEYS == {MerchantId, AgentId, Audience, Outcome, Currency, PriceMinor, DeliveryCostMinor,
                           ProviderFeeMinor, AgentCostMinor, AcquisitionCostMinor, FixedCostMinor}
  {
  }

  /** Valid terms are the eleven fields and nothing else, each within its own limits. */
  lemma ValidTermsMeaning(v: Json)
    ensures ValidTerms(v) <==>
      && v.Obj?
      && v.at.Keys == {MerchantId, AgentId, Audience, Outcome, Currency, PriceMinor, DeliveryCostMinor,
                       ProviderFeeMinor, AgentCostMinor, AcquisitionCostMinor, FixedCostMinor}
      && RegistryIdAt(v, MerchantId) && RegistryIdAt(v, AgentId)
      && ShortTextAt(v, Audience) && ShortTextAt(v, Outcome)
      && v.StrAt(Currency) && CurrencyCode(v.at[Currency].s)
      && MoneyAt(v, PriceMinor, 1) && MoneyAt(v, DeliveryCostMinor, 0) && MoneyAt(v, ProviderFeeMinor, 0)
      && MoneyAt(v, AgentCostMinor, 0) && MoneyAt(v, AcquisitionCostMinor, 0) && MoneyAt(v, FixedCostMinor, 0)
  {
    hide TERMS_KEYS, FieldOk, RegistryIdAt, ShortTextAt, MoneyAt, CHECK_ORDER, MONEY_FIELDS, CurrencyCode;
    KeysOfTerms();
    IdsMean(v);
    TextsMean(v);
    AllMoneyMeans(v);
    AllFieldsOk(v);
  }

  lemma AllFieldsOk(v: Json)
    ensures (forall i :: 0 <= i < |CHECK_ORDER| ==> FieldOk(v, CHECK_ORDER[i])) <==>
      && FieldOk(v, MerchantId) && FieldOk(v, AgentId) && FieldOk(v, Audience) && FieldOk(v, Outcome)
      && FieldOk(v, Currency) && FieldOk(v, PriceMinor) && FieldOk(v, DeliveryCostMinor) && FieldOk(v, ProviderFeeMinor)
      && FieldOk(v, AgentCostMinor) && FieldOk(v, AcquisitionCostMinor) && FieldOk(v, FixedCostMinor)
  {
    hide FieldOk;
    assert |CHECK_ORDER| == 11;
    assert CHECK_ORDER[0] == MerchantId && CHECK_ORDER[1] == AgentId && CHECK_ORDER[2] == Audience;
    assert CHECK_ORDER[3] == Outcome && CHECK_ORDER[4] == Currency && CHECK_ORDER[5] == PriceMinor;
    assert CHECK_ORDER[6] == DeliveryCostMinor && CHECK_ORDER[7] == ProviderFeeMinor;
    assert CHECK_ORDER[8] == AgentCostMinor && CHECK_ORDER[9] == AcquisitionCostMinor;
    assert CHECK_ORDER[10] == FixedCostMinor;
  }

  lemma IdsMean(v: Json)
    ensures FieldOk(v, MerchantId) <==> RegistryIdAt(v, MerchantId)
    ensures FieldOk(v, AgentId) <==> RegistryIdAt(v, AgentId)
    ensures FieldOk(v, Currency) <==> v.StrAt(Currency) && CurrencyCode(v.at[Currency].s)
  {
    assert MerchantId in ID_FIELDS && AgentId in ID_FIELDS;
  }

  lemma TextsMean(v: Json)
    ensures FieldOk(v, Audience) <==> ShortTextAt(v, Audience)
    ensures FieldOk(v, Outcome) <==> ShortTextAt(v, Outcome)
  {
    assert Audience in DESCRIPTION_FIELDS && Outcome in DESCRIPTION_FIELDS;
    if v.StrAt(Audience) { TrimsToItself(v.at[Audience].s); }
    if v.StrAt(Outcome) { TrimsToItself(v.at[Outcome].s); }
    hide Trim, NoOuterSpace;
  }

  lemma TrimsToItself(s: string)
    ensures Trim(s) == s <==> NoOuterSpace(s)
  {
    TrimRemovesOuterSpace(s);
    if NoOuterSpace(s) { TrimOfTrimmed(s); }
  }

  lemma MoneyMeans(v: Json, field: Name)
    requires field !in ID_FIELDS && field !in DESCRIPTION_FIELDS && field != Currency
    ensures FieldOk(v, field) <==> MoneyAt(v, field, if field == PriceMinor then 1 else 0)
  {
    hide ID_FIELDS, DESCRIPTION_FIELDS;
  }

  lemma AllMoneyMeans(v: Json)
    ensures FieldOk(v, PriceMinor) <==> MoneyAt(v, PriceMinor, 1)
    ensures FieldOk(v, DeliveryCostMinor) <==> MoneyAt(v, DeliveryCostMinor, 0)
    ensures FieldOk(v, ProviderFeeMinor) <==> MoneyAt(v, ProviderFeeMinor, 0)
    ensures FieldOk(v, AgentCostMinor) <==> MoneyAt(v, AgentCostMinor, 0)
    ensures FieldOk(v, AcquisitionCostMinor) <==> MoneyAt(v, AcquisitionCostMinor, 0)
    ensures FieldOk(v, FixedCostMinor) <==> MoneyAt(v, FixedCostMinor, 0)
  {
    hide FieldOk, MoneyAt;
    MoneyMeans(v, PriceMinor);
    MoneyMeans(v, DeliveryCostMinor);
    MoneyMeans(v, ProviderFeeMinor);
    MoneyMeans(v, AgentCostMinor);
    MoneyMeans(v, AcquisitionCostMinor);
    MoneyMeans(v, FixedCostMinor);
  }
}
