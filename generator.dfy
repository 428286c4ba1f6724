/** The synthetic data generator: a table of hospitals with random specialties
    and capacities, and a table of transfer cases whose free-text report is
    filled in from a template and whose labels come from a fixed condition
    table.

    The random number generators are not modelled. Every value the source
    draws is supplied instead, one record of draws per row, and the records
    are required to lie in the half-open ranges the source asks the
    generator for. */
module Generator {
  import opened Strings
  import opened Records
  import Decision

  // The constant tables

  const SPECIALTIES: seq<string> :=
    ["Emergency", "Surgery", "Cardiology", "Neurology", "Orthopedics", "ICU", "Pediatrics"]

  const SEVERITY_LEVELS: seq<string> := ["stable", "urgent", "critical"]

  const SYMPTOMS: seq<string> :=
    ["chest pain", "shortness of breath", "bleeding", "high fever",
     "head trauma", "seizure", "low BP", "vomiting"]

  /** A row of the condition table: the condition named in the report, the
      specialty it needs and its severity. */
  datatype Condition = Condition(name: string, specialty: string, severity: string)

  const CONDITIONS: seq<Condition> := [
    Condition("myocardial infarction", "Cardiology", "critical"),
    Condition("stroke", "Neurology", "critical"),
    Condition("internal bleeding", "Surgery", "critical"),
    Condition("fracture", "Orthopedics", "urgent"),
    Condition("sepsis", "ICU", "critical"),
    Condition("appendicitis", "Surgery", "urgent"),
    Condition("asthma attack", "Emergency", "urgent"),
    Condition("pediatric dehydration", "Pediatrics", "urgent")
  ]

  const RISK_WORDS: seq<string> := ["low", "moderate", "high"]

  // Report templates

  /** The keyword arguments the report template is formatted with. */
  datatype Bindings = Bindings(symptom1: string, symptom2: string, cond: string, risk: string, spec: string)

  /** The number of report templates. */
  const TEMPLATE_COUNT := 3

  /** `TEMPLATES[template].format(**b)`: the three report templates, each with
      its placeholders replaced by the bound values. */
  function Report(template: int, b: Bindings): string
    requires 0 <= template < TEMPLATE_COUNT
  {
    if template == 0 then
      "Patient has " + b.symptom1 + " and " + b.symptom2 + ". Suspected " + b.cond + ". Needs " + b.spec + "."
    else if template == 1 then
      "Report indicates " + b.cond + " with " + b.symptom1 + ". Risk is " + b.risk + ". Suggested " + b.spec + "."
    else
      "Severe " + b.symptom1 + ", " + b.symptom2 + ". Possible " + b.cond + ". Transfer to " + b.spec + "."
  }

  /** Every template names the condition and the specialty. */
  lemma ReportNamesConditionAndSpecialty(template: int, b: Bindings)
    requires 0 <= template < TEMPLATE_COUNT
    ensures Contains(Report(template, b), b.cond)
    ensures Contains(Report(template, b), b.spec)
  {
    if template == 0 {
      var s := "Patient has " + b.symptom1 + " and " + b.symptom2 + ". Suspected " + b.cond;
      ContainsAtEnd("Patient has " + b.symptom1 + " and " + b.symptom2 + ". Suspected ", b.cond);
      ContainsLeft(s, ". Needs ", b.cond);
      ContainsLeft(s + ". Needs ", b.spec, b.cond);
      ContainsLeft(s + ". Needs " + b.spec, ".", b.cond);
      ContainsAtEnd(s + ". Needs ", b.spec);
      ContainsLeft(s + ". Needs " + b.spec, ".", b.spec);
    } else if template == 1 {
      var s := "Report indicates " + b.cond;
      ContainsAtEnd("Report indicates ", b.cond);
      ContainsLeft(s, " with ", b.cond);
      ContainsLeft(s + " with ", b.symptom1, b.cond);
      ContainsLeft(s + " with " + b.symptom1, ". Risk is ", b.cond);
      ContainsLeft(s + " with " + b.symptom1 + ". Risk is ", b.risk, b.cond);
      ContainsLeft(s + " with " + b.symptom1 + ". Risk is " + b.risk, ". Suggested ", b.cond);
      ContainsLeft(s + " with " + b.symptom1 + ". Risk is " + b.risk + ". Suggested ", b.spec, b.cond);
      ContainsLeft(s + " with " + b.symptom1 + ". Risk is " + b.risk + ". Suggested " + b.spec, ".", b.cond);
      ContainsAtEnd(s + " with " + b.symptom1 + ". Risk is " + b.risk + ". Suggested ", b.spec);
      ContainsLeft(s + " with " + b.symptom1 + ". Risk is " + b.risk + ". Suggested " + b.spec, ".", b.spec);
    } else {
      var s := "Severe " + b.symptom1 + ", " + b.symptom2 + ". Possible " + b.cond;
      ContainsAtEnd("Severe " + b.symptom1 + ", " + b.symptom2 + ". Possible ", b.cond);
      ContainsLeft(s, ". Transfer to ", b.cond);
      ContainsLeft(s + ". Transfer to ", b.spec, b.cond);
      ContainsLeft(s + ". Transfer to " + b.spec, ".", b.cond);
      ContainsAtEnd(s + ". Transfer to ", b.spec);
      ContainsLeft(s + ". Transfer to " + b.spec, ".", b.spec);
    }
  }

  // Hospitals

  /** The values the hospital generator draws for one row, in draw order:
      the specialty indices `rng.choice` picks, then the bed total, free beds,
      ICU total, free ICU beds and the distance. */
  datatype HospitalDraws = HospitalDraws(
    picks: seq<int>,
    bedsTotal: int,
    bedsFree: int,
    icuTotal: int,
    icuFree: int,
    distance: int)

  /** The ranges the source asks for: 2 to 4 distinct specialties, beds in
      [40, 220), free beds in [0, max(1, total // 4)), ICU beds in [4, 25),
      free ICU beds in [0, max(1, total // 3)), distance in [2, 60). */
  predicate HospitalDrawsInRange(d: HospitalDraws) {
    && 2 <= |d.picks| < 5
    && (forall k | 0 <= k < |d.picks| :: 0 <= d.picks[k] < |SPECIALTIES|)
    && (forall k, l | 0 <= k < l < |d.picks| :: d.picks[k] != d.picks[l])
    && 40 <= d.bedsTotal < 220
    && 0 <= d.bedsFree < Max1(d.bedsTotal / 4)
    && 4 <= d.icuTotal < 25
    && 0 <= d.icuFree < Max1(d.icuTotal / 3)
    && 2 <= d.distance < 60
  }

  /** The specialty names the picks select, in pick order. */
  function PickedSpecialties(picks: seq<int>): (names: seq<string>)
    requires forall k | 0 <= k < |picks| :: 0 <= picks[k] < |SPECIALTIES|
    ensures |names| == |picks|
    ensures forall k | 0 <= k < |picks| :: names[k] == SPECIALTIES[picks[k]]
  {
    seq(|picks|, k requires 0 <= k < |picks| => SPECIALTIES[picks[k]])
  }

  /** The draws pick the specialty `spec` for the hospital. */
  predicate Offers(d: HospitalDraws, spec: string) {
    exists k | 0 <= k < |d.picks| :: 0 <= d.picks[k] < |SPECIALTIES| && SPECIALTIES[d.picks[k]] == spec
  }

  /** `np.clip(x, 0, 1)`. */
  function Clip01(x: real): (r: real)
    ensures 0.0 <= r <= 1.0
    ensures 0.0 <= x <= 1.0 ==> r == x
  {
    if x < 0.0 then 0.0 else if x > 1.0 then 1.0 else x
  }

  /** The load: the share of beds in use, clipped to [0, 1]. */
  function Load(bedsFree: int, bedsTotal: int): real {
    Clip01(1.0 - bedsFree as real / Max1(bedsTotal) as real)
  }

  /** `f"Hospital_{i+1}"`. */
  function HospitalName(i: nat): string {
    "Hospital_" + NatStr(i + 1)
  }

  /** Row `i` of the hospital table built from its draws. */
  function HospitalRow(i: nat, d: HospitalDraws): Hospital
    requires HospitalDrawsInRange(d)
  {
    Hospital(
      HospitalName(i),
      Join(PickedSpecialties(d.picks), ", "),
      d.bedsTotal,
      d.bedsFree,
      d.icuTotal,
      d.icuFree,
      Load(d.bedsFree, d.bedsTotal),
      d.distance as real)
  }

  /** What every generated hospital satisfies. */
  predicate GeneratedHospital(h: Hospital) {
    && 0 <= h.bedsFree < h.bedsTotal / 4 <= h.bedsTotal
    && 0 <= h.icuFree < Max1(h.icuTotal / 3) <= h.icuTotal
    && 0.75 < h.load <= 1.0
    && h.load == 1.0 - h.bedsFree as real / h.bedsTotal as real
    && 2.0 <= h.distanceKm <= 59.0
  }

  /** The capacity invariants: free beds stay below a quarter of the total
      and free ICU beds below a third (at least one), so the load is the
      occupied share itself, never clipped and above 0.75, and the distance is
      a whole number of kilometres from 2 to 59. */
  lemma HospitalRowInvariants(i: nat, d: HospitalDraws)
    requires HospitalDrawsInRange(d)
    ensures GeneratedHospital(HospitalRow(i, d))
    ensures Decision.WellFormed(HospitalRow(i, d))
  {
    assert Max1(d.bedsTotal) == d.bedsTotal;
    assert d.bedsFree < d.bedsTotal / 4;
    var t := d.bedsTotal as real;
    var f := d.bedsFree as real;
    var ratio := f / t;
    assert 4.0 * f < t;
    Decision.QuotientMonotone(f, 0.25 * t, t);
    assert 0.25 * t / t == 0.25;
    Decision.QuotientBounds(f, t);
    assert 0.0 <= ratio < 0.25;
    assert Load(d.bedsFree, d.bedsTotal) == 1.0 - ratio;
  }

  /** The specialty list of a row names 2 to 4 different specialties, each
      from the table. */
  lemma HospitalSpecialtiesDistinct(d: HospitalDraws)
    requires HospitalDrawsInRange(d)
    ensures 2 <= |PickedSpecialties(d.picks)| <= 4
    ensures forall k | 0 <= k < |d.picks| :: PickedSpecialties(d.picks)[k] in SPECIALTIES
    ensures forall k, l | 0 <= k < l < |d.picks| ::
      PickedSpecialties(d.picks)[k] != PickedSpecialties(d.picks)[l]
  {
    var names := PickedSpecialties(d.picks);
    forall k, l | 0 <= k < l < |d.picks|
      ensures names[k] != names[l]
    {
      SpecialtiesDistinct(d.picks[k], d.picks[l]);
    }
  }

  lemma SpecialtiesDistinct(a: int, b: int)
    requires 0 <= a < |SPECIALTIES| && 0 <= b < |SPECIALTIES| && a != b
    ensures SPECIALTIES[a] != SPECIALTIES[b]
  {
  }

  /** Different rows get different hospital names. */
  lemma HospitalNamesDistinct(i: nat, j: nat)
    requires i != j
    ensures HospitalName(i) != HospitalName(j)
  {
    if HospitalName(i) == HospitalName(j) {
      assert HospitalName(i)[9..] == NatStr(i + 1);
      assert HospitalName(j)[9..] == NatStr(j + 1);
      NatStrInjective(i + 1, j + 1);
    }
  }

  /** `generate_hospitals(n)`: one row per iteration of `range(n)`. */
  method GenerateHospitals(n: int, draws: seq<HospitalDraws>) returns (rows: seq<Hospital>)
    requires |draws| == RangeLen(n)
    requires forall i | 0 <= i < |draws| :: HospitalDrawsInRange(draws[i])
    ensures |rows| == RangeLen(n)
    ensures forall i | 0 <= i < |rows| :: rows[i] == HospitalRow(i, draws[i])
    ensures forall i | 0 <= i < |rows| :: GeneratedHospital(rows[i]) && Decision.WellFormed(rows[i])
    ensures forall i, j | 0 <= i < j < |rows| :: rows[i].name != rows[j].name
  {
    rows := [];
    for i := 0 to |draws|
      invariant |rows| == i
      invariant forall k | 0 <= k < i :: rows[k] == HospitalRow(k, draws[k])
    {
      rows := rows + [HospitalRow(i, draws[i])];
    }
    forall i | 0 <= i < |rows|
      ensures GeneratedHospital(rows[i]) && Decision.WellFormed(rows[i])
    {
      HospitalRowInvariants(i, draws[i]);
    }
    forall i, j | 0 <= i < j < |rows|
      ensures rows[i].name != rows[j].name
    {
      HospitalNamesDistinct(i, j);
    }
  }

  // Transfers

  /** The values the transfer generator draws for one case: the two symptom
      indices `random.sample` returns, then the condition, risk word and
      template indices `random.choice` returns. */
  datatype TransferDraws = TransferDraws(
    symptom1: int,
    symptom2: int,
    condition: int,
    risk: int,
    template: int)

  /** Sampling two symptoms without replacement gives two different indices. */
  predicate TransferDrawsInRange(d: TransferDraws) {
    && 0 <= d.symptom1 < |SYMPTOMS|
    && 0 <= d.symptom2 < |SYMPTOMS|
    && d.symptom1 != d.symptom2
    && 0 <= d.condition < |CONDITIONS|
    && 0 <= d.risk < |RISK_WORDS|
    && 0 <= d.template < TEMPLATE_COUNT
  }

  /** `f"C{i+1:04d}"`. */
  function CaseId(i: nat): string {
    "C" + ZeroPadded(i + 1, 4)
  }

  /** Row `i` of the transfer table built from its draws. */
  function TransferRow(i: nat, d: TransferDraws): Transfer
    requires TransferDrawsInRange(d)
  {
    var c := CONDITIONS[d.condition];
    var b := Bindings(SYMPTOMS[d.symptom1], SYMPTOMS[d.symptom2], c.name, RISK_WORDS[d.risk], c.specialty);
    Transfer(CaseId(i), Report(d.template, b), c.specialty, c.severity)
  }

  /** What every generated case satisfies: its labels are one row of the
      condition table, the specialty is one a hospital can offer, the
      severity is one of the levels (never the stable one), and the report
      names both the condition and the specialty. */
  predicate GeneratedTransfer(t: Transfer) {
    && (exists c | c in CONDITIONS ::
          && t.trueSpecialty == c.specialty
          && t.trueSeverity == c.severity
          && Contains(t.reportText, c.name))
    && t.trueSpecialty in SPECIALTIES
    && t.trueSeverity in SEVERITY_LEVELS
    && t.trueSeverity != "stable"
    && Contains(t.reportText, t.trueSpecialty)
  }

  lemma ConditionTableLabels(c: Condition)
    requires c in CONDITIONS
    ensures c.specialty in SPECIALTIES
    ensures c.severity in SEVERITY_LEVELS && c.severity != "stable"
  {
  }

  lemma TransferRowInvariants(i: nat, d: TransferDraws)
    requires TransferDrawsInRange(d)
    ensures GeneratedTransfer(TransferRow(i, d))
  {
    var c := CONDITIONS[d.condition];
    var b := Bindings(SYMPTOMS[d.symptom1], SYMPTOMS[d.symptom2], c.name, RISK_WORDS[d.risk], c.specialty);
    ReportNamesConditionAndSpecialty(d.template, b);
    ConditionTableLabels(c);
    var row := TransferRow(i, d);
    assert c in CONDITIONS && row.trueSpecialty == c.specialty && row.trueSeverity == c.severity
      && Contains(row.reportText, c.name);
  }

  /** The two symptoms named in a report are different. */
  lemma SymptomsDistinct(d: TransferDraws)
    requires TransferDrawsInRange(d)
    ensures SYMPTOMS[d.symptom1] != SYMPTOMS[d.symptom2]
  {
  }

  /** A case id is "C" followed by the row number counted from 1, written in
      at least four digits; it is exactly five characters while the row
      number stays below 10000. */
  lemma CaseIdShape(i: nat)
    ensures |CaseId(i)| >= 5 && CaseId(i)[0] == 'C'
    ensures AllDigits(CaseId(i)[1..]) && DigitsValue(CaseId(i)[1..]) == i + 1
    ensures i + 1 < 10000 ==> |CaseId(i)| == 5
  {
    assert CaseId(i)[1..] == ZeroPadded(i + 1, 4);
    if i + 1 < 10000 {
      assert Pow10(4) == 10000;
      NatStrLength(i + 1, 4);
    }
  }

  /** Different rows get different case ids. */
  lemma CaseIdsDistinct(i: nat, j: nat)
    requires i != j
    ensures CaseId(i) != CaseId(j)
  {
    CaseIdShape(i);
    CaseIdShape(j);
  }

  /** The transfer table row by row: the rows for all draws but the last,
      then the row the last draw makes. */
  function TransferTable(draws: seq<TransferDraws>): (rows: seq<Transfer>)
    requires forall i | 0 <= i < |draws| :: TransferDrawsInRange(draws[i])
    ensures |rows| == |draws|
  {
    if draws == [] then []
    else
      var last := |draws| - 1;
      assert TransferDrawsInRange(draws[last]);
      TransferTable(draws[..last]) + [TransferRow(last, draws[last])]
  }

  /** Row `i` of the table is the row draw `i` makes. */
  lemma {:induction false} TransferTableAt(draws: seq<TransferDraws>, i: nat)
    requires forall i | 0 <= i < |draws| :: TransferDrawsInRange(draws[i])
    requires i < |draws|
    ensures TransferTable(draws)[i] == TransferRow(i, draws[i])
    decreases |draws|
  {
    var last := |draws| - 1;
    if i < last {
      TransferTableAt(draws[..last], i);
    }
  }

  /** `generate_transfers(n)`: one case per iteration of `range(n)`. */
  method GenerateTransfers(n: int, draws: seq<TransferDraws>) returns (rows: seq<Transfer>)
    requires |draws| == RangeLen(n)
    requires forall i | 0 <= i < |draws| :: TransferDrawsInRange(draws[i])
    ensures |rows| == RangeLen(n)
    ensures rows == TransferTable(draws)
    ensures forall i | 0 <= i < |rows| :: GeneratedTransfer(rows[i])
    ensures forall i, j | 0 <= i < j < |rows| :: rows[i].caseId != rows[j].caseId
  {
    rows := [];
    for i := 0 to |draws|
      invariant rows == TransferTable(draws[..i])
    {
      rows := rows + [TransferRow(i, draws[i])];
      assert draws[..i + 1][..i] == draws[..i];
    }
    assert draws[..|draws|] == draws;
    forall i | 0 <= i < |rows|
      ensures GeneratedTransfer(rows[i])
    {
      TransferTableAt(draws, i);
      TransferRowInvariants(i, draws[i]);
    }
    forall i, j | 0 <= i < j < |rows|
      ensures rows[i].caseId != rows[j].caseId
    {
      TransferTableAt(draws, i);
      TransferTableAt(draws, j);
      CaseIdsDistinct(i, j);
    }
  }
}
