/** The hospital ranker: the specialty membership test, the weighted score
    with its hard specialty gate, and ranking with truncation to the top rows. */
module Decision {
  import opened Strings
  import opened Records

  /** The fixed scoring weights; they sum to one. */
  datatype Weights = Weights(spec: real, capacity: real, distance: real, load: real)

  const WEIGHTS := Weights(0.45, 0.25, 0.15, 0.15)

  /** The sentinel score of a hospital lacking the required specialty. */
  const NO_MATCH_SCORE: real := -1000000000.0
  const NO_MATCH_REASON := "No specialty match"

  /** The one severity that switches the capacity term to the ICU pool. */
  const CRITICAL := "critical"

  /** A score and its human-readable justification. */
  datatype Scored = Scored(score: real, reason: string)

  /** `[s.strip() for s in parts]`. */
  function StripAll(parts: seq<string>): (names: seq<string>)
    ensures |names| == |parts|
  {
    if parts == [] then [] else [Strip(parts[0])] + StripAll(parts[1..])
  }

  lemma {:induction false} StripAllAt(parts: seq<string>, k: nat)
    requires k < |parts|
    ensures StripAll(parts)[k] == Strip(parts[k])
    decreases |parts|
  {
    if k > 0 {
      StripAllAt(parts[1..], k - 1);
    }
  }

  /** The specialty names listed in a `specialties` cell: the comma-separated
      segments, each stripped of surrounding whitespace. */
  function Segments(hospitalSpecs: string): (names: seq<string>)
    ensures |names| == |Split(hospitalSpecs, ',')|
  {
    StripAll(Split(hospitalSpecs, ','))
  }

  /** `specialty_match`: a list comprehension over the stripped segments and
      a membership test. Only 0.0 and 1.0 can come out. */
  function SpecialtyMatch(hospitalSpecs: string, requiredSpec: string): (r: real)
    ensures r == 0.0 || r == 1.0
  {
    if requiredSpec in Segments(hospitalSpecs) then 1.0 else 0.0
  }

  /** The match is 1.0 exactly when some comma-separated segment, stripped of
      surrounding whitespace, equals the required specialty. */
  lemma SpecialtyMatchMeaning(hospitalSpecs: string, requiredSpec: string)
    ensures SpecialtyMatch(hospitalSpecs, requiredSpec) == 1.0
        <==> exists k | 0 <= k < |Split(hospitalSpecs, ',')| :: Strip(Split(hospitalSpecs, ',')[k]) == requiredSpec
  {
    var parts := Split(hospitalSpecs, ',');
    var names := Segments(hospitalSpecs);
    if requiredSpec in names {
      var k :| 0 <= k < |names| && names[k] == requiredSpec;
      StripAllAt(parts, k);
      assert Strip(Split(hospitalSpecs, ',')[k]) == requiredSpec;
    } else {
      forall k | 0 <= k < |parts|
        ensures Strip(parts[k]) != requiredSpec
      {
        StripAllAt(parts, k);
      }
    }
  }

  /** A name that survives the `", "`-join and split-and-strip round trip:
      no comma inside and no whitespace at either end. */
  predicate PlainName(name: string) {
    ',' !in name && Trimmed(name)
  }

  /** A `", "`-joined list of plain names is parsed back into exactly those
      names. */
  lemma {:induction false} SegmentsOfJoined(names: seq<string>)
    requires |names| >= 1
    requires forall k | 0 <= k < |names| :: PlainName(names[k])
    ensures Segments(Join(names, ", ")) == names
  {
    var parts := Spaced(names);
    JoinSpaced(names);
    forall k | 0 <= k < |parts|
      ensures ',' !in parts[k]
    {
      if k > 0 {
        assert parts[k] == [' '] + names[k];
      }
    }
    SplitJoin(parts, ',');
    var segs := Segments(Join(names, ", "));
    assert segs == StripAll(parts);
    forall k | 0 <= k < |names|
      ensures segs[k] == names[k]
    {
      StripAllAt(parts, k);
      if k == 0 {
        StripTrimmed(names[0]);
      } else {
        StripSpaced(names[k]);
      }
    }
  }

  /** Round trip with the generator's serialisation: on a `", "`-joined list
      of plain names the match is 1.0 exactly when the required name is one
      of them. */
  lemma MatchJoined(names: seq<string>, requiredSpec: string)
    requires |names| >= 1
    requires forall k | 0 <= k < |names| :: PlainName(names[k])
    ensures SpecialtyMatch(Join(names, ", "), requiredSpec) == 1.0 <==> requiredSpec in names
  {
    SegmentsOfJoined(names);
  }

  predicate Matches(h: Hospital, requiredSpec: string) {
    SpecialtyMatch(h.specialties, requiredSpec) == 1.0
  }

  /** `compute_score` divides by `1 + distance/10` once the gate is passed;
      a distance of exactly -10 raises a division by zero there. */
  predicate ScoreDefined(h: Hospital, requiredSpec: string) {
    Matches(h, requiredSpec) ==> h.distanceKm != -10.0
  }

  /** The range of fields the score bounds hold on: free counts, distance
      and load as the generator produces them. */
  predicate WellFormed(h: Hospital) {
    h.bedsFree >= 0 && h.icuFree >= 0 && h.distanceKm >= 0.0 && 0.0 <= h.load <= 1.0
  }

  /** Sign and size of a quotient by a positive number. */
  lemma QuotientBounds(a: real, b: real)
    requires 0.0 < b
    ensures 0.0 <= a ==> 0.0 <= a / b
    ensures 0.0 < a ==> 0.0 < a / b
    ensures 0.0 <= a <= b ==> a / b <= 1.0
  {
  }

  /** Dividing by a positive number keeps a strict order. */
  lemma QuotientMonotone(a1: real, a2: real, b: real)
    requires a1 < a2 && 0.0 < b
    ensures a1 / b < a2 / b
  {
    assert a2 / b - a1 / b == (a2 - a1) / b;
    QuotientBounds(a2 - a1, b);
  }

  /** A larger positive divisor gives a smaller quotient of one. */
  lemma ReciprocalDecreasing(a: real, b: real)
    requires 0.0 < a < b
    ensures 1.0 / b < 1.0 / a
  {
    assert a * b > 0.0;
    assert 1.0 / a - 1.0 / b == (b - a) / (a * b);
    QuotientBounds(b - a, a * b);
  }

  /** `min(1.0, free / max(1, total))`: never above one, never negative for
      a non-negative free count, and the plain ratio when free <= total. */
  function CapacityScore(free: int, total: int): (cap: real)
    ensures cap <= 1.0
    ensures free >= 0 ==> 0.0 <= cap
    ensures 0 <= free <= total && total > 0 ==> cap == free as real / total as real
  {
    var ratio := free as real / Max1(total) as real;
    QuotientBounds(free as real, Max1(total) as real);
    if ratio < 1.0 then ratio else 1.0
  }

  /** `1 / (1 + distance/10)`: in (0, 1] for every non-negative distance. */
  function DistanceScore(d: real): (r: real)
    requires d != -10.0
    ensures d >= 0.0 ==> 0.0 < r <= 1.0
  {
    var denominator := 1.0 + d / 10.0;
    if d >= 0.0 then
      QuotientBounds(1.0, denominator);
      1.0 / denominator
    else
      1.0 / denominator
  }

  /** The capacity pool the severity selects: ICU when critical, beds otherwise. */
  function PoolCapacity(h: Hospital, severity: string): real {
    if severity == CRITICAL then CapacityScore(h.icuFree, h.icuTotal)
    else CapacityScore(h.bedsFree, h.bedsTotal)
  }

  function PoolFigures(caption: string, free: int, total: int): string {
    caption + IntStr(free) + "/" + IntStr(total)
  }

  /** The capacity figures the reason quotes: the same pool the score used. */
  function PoolText(h: Hospital, severity: string): string {
    if severity == CRITICAL then PoolFigures("ICU free ", h.icuFree, h.icuTotal)
    else PoolFigures("Beds free ", h.bedsFree, h.bedsTotal)
  }

  /** The weighted sum for a hospital that has the specialty. */
  function MatchedScore(h: Hospital, severity: string): (score: real)
    requires h.distanceKm != -10.0
    ensures WellFormed(h) ==> 0.45 < score <= 1.0
  {
    var cap := PoolCapacity(h, severity);
    var distScore := DistanceScore(h.distanceKm);
    var loadScore := 1.0 - h.load;
    WEIGHTS.spec * 1.0 + WEIGHTS.capacity * cap + WEIGHTS.distance * distScore + WEIGHTS.load * loadScore
  }

  /** The justification for a hospital that has the specialty: it quotes the
      required specialty, the figures of the capacity pool in use, the
      distance and the load. */
  function MatchedReason(h: Hospital, requiredSpec: string, severity: string, fmt: real -> string): (reason: string)
    ensures Contains(reason, "Match=" + requiredSpec)
    ensures Contains(reason, PoolText(h, severity))
    ensures Contains(reason, "Distance=" + fmt(h.distanceKm) + "km")
    ensures Contains(reason, "Load=" + fmt(h.load))
  {
    var head := "Match=" + requiredSpec;
    var pool := PoolText(h, severity);
    var distance := "Distance=" + fmt(h.distanceKm) + "km";
    var load := "Load=" + fmt(h.load);
    ContainsEachOfFour(head, pool, distance, load, ", ");
    head + ", " + pool + ", " + distance + ", " + load
  }

  /** `compute_score`. Without the specialty it is the sentinel pair; with
      it, on a well-formed row, the score lies strictly above 0.45 and at
      most 1, and the reason quotes the required specialty, the capacity
      figures of the pool actually used, the distance and the load. `fmt`
      stands for Python's rendering of a float. */
  function ComputeScore(h: Hospital, requiredSpec: string, severity: string, fmt: real -> string): (r: Scored)
    requires ScoreDefined(h, requiredSpec)
    ensures !Matches(h, requiredSpec) ==> r == Scored(NO_MATCH_SCORE, NO_MATCH_REASON)
    ensures Matches(h, requiredSpec) && WellFormed(h) ==> 0.45 < r.score <= 1.0
    ensures Matches(h, requiredSpec) ==> Contains(r.reason, "Match=" + requiredSpec)
    ensures Matches(h, requiredSpec) ==> Contains(r.reason, PoolText(h, severity))
    ensures Matches(h, requiredSpec) ==> Contains(r.reason, "Distance=" + fmt(h.distanceKm) + "km")
    ensures Matches(h, requiredSpec) ==> Contains(r.reason, "Load=" + fmt(h.load))
  {
    var spec := SpecialtyMatch(h.specialties, requiredSpec);
    if spec < 0.5 then Scored(NO_MATCH_SCORE, NO_MATCH_REASON)
    else Scored(MatchedScore(h, severity), MatchedReason(h, requiredSpec, severity, fmt))
  }

  /** The distance term strictly decreases as the distance grows. */
  lemma DistanceScoreDecreasing(d1: real, d2: real)
    requires 0.0 <= d1 < d2
    ensures DistanceScore(d1) > DistanceScore(d2)
  {
    ReciprocalDecreasing(1.0 + d1 / 10.0, 1.0 + d2 / 10.0);
  }

  /** Keeping every other field, a matched hospital's score strictly
      decreases as its distance grows. */
  lemma ScoreDecreasesWithDistance(h: Hospital, requiredSpec: string, severity: string, fmt: real -> string, d1: real, d2: real)
    requires Matches(h, requiredSpec)
    requires 0.0 <= d1 < d2
    ensures ComputeScore(h.(distanceKm := d1), requiredSpec, severity, fmt).score
          > ComputeScore(h.(distanceKm := d2), requiredSpec, severity, fmt).score
  {
    DistanceScoreDecreasing(d1, d2);
  }

  /** Keeping every other field, a matched hospital's score strictly
      decreases as its load grows. */
  lemma ScoreDecreasesWithLoad(h: Hospital, requiredSpec: string, severity: string, fmt: real -> string, l1: real, l2: real)
    requires Matches(h, requiredSpec) && ScoreDefined(h, requiredSpec)
    requires l1 < l2
    ensures ComputeScore(h.(load := l1), requiredSpec, severity, fmt).score
          > ComputeScore(h.(load := l2), requiredSpec, severity, fmt).score
  {
  }

  /** For a critical case the bed pool affects neither score nor reason. */
  lemma CriticalIgnoresBeds(h: Hospital, requiredSpec: string, fmt: real -> string, bedsFree: int, bedsTotal: int)
    requires ScoreDefined(h, requiredSpec)
    ensures ComputeScore(h, requiredSpec, CRITICAL, fmt)
         == ComputeScore(h.(bedsFree := bedsFree, bedsTotal := bedsTotal), requiredSpec, CRITICAL, fmt)
  {
  }

  /** For every other severity the ICU pool affects neither score nor reason. */
  lemma OtherSeverityIgnoresIcu(h: Hospital, requiredSpec: string, severity: string, fmt: real -> string, icuFree: int, icuTotal: int)
    requires ScoreDefined(h, requiredSpec)
    requires severity != CRITICAL
    ensures ComputeScore(h, requiredSpec, severity, fmt)
         == ComputeScore(h.(icuFree := icuFree, icuTotal := icuTotal), requiredSpec, severity, fmt)
  {
  }

  /** For a critical case, more free ICU beds (up to the pool size) give a
      strictly higher score. */
  lemma CriticalScoreFollowsIcu(h: Hospital, requiredSpec: string, fmt: real -> string, f1: int, f2: int)
    requires Matches(h, requiredSpec) && ScoreDefined(h, requiredSpec)
    requires 0 <= f1 < f2 <= Max1(h.icuTotal)
    ensures ComputeScore(h.(icuFree := f1), requiredSpec, CRITICAL, fmt).score
          < ComputeScore(h.(icuFree := f2), requiredSpec, CRITICAL, fmt).score
  {
    var t := Max1(h.icuTotal) as real;
    QuotientMonotone(f1 as real, f2 as real, t);
    QuotientBounds(f2 as real, t);
    var h1, h2 := h.(icuFree := f1), h.(icuFree := f2);
    assert PoolCapacity(h1, CRITICAL) < PoolCapacity(h2, CRITICAL);
    assert MatchedScore(h1, CRITICAL) < MatchedScore(h2, CRITICAL);
  }

  /** The hard gate: a well-formed hospital with the specialty outscores any
      hospital without it, whatever the severity. */
  lemma HardGate(h1: Hospital, h2: Hospital, requiredSpec: string, severity: string, fmt: real -> string)
    requires Matches(h1, requiredSpec) && WellFormed(h1)
    requires !Matches(h2, requiredSpec)
    ensures ComputeScore(h1, requiredSpec, severity, fmt).score
          > ComputeScore(h2, requiredSpec, severity, fmt).score
  {
  }

  // Ranking

  /** A hospital row augmented with its score and reason. */
  datatype Ranked = Ranked(row: Hospital, score: real, reason: string)

  function Augment(h: Hospital, requiredSpec: string, severity: string, fmt: real -> string): (r: Ranked)
    requires ScoreDefined(h, requiredSpec)
    ensures r.row == h
  {
    var s := ComputeScore(h, requiredSpec, severity, fmt);
    Ranked(h, s.score, s.reason)
  }

  predicate AllScoreDefined(hospitals: seq<Hospital>, requiredSpec: string) {
    forall k | 0 <= k < |hospitals| :: ScoreDefined(hospitals[k], requiredSpec)
  }

  /** Every row of the table, in table order, with its score and reason. */
  function Augmented(hospitals: seq<Hospital>, requiredSpec: string, severity: string, fmt: real -> string): (rs: seq<Ranked>)
    requires AllScoreDefined(hospitals, requiredSpec)
    ensures |rs| == |hospitals|
  {
    if hospitals == [] then []
    else
      var n := |hospitals| - 1;
      Augmented(hospitals[..n], requiredSpec, severity, fmt) + [Augment(hospitals[n], requiredSpec, severity, fmt)]
  }

  lemma {:induction false} AugmentedAt(hospitals: seq<Hospital>, requiredSpec: string, severity: string, fmt: real -> string, k: nat)
    requires AllScoreDefined(hospitals, requiredSpec) && k < |hospitals|
    ensures Augmented(hospitals, requiredSpec, severity, fmt)[k] == Augment(hospitals[k], requiredSpec, severity, fmt)
    decreases |hospitals|
  {
    var n := |hospitals| - 1;
    var prefix := Augmented(hospitals[..n], requiredSpec, severity, fmt);
    var last := Augment(hospitals[n], requiredSpec, severity, fmt);
    assert Augmented(hospitals, requiredSpec, severity, fmt) == prefix + [last];
    if k < n {
      AugmentedAt(hospitals[..n], requiredSpec, severity, fmt, k);
      assert hospitals[..n][k] == hospitals[k];
      assert (prefix + [last])[k] == prefix[k];
    }
  }

  predicate SortedByScore(rs: seq<Ranked>) {
    forall i, j | 0 <= i < j < |rs| :: rs[i].score >= rs[j].score
  }

  /** How many rows pandas' `head(k)` keeps of `n`: the first `k`, or, for
      a negative `k`, all but the last `-k`. */
  function HeadCount(n: nat, k: int): (c: nat)
    ensures c <= n
    ensures k >= 0 ==> c == if k < n then k else n
    ensures k < 0 ==> c == if n + k > 0 then n + k else 0
  {
    if k >= 0 then (if k < n then k else n)
    else if n + k > 0 then n + k else 0
  }

  /** Putting a row in front of the first strictly lower score keeps the
      order non-increasing. */
  lemma InsertKeepsSorted(sorted: seq<Ranked>, j: nat, x: Ranked)
    requires SortedByScore(sorted) && j <= |sorted|
    requires forall k | 0 <= k < j :: sorted[k].score >= x.score
    requires j < |sorted| ==> sorted[j].score < x.score
    ensures SortedByScore(sorted[..j] + [x] + sorted[j..])
  {
    var r := sorted[..j] + [x] + sorted[j..];
    forall a, b | 0 <= a < b < |r|
      ensures r[a].score >= r[b].score
    {
      if b < j {
        assert r[a] == sorted[a] && r[b] == sorted[b];
      } else if b == j {
        assert r[a] == sorted[a] && r[b] == x;
      } else if a == j {
        assert r[b] == sorted[b - 1];
      } else if a < j {
        assert r[a] == sorted[a] && r[b] == sorted[b - 1];
      } else {
        assert r[a] == sorted[a - 1] && r[b] == sorted[b - 1];
      }
    }
  }

  lemma InsertKeepsRows(sorted: seq<Ranked>, j: nat, x: Ranked)
    requires j <= |sorted|
    ensures multiset(sorted[..j] + [x] + sorted[j..]) == multiset(sorted) + multiset{x}
  {
    assert sorted[..j] + sorted[j..] == sorted;
  }

  /** The position in front of the first score strictly below `x`'s. */
  method InsertionPoint(sorted: seq<Ranked>, x: Ranked) returns (j: nat)
    ensures j <= |sorted|
    ensures forall k | 0 <= k < j :: sorted[k].score >= x.score
    ensures j < |sorted| ==> sorted[j].score < x.score
  {
    j := 0;
    while j < |sorted| && sorted[j].score >= x.score
      invariant 0 <= j <= |sorted|
      invariant forall k | 0 <= k < j :: sorted[k].score >= x.score
    {
      j := j + 1;
    }
  }

  /** `sort_values("score", ascending=False)`: a permutation of the rows in
      non-increasing score order. The order among equal scores is left open. */
  method SortByScore(rows: seq<Ranked>) returns (sorted: seq<Ranked>)
    ensures |sorted| == |rows|
    ensures multiset(sorted) == multiset(rows)
    ensures SortedByScore(sorted)
  {
    sorted := [];
    for i := 0 to |rows|
      invariant |sorted| == i
      invariant multiset(sorted) == multiset(rows[..i])
      invariant SortedByScore(sorted)
    {
      var j := InsertionPoint(sorted, rows[i]);
      InsertKeepsSorted(sorted, j, rows[i]);
      InsertKeepsRows(sorted, j, rows[i]);
      assert rows[..i + 1] == rows[..i] + [rows[i]];
      sorted := sorted[..j] + [rows[i]] + sorted[j..];
    }
    assert rows[..|rows|] == rows;
  }

  /** The first `c` rows of a sorted permutation: drawn from the rows, and
      nothing left behind scores above anything kept. */
  lemma SortedHead(all: seq<Ranked>, sorted: seq<Ranked>, c: nat)
    requires multiset(sorted) == multiset(all) && SortedByScore(sorted) && c <= |sorted|
    ensures multiset(sorted[..c]) <= multiset(all)
    ensures forall i | 0 <= i < c :: sorted[..c][i] in all
    ensures forall r, i | r in multiset(all) - multiset(sorted[..c]) && 0 <= i < c :: r.score <= sorted[..c][i].score
    ensures c == |sorted| ==> multiset(sorted[..c]) == multiset(all)
  {
    var out := sorted[..c];
    assert sorted == out + sorted[c..];
    assert multiset(all) == multiset(out) + multiset(sorted[c..]);
    forall i | 0 <= i < c
      ensures out[i] in all
    {
      assert out[i] in multiset(all);
    }
    forall r, i | r in multiset(all) - multiset(out) && 0 <= i < c
      ensures r.score <= out[i].score
    {
      assert r in multiset(sorted[c..]);
      var k :| 0 <= k < |sorted[c..]| && sorted[c..][k] == r;
      assert sorted[c + k] == r;
    }
  }

  /** Rows drawn from the augmented table are table rows carrying their own
      score and reason. */
  lemma DrawnFromTable(hospitals: seq<Hospital>, requiredSpec: string, severity: string, fmt: real -> string,
                       out: seq<Ranked>)
    requires AllScoreDefined(hospitals, requiredSpec)
    requires forall i | 0 <= i < |out| :: out[i] in Augmented(hospitals, requiredSpec, severity, fmt)
    ensures forall i | 0 <= i < |out| :: out[i].row in hospitals && out[i] == Augment(out[i].row, requiredSpec, severity, fmt)
  {
    var all := Augmented(hospitals, requiredSpec, severity, fmt);
    forall i | 0 <= i < |out|
      ensures out[i].row in hospitals && out[i] == Augment(out[i].row, requiredSpec, severity, fmt)
    {
      var x := out[i];
      var k :| 0 <= k < |all| && all[k] == x;
      AugmentedAt(hospitals, requiredSpec, severity, fmt, k);
      assert x.row == hospitals[k];
    }
  }

  /** The ranking's guarantees for the first `c` rows of a sorted
      permutation of the augmented table. */
  lemma RankedHead(hospitals: seq<Hospital>, requiredSpec: string, severity: string, fmt: real -> string,
                   sorted: seq<Ranked>, c: nat)
    requires AllScoreDefined(hospitals, requiredSpec)
    requires multiset(sorted) == multiset(Augmented(hospitals, requiredSpec, severity, fmt))
    requires SortedByScore(sorted) && c <= |sorted|
    ensures SortedByScore(sorted[..c])
    ensures forall i | 0 <= i < c :: sorted[..c][i].row in hospitals
                                   && sorted[..c][i] == Augment(sorted[..c][i].row, requiredSpec, severity, fmt)
    ensures multiset(sorted[..c]) <= multiset(Augmented(hospitals, requiredSpec, severity, fmt))
    ensures forall r, i | r in multiset(Augmented(hospitals, requiredSpec, severity, fmt)) - multiset(sorted[..c]) && 0 <= i < c ::
              r.score <= sorted[..c][i].score
    ensures c == |sorted| ==> multiset(sorted[..c]) == multiset(Augmented(hospitals, requiredSpec, severity, fmt))
  {
    SortedHead(Augmented(hospitals, requiredSpec, severity, fmt), sorted, c);
    DrawnFromTable(hospitals, requiredSpec, severity, fmt, sorted[..c]);
  }

  /** `rank_hospitals`: scores every row, sorts by descending score and keeps
      the first `top_k`. The result has `HeadCount` rows in non-increasing
      score order; each is a row of the table carrying its own score and
      reason, no table row is used more often than it occurs, and no row left
      out scores above a row kept. With `top_k` at least the table size every
      row comes back. */
  method RankHospitals(hospitals: seq<Hospital>, requiredSpec: string, severity: string, topK: int, fmt: real -> string)
    returns (out: seq<Ranked>)
    requires |hospitals| > 0
    requires AllScoreDefined(hospitals, requiredSpec)
    ensures |out| == HeadCount(|hospitals|, topK)
    ensures SortedByScore(out)
    ensures forall i | 0 <= i < |out| :: out[i].row in hospitals && out[i] == Augment(out[i].row, requiredSpec, severity, fmt)
    ensures multiset(out) <= multiset(Augmented(hospitals, requiredSpec, severity, fmt))
    ensures forall r, i | r in multiset(Augmented(hospitals, requiredSpec, severity, fmt)) - multiset(out) && 0 <= i < |out| ::
              r.score <= out[i].score
    ensures topK >= |hospitals| ==> multiset(out) == multiset(Augmented(hospitals, requiredSpec, severity, fmt))
    ensures forall k | 0 <= k < |hospitals| && Matches(hospitals[k], requiredSpec) && WellFormed(hospitals[k]) ::
              |out| > 0 ==> Matches(out[0].row, requiredSpec) && out[0].score > 0.45
  {
    var rows: seq<Ranked> := [];
    for i := 0 to |hospitals|
      invariant rows == Augmented(hospitals[..i], requiredSpec, severity, fmt)
    {
      rows := rows + [Augment(hospitals[i], requiredSpec, severity, fmt)];
      assert hospitals[..i + 1][..i] == hospitals[..i];
    }
    assert hospitals[..|hospitals|] == hospitals;
    var sorted := SortByScore(rows);
    var c := HeadCount(|hospitals|, topK);
    RankedHead(hospitals, requiredSpec, severity, fmt, sorted, c);
    out := sorted[..c];
    forall k | 0 <= k < |hospitals| && Matches(hospitals[k], requiredSpec) && WellFormed(hospitals[k]) && |out| > 0
      ensures Matches(out[0].row, requiredSpec) && out[0].score > 0.45
    {
      MatchOnTop(hospitals, requiredSpec, severity, fmt, out, k);
    }
  }

  /** When some well-formed hospital offers the specialty, the first row of
      the ranking offers it too: its score beats the no-match sentinel of
      every hospital that does not. */
  lemma MatchOnTop(hospitals: seq<Hospital>, requiredSpec: string, severity: string, fmt: real -> string,
                   out: seq<Ranked>, k: nat)
    requires AllScoreDefined(hospitals, requiredSpec)
    requires k < |hospitals| && Matches(hospitals[k], requiredSpec) && WellFormed(hospitals[k])
    requires |out| > 0 && SortedByScore(out)
    requires forall i | 0 <= i < |out| :: out[i].row in hospitals && out[i] == Augment(out[i].row, requiredSpec, severity, fmt)
    requires forall r, i | r in multiset(Augmented(hospitals, requiredSpec, severity, fmt)) - multiset(out) && 0 <= i < |out| ::
               r.score <= out[i].score
    ensures Matches(out[0].row, requiredSpec) && out[0].score > 0.45
  {
    var all := Augmented(hospitals, requiredSpec, severity, fmt);
    AugmentedAt(hospitals, requiredSpec, severity, fmt, k);
    var best := all[k];
    assert best.score > 0.45;
    if best in multiset(out) {
      var j :| 0 <= j < |out| && out[j] == best;
      assert out[0].score >= out[j].score;
    } else {
      assert best in multiset(all) - multiset(out);
    }
    assert out[0].score > 0.45;
  }

  /** In a ranking whose rows with the specialty are well-formed, every
      hospital with the specialty comes before every hospital without it. */
  lemma MatchedRankFirst(out: seq<Ranked>, requiredSpec: string, severity: string, fmt: real -> string)
    requires SortedByScore(out)
    requires forall i | 0 <= i < |out| :: (Matches(out[i].row, requiredSpec) ==> WellFormed(out[i].row))
                                         && ScoreDefined(out[i].row, requiredSpec)
                                         && out[i] == Augment(out[i].row, requiredSpec, severity, fmt)
    ensures forall i, j | 0 <= i < j < |out| && Matches(out[j].row, requiredSpec) :: Matches(out[i].row, requiredSpec)
  {
  }
}
