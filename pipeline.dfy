/** How the two halves fit together: the hospital table the generator builds
    is one the decision engine can score, its specialty lists parse back to
    the names the generator picked, and ranking it for a generated case puts
    a hospital with the case's specialty on top whenever the table has one. */
module Pipeline {
  import opened Strings
  import opened Records
  import opened Decision
  import opened Generator

  /** Every specialty name is free of commas and surrounding spaces, so a
      comma-joined list of them splits back into the same names. */
  lemma SpecialtiesArePlain()
    ensures forall k | 0 <= k < |SPECIALTIES| :: PlainName(SPECIALTIES[k])
  {
  }

  /** A generated hospital matches a required specialty exactly when the
      specialty is one of the names picked for it. */
  lemma GeneratedSpecialtiesMatch(i: nat, d: HospitalDraws, requiredSpec: string)
    requires HospitalDrawsInRange(d)
    ensures Matches(HospitalRow(i, d), requiredSpec) <==> requiredSpec in PickedSpecialties(d.picks)
    ensures Matches(HospitalRow(i, d), requiredSpec) <==> Offers(d, requiredSpec)
  {
    var names := PickedSpecialties(d.picks);
    SpecialtiesArePlain();
    assert forall k | 0 <= k < |names| :: PlainName(names[k]);
    MatchJoined(names, requiredSpec);
    if requiredSpec in names {
      var k :| 0 <= k < |names| && names[k] == requiredSpec;
      assert Offers(d, requiredSpec);
    }
  }

  /** Generate a hospital table and one case, then rank the table for the
      case's specialty and severity. */
  method RankForCase(hospitalDraws: seq<HospitalDraws>, caseDraws: TransferDraws, topK: int, fmt: real -> string)
    returns (out: seq<Ranked>)
    requires |hospitalDraws| > 0
    requires forall i | 0 <= i < |hospitalDraws| :: HospitalDrawsInRange(hospitalDraws[i])
    requires TransferDrawsInRange(caseDraws)
    ensures |out| == HeadCount(|hospitalDraws|, topK)
    ensures var need := CONDITIONS[caseDraws.condition].specialty;
            (exists i | 0 <= i < |hospitalDraws| :: Offers(hospitalDraws[i], need)) && |out| > 0
            ==> Matches(out[0].row, need) && out[0].score > 0.45
    ensures var need := CONDITIONS[caseDraws.condition].specialty;
            (forall i | 0 <= i < |hospitalDraws| :: !Offers(hospitalDraws[i], need))
            ==> forall k | 0 <= k < |out| :: out[k].score == NO_MATCH_SCORE && out[k].reason == NO_MATCH_REASON
  {
    var hospitals := GenerateHospitals(|hospitalDraws|, hospitalDraws);
    var cases := GenerateTransfers(1, [caseDraws]);
    CaseLabels(caseDraws);
    var need, severity := cases[0].trueSpecialty, cases[0].trueSeverity;
    forall k | 0 <= k < |hospitals|
      ensures Matches(hospitals[k], need) <==> Offers(hospitalDraws[k], need)
    {
      GeneratedSpecialtiesMatch(k, hospitalDraws[k], need);
    }
    out := RankHospitals(hospitals, need, severity, topK, fmt);
    RankingFollowsOffers(hospitalDraws, hospitals, need, severity, fmt, out);
  }

  /** What the ranking of a generated table says in terms of the draws. */
  lemma RankingFollowsOffers(hospitalDraws: seq<HospitalDraws>, hospitals: seq<Hospital>, need: string,
                             severity: string, fmt: real -> string, out: seq<Ranked>)
    requires |hospitals| == |hospitalDraws|
    requires forall k | 0 <= k < |hospitals| :: WellFormed(hospitals[k]) && ScoreDefined(hospitals[k], need)
    requires forall k | 0 <= k < |hospitals| :: Matches(hospitals[k], need) <==> Offers(hospitalDraws[k], need)
    requires forall i | 0 <= i < |out| :: out[i].row in hospitals && out[i] == Augment(out[i].row, need, severity, fmt)
    requires forall k | 0 <= k < |hospitals| && Matches(hospitals[k], need) && WellFormed(hospitals[k]) ::
               |out| > 0 ==> Matches(out[0].row, need) && out[0].score > 0.45
    ensures (exists i | 0 <= i < |hospitalDraws| :: Offers(hospitalDraws[i], need)) && |out| > 0
            ==> Matches(out[0].row, need) && out[0].score > 0.45
    ensures (forall i | 0 <= i < |hospitalDraws| :: !Offers(hospitalDraws[i], need))
            ==> forall k | 0 <= k < |out| :: out[k].score == NO_MATCH_SCORE && out[k].reason == NO_MATCH_REASON
  {
    if exists i | 0 <= i < |hospitalDraws| :: Offers(hospitalDraws[i], need) {
      var i :| 0 <= i < |hospitalDraws| && Offers(hospitalDraws[i], need);
      assert Matches(hospitals[i], need);
    }
  }

  /** The single generated case carries the specialty of its condition. */
  lemma CaseLabels(d: TransferDraws)
    requires TransferDrawsInRange(d)
    ensures TransferTable([d])[0].trueSpecialty == CONDITIONS[d.condition].specialty
  {
    TransferTableAt([d], 0);
  }

  /** A one-hospital table ranked for one of that hospital's own specialties
      in a stable case: the single row comes back, with a real score and a
      reason quoting its bed figures. */
  method SingleHospitalScenario(d: HospitalDraws, pick: nat, fmt: real -> string) returns (out: seq<Ranked>)
    requires HospitalDrawsInRange(d)
    requires pick < |d.picks|
    ensures |out| == 1
    ensures out[0].row == HospitalRow(0, d)
    ensures out[0].score > NO_MATCH_SCORE
    ensures Contains(out[0].reason, "Beds free " + IntStr(d.bedsFree) + "/" + IntStr(d.bedsTotal))
  {
    var hospitals := GenerateHospitals(1, [d]);
    var spec := SPECIALTIES[d.picks[pick]];
    GeneratedSpecialtiesMatch(0, d, spec);
    assert PickedSpecialties(d.picks)[pick] == spec;
    out := RankHospitals(hospitals, spec, "stable", 1, fmt);
    assert out[0].row == hospitals[0];
  }
}
