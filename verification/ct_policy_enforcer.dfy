/**
 * The policy enforcer as the source runs it: linear scans with early
 * return, deduplicating counters that grow a vector, a running minimum,
 * and the case checks writing their verdict. Each method is proved equal
 * to the set-based policy of module CtPolicy.
 */
module CtPolicyEnforcer {
  import opened CtTypes
  import opened CtPolicy
  import opened CtPolicyLemmas

  /** Whether a Valid embedded SCT is present. */
  method HasValidEmbeddedSct(verifiedScts: seq<VerifiedSct>) returns (present: bool)
    ensures present <==> HasValidEmbedded(verifiedScts)
  {
    for i := 0 to |verifiedScts|
      invariant forall k :: 0 <= k < i ==> !IsValidEmbedded(verifiedScts[k])
    {
      var verifiedSct := verifiedScts[i];
      if verifiedSct.status == Valid && verifiedSct.origin == Embedded {
        assert verifiedSct in verifiedScts;
        return true;
      }
    }
    return false;
  }

  /** Whether a Valid SCT delivered by TLS extension or OCSP response is present. */
  method HasValidNonEmbeddedSct(verifiedScts: seq<VerifiedSct>) returns (present: bool)
    ensures present <==> HasValidNonEmbedded(verifiedScts)
  {
    for i := 0 to |verifiedScts|
      invariant forall k :: 0 <= k < i ==> !IsValidNonEmbedded(verifiedScts[k])
    {
      var verifiedSct := verifiedScts[i];
      if verifiedSct.status == Valid &&
         (verifiedSct.origin == TLSExtension || verifiedSct.origin == OCSPResponse) {
        assert verifiedSct in verifiedScts;
        return true;
      }
    }
    return false;
  }

  /** Counts the distinct CA-independent operators of the selected SCTs. */
  method CountIndependentLogOperatorsForSelectedScts(
    verifiedScts: seq<VerifiedSct>, dependentOperators: seq<LogOperatorId>,
    selected: VerifiedSct -> bool) returns (count: nat)
    ensures count == |IndependentOperatorIds(verifiedScts, dependentOperators, selected)|
    ensures (forall s :: s in verifiedScts ==> s.logOperatorId in dependentOperators) ==> count == 0
  {
    var operatorIds: seq<LogOperatorId> := [];
    for i := 0 to |verifiedScts|
      invariant Elements(operatorIds) == IndependentOperatorIds(verifiedScts[..i], dependentOperators, selected)
      invariant |Elements(operatorIds)| == |operatorIds|
    {
      var verifiedSct := verifiedScts[i];
      var sctLogOperatorId := verifiedSct.logOperatorId;
      ghost var before := operatorIds;
      // Is the operator CA-dependent?
      var isDependentOperator := false;
      for j := 0 to |dependentOperators|
        invariant !isDependentOperator
        invariant forall k :: 0 <= k < j ==> dependentOperators[k] != sctLogOperatorId
      {
        if sctLogOperatorId == dependentOperators[j] {
          isDependentOperator := true;
          break;
        }
      }
      assert isDependentOperator <==> sctLogOperatorId in dependentOperators;
      if isDependentOperator || !selected(verifiedSct) {
        OperatorScanStep(verifiedScts, i, dependentOperators, selected, before, operatorIds);
        continue;
      }
      // Is the operator already counted?
      var alreadyAdded := false;
      for j := 0 to |operatorIds|
        invariant !alreadyAdded
        invariant forall k :: 0 <= k < j ==> operatorIds[k] != sctLogOperatorId
      {
        if operatorIds[j] == sctLogOperatorId {
          alreadyAdded := true;
          break;
        }
      }
      assert alreadyAdded <==> sctLogOperatorId in operatorIds;
      if !alreadyAdded {
        operatorIds := operatorIds + [sctLogOperatorId];
      }
      OperatorScanStep(verifiedScts, i, dependentOperators, selected, before, operatorIds);
    }
    assert verifiedScts[..|verifiedScts|] == verifiedScts;
    count := |operatorIds|;
    if forall s :: s in verifiedScts ==> s.logOperatorId in dependentOperators {
      AllDependentMeansNoIndependentOperator(verifiedScts, dependentOperators, selected);
    }
  }

  /** Counts the distinct logs (by log id content) of the selected SCTs. */
  method CountLogsForSelectedScts(verifiedScts: seq<VerifiedSct>, selected: VerifiedSct -> bool)
    returns (count: nat)
    ensures count == |SelectedLogIds(verifiedScts, selected)|
    ensures count <= CountSelected(verifiedScts, selected)
  {
    var logIds: seq<LogId> := [];
    for i := 0 to |verifiedScts|
      invariant Elements(logIds) == SelectedLogIds(verifiedScts[..i], selected)
      invariant |Elements(logIds)| == |logIds|
    {
      var verifiedSct := verifiedScts[i];
      ghost var before := logIds;
      if !selected(verifiedSct) {
        LogScanStep(verifiedScts, i, selected, before, logIds);
        continue;
      }
      var sctLogId := verifiedSct.sct.logId;
      // Is the log already counted?
      var alreadyAdded := false;
      for j := 0 to |logIds|
        invariant !alreadyAdded
        invariant forall k :: 0 <= k < j ==> logIds[k] != sctLogId
      {
        if logIds[j] == sctLogId {
          alreadyAdded := true;
          break;
        }
      }
      assert alreadyAdded <==> sctLogId in logIds;
      if !alreadyAdded {
        logIds := logIds + [sctLogId];
      }
      LogScanStep(verifiedScts, i, selected, before, logIds);
    }
    assert verifiedScts[..|verifiedScts|] == verifiedScts;
    count := |logIds|;
    LogCountAtMostSelected(verifiedScts, selected);
  }

  /** The certificate's effective issuance time: the earliest timestamp of
      a Valid SCT, or UINT64_MAX when there is none. */
  method GetEffectiveCertIssuanceTime(verifiedScts: seq<VerifiedSct>) returns (result: Uint64)
    ensures result == EffectiveIssuanceTime(verifiedScts)
    ensures forall s :: s in verifiedScts && s.status == Valid ==> result <= s.sct.timestamp
    ensures (exists s :: s in verifiedScts && s.status == Valid && s.sct.timestamp == result) ||
            (result == UINT64_MAX && forall s :: s in verifiedScts ==> s.status != Valid)
  {
    result := UINT64_MAX;
    for i := 0 to |verifiedScts|
      invariant result == EffectiveIssuanceTime(verifiedScts[..i])
    {
      var verifiedSct := verifiedScts[i];
      assert verifiedScts[..i + 1][..i] == verifiedScts[..i];
      if verifiedSct.status == Valid {
        result := Min(result, verifiedSct.sct.timestamp);
      }
    }
    assert verifiedScts[..|verifiedScts|] == verifiedScts;
    EffectiveIssuanceTimeIsMinimum(verifiedScts);
    assert forall s :: s in verifiedScts && s.status == Valid ==> s.sct.timestamp in ValidTimestamps(verifiedScts);
  }

  /** At least two qualified SCTs from logs of two operators independent of
      the CA and of each other. */
  method CheckOperatorDiversityCompliance(
    verifiedScts: seq<VerifiedSct>, certIssuanceTime: Uint64, dependentOperators: seq<LogOperatorId>)
    returns (compliant: bool)
    ensures compliant <==>
      |IndependentOperatorIds(verifiedScts, dependentOperators, SelectQualified(certIssuanceTime))| >= 2
    ensures compliant ==>
      CountSelected(verifiedScts, SelectIndependent(dependentOperators, SelectQualified(certIssuanceTime))) >= 2
  {
    var independentOperatorsCount :=
      CountIndependentLogOperatorsForSelectedScts(verifiedScts, dependentOperators, SelectQualified(certIssuanceTime));
    compliant := independentOperatorsCount >= 2;
    if compliant {
      DiversityImpliesTwoQualifiedScts(verifiedScts, certIssuanceTime, dependentOperators);
    }
  }

  /** Qualification Case #1 (non-embedded SCTs). */
  method CheckNonEmbeddedCompliance(verifiedScts: seq<VerifiedSct>) returns (compliant: bool)
    ensures !HasValidNonEmbedded(verifiedScts) ==> !compliant
    ensures HasValidNonEmbedded(verifiedScts) ==>
      (compliant <==> |SelectedLogIds(verifiedScts, SelectValid())| >= 2)
  {
    var present := HasValidNonEmbeddedSct(verifiedScts);
    if !present {
      return false;
    }
    var validSctsCount := CountLogsForSelectedScts(verifiedScts, SelectValid());
    compliant := validSctsCount >= 2;
  }

  /** Qualification Case #2 (embedded SCTs). */
  method CheckEmbeddedCompliance(
    verifiedScts: seq<VerifiedSct>, certLifetimeInCalendarMonths: SizeT, certIssuanceTime: Uint64)
    returns (compliant: bool)
    ensures !HasValidEmbedded(verifiedScts) ==> !compliant
    ensures HasValidEmbedded(verifiedScts) ==>
      (compliant <==> |SelectedLogIds(verifiedScts, SelectQualifiedEmbedded(certIssuanceTime))| >=
                      GetRequiredEmbeddedSctsCount(certLifetimeInCalendarMonths))
  {
    var present := HasValidEmbeddedSct(verifiedScts);
    if !present {
      return false;
    }
    // Only one SCT per log counts, even if a log issued several.
    var embeddedSctsCount := CountLogsForSelectedScts(verifiedScts, SelectQualifiedEmbedded(certIssuanceTime));
    var requiredSctsCount := GetRequiredEmbeddedSctsCount(certLifetimeInCalendarMonths);
    compliant := embeddedSctsCount >= requiredSctsCount;
  }

  /** Decides whether the certificate is CT Qualified. */
  method CheckCompliance(
    verifiedScts: seq<VerifiedSct>, certLifetimeInCalendarMonths: SizeT,
    dependentOperators: seq<LogOperatorId>) returns (compliance: CtPolicyCompliance)
    ensures compliance == PolicyVerdict(verifiedScts, certLifetimeInCalendarMonths, dependentOperators)
    ensures compliance != Unknown
    ensures compliance == NotEnoughScts <==>
      !NonEmbeddedCaseHolds(verifiedScts) &&
      !EmbeddedCaseHolds(verifiedScts, certLifetimeInCalendarMonths, EffectiveIssuanceTime(verifiedScts))
    ensures compliance == Compliant <==>
      (NonEmbeddedCaseHolds(verifiedScts) ||
       EmbeddedCaseHolds(verifiedScts, certLifetimeInCalendarMonths, EffectiveIssuanceTime(verifiedScts))) &&
      DiversityHolds(verifiedScts, EffectiveIssuanceTime(verifiedScts), dependentOperators)
    ensures compliance == NotDiverseScts <==>
      (NonEmbeddedCaseHolds(verifiedScts) ||
       EmbeddedCaseHolds(verifiedScts, certLifetimeInCalendarMonths, EffectiveIssuanceTime(verifiedScts))) &&
      !DiversityHolds(verifiedScts, EffectiveIssuanceTime(verifiedScts), dependentOperators)
  {
    var certIssuanceTime := GetEffectiveCertIssuanceTime(verifiedScts);
    var diversityOK := CheckOperatorDiversityCompliance(verifiedScts, certIssuanceTime, dependentOperators);
    var nonEmbeddedCaseOK := CheckNonEmbeddedCompliance(verifiedScts);
    var embeddedCaseOK := CheckEmbeddedCompliance(verifiedScts, certLifetimeInCalendarMonths, certIssuanceTime);
    if nonEmbeddedCaseOK || embeddedCaseOK {
      compliance := if diversityOK then Compliant else NotDiverseScts;
    } else {
      compliance := NotEnoughScts;
    }
    assert compliance != Unknown;
  }
}
