/**
 * Properties of the policy of module CtPolicy: the required-count formula,
 * the effective issuance time, the qualification gate, the two distinct
 * counts, and the verdict as a whole.
 */
module CtPolicyLemmas {
  import opened CtTypes
  import opened CtPolicy

  // ---------------------------------------------------------------------
  // Required embedded SCT count.

  /** Without wrap-around the required count is the policy's N + 1, with N
      the lifetime in years rounded as the policy says. */
  lemma RequiredCountIsLifetimeYearsPlusOne(months: SizeT)
    requires months <= SIZE_MAX - 9
    ensures GetRequiredEmbeddedSctsCount(months) == PolicyLifetimeYears(months) + 1
  {
  }

  /** A longer lifetime never requires fewer embedded SCTs. */
  lemma RequiredCountMonotone(shorter: SizeT, longer: SizeT)
    requires shorter <= longer <= SIZE_MAX - 9
    ensures GetRequiredEmbeddedSctsCount(shorter) <= GetRequiredEmbeddedSctsCount(longer)
  {
  }

  /** More than n SCTs are required exactly from 12 n - 9 months on. */
  lemma RequiredCountThreshold(months: SizeT, n: nat)
    requires months <= SIZE_MAX - 9
    ensures GetRequiredEmbeddedSctsCount(months) > n <==> months + 9 >= 12 * n
  {
  }

  lemma RequiredCountExamples()
    ensures GetRequiredEmbeddedSctsCount(0) == 1
    ensures GetRequiredEmbeddedSctsCount(2) == 1
    ensures GetRequiredEmbeddedSctsCount(3) == 2
    ensures GetRequiredEmbeddedSctsCount(11) == 2
    ensures GetRequiredEmbeddedSctsCount(12) == 2
    ensures GetRequiredEmbeddedSctsCount(14) == 2
    ensures GetRequiredEmbeddedSctsCount(15) == 3
    ensures GetRequiredEmbeddedSctsCount(16) == 3
    ensures GetRequiredEmbeddedSctsCount(24) == 3
    ensures GetRequiredEmbeddedSctsCount(27) == 4
  {
  }

  /** The `size_t` addition wraps for the nine largest lifetimes, which then
      require a single SCT. */
  lemma RequiredCountWrapsNearSizeMax(months: SizeT)
    requires months > SIZE_MAX - 9
    ensures GetRequiredEmbeddedSctsCount(months) == 1
  {
  }

  // ---------------------------------------------------------------------
  // Sets of a list extended by one element.

  lemma SelectedLogIdsSnoc(prefix: seq<VerifiedSct>, verifiedSct: VerifiedSct, selected: VerifiedSct -> bool)
    ensures SelectedLogIds(prefix + [verifiedSct], selected) ==
            if selected(verifiedSct) then SelectedLogIds(prefix, selected) + {verifiedSct.sct.logId}
            else SelectedLogIds(prefix, selected)
  {
  }

  lemma IndependentOperatorIdsSnoc(
    prefix: seq<VerifiedSct>, verifiedSct: VerifiedSct, dependentOperators: seq<LogOperatorId>,
    selected: VerifiedSct -> bool)
    ensures IndependentOperatorIds(prefix + [verifiedSct], dependentOperators, selected) ==
            if verifiedSct.logOperatorId !in dependentOperators && selected(verifiedSct)
            then IndependentOperatorIds(prefix, dependentOperators, selected) + {verifiedSct.logOperatorId}
            else IndependentOperatorIds(prefix, dependentOperators, selected)
  {
  }

  /** One step of a scan over the list: the sets of the first i + 1 entries. */
  lemma SelectedLogIdsStep(verifiedScts: seq<VerifiedSct>, i: nat, selected: VerifiedSct -> bool)
    requires i < |verifiedScts|
    ensures SelectedLogIds(verifiedScts[..i + 1], selected) ==
            if selected(verifiedScts[i]) then SelectedLogIds(verifiedScts[..i], selected) + {verifiedScts[i].sct.logId}
            else SelectedLogIds(verifiedScts[..i], selected)
  {
  }

  lemma IndependentOperatorIdsStep(
    verifiedScts: seq<VerifiedSct>, i: nat, dependentOperators: seq<LogOperatorId>, selected: VerifiedSct -> bool)
    requires i < |verifiedScts|
    ensures IndependentOperatorIds(verifiedScts[..i + 1], dependentOperators, selected) ==
            if verifiedScts[i].logOperatorId !in dependentOperators && selected(verifiedScts[i])
            then IndependentOperatorIds(verifiedScts[..i], dependentOperators, selected) + {verifiedScts[i].logOperatorId}
            else IndependentOperatorIds(verifiedScts[..i], dependentOperators, selected)
  {
  }

  /** One step of the log counter's scan: the deduplicated vector, grown by
      the entry's log id when it is selected and new, still lists the
      distinct selected log ids of one more entry, once each. */
  lemma LogScanStep(
    verifiedScts: seq<VerifiedSct>, i: nat, selected: VerifiedSct -> bool, logIds: seq<LogId>, logIds': seq<LogId>)
    requires i < |verifiedScts|
    requires Elements(logIds) == SelectedLogIds(verifiedScts[..i], selected)
    requires |Elements(logIds)| == |logIds|
    requires logIds' == if selected(verifiedScts[i]) && verifiedScts[i].sct.logId !in logIds
                        then logIds + [verifiedScts[i].sct.logId] else logIds
    ensures Elements(logIds') == SelectedLogIds(verifiedScts[..i + 1], selected)
    ensures |Elements(logIds')| == |logIds'|
  {
    SelectedLogIdsStep(verifiedScts, i, selected);
    if logIds' != logIds {
      ElementsAppendFresh(logIds, verifiedScts[i].sct.logId);
    }
  }

  /** One step of the operator counter's scan. */
  lemma OperatorScanStep(
    verifiedScts: seq<VerifiedSct>, i: nat, dependentOperators: seq<LogOperatorId>, selected: VerifiedSct -> bool,
    operatorIds: seq<LogOperatorId>, operatorIds': seq<LogOperatorId>)
    requires i < |verifiedScts|
    requires Elements(operatorIds) == IndependentOperatorIds(verifiedScts[..i], dependentOperators, selected)
    requires |Elements(operatorIds)| == |operatorIds|
    requires operatorIds' ==
      if verifiedScts[i].logOperatorId !in dependentOperators && selected(verifiedScts[i]) &&
         verifiedScts[i].logOperatorId !in operatorIds
      then operatorIds + [verifiedScts[i].logOperatorId] else operatorIds
    ensures Elements(operatorIds') == IndependentOperatorIds(verifiedScts[..i + 1], dependentOperators, selected)
    ensures |Elements(operatorIds')| == |operatorIds'|
  {
    IndependentOperatorIdsStep(verifiedScts, i, dependentOperators, selected);
    if operatorIds' != operatorIds {
      ElementsAppendFresh(operatorIds, verifiedScts[i].logOperatorId);
    }
  }

  lemma ValidTimestampsSnoc(prefix: seq<VerifiedSct>, verifiedSct: VerifiedSct)
    ensures ValidTimestamps(prefix + [verifiedSct]) ==
            if verifiedSct.status == Valid then ValidTimestamps(prefix) + {verifiedSct.sct.timestamp}
            else ValidTimestamps(prefix)
  {
  }

  /** Appending an entry not yet present grows a duplicate-free list and
      its set of entries together. */
  lemma ElementsAppendFresh<T>(xs: seq<T>, x: T)
    requires x !in xs
    requires |Elements(xs)| == |xs|
    ensures Elements(xs + [x]) == Elements(xs) + {x}
    ensures |Elements(xs + [x])| == |xs + [x]|
  {
  }

  lemma SubsetCardinality<T>(small: set<T>, large: set<T>)
    requires small <= large
    ensures |small| <= |large|
  {
    assert large == small + (large - small);
  }

  // ---------------------------------------------------------------------
  // Effective issuance time.

  /** The effective issuance time is the minimum of the Valid SCTs'
      timestamps, and UINT64_MAX when there is no Valid SCT. */
  lemma {:induction false} EffectiveIssuanceTimeIsMinimum(verifiedScts: seq<VerifiedSct>)
    ensures ValidTimestamps(verifiedScts) == {} ==> EffectiveIssuanceTime(verifiedScts) == UINT64_MAX
    ensures ValidTimestamps(verifiedScts) != {} ==> EffectiveIssuanceTime(verifiedScts) in ValidTimestamps(verifiedScts)
    ensures forall t :: t in ValidTimestamps(verifiedScts) ==> EffectiveIssuanceTime(verifiedScts) <= t
    decreases |verifiedScts|
  {
    if verifiedScts != [] {
      var prefix := verifiedScts[..|verifiedScts| - 1];
      var last := verifiedScts[|verifiedScts| - 1];
      assert verifiedScts == prefix + [last];
      EffectiveIssuanceTimeIsMinimum(prefix);
      ValidTimestampsSnoc(prefix, last);
    }
  }

  /** Only the Valid SCTs' timestamps matter: neither origin, nor order,
      nor SCTs of any other status change the effective issuance time. */
  lemma EffectiveIssuanceTimeDependsOnlyOnValidTimestamps(a: seq<VerifiedSct>, b: seq<VerifiedSct>)
    requires ValidTimestamps(a) == ValidTimestamps(b)
    ensures EffectiveIssuanceTime(a) == EffectiveIssuanceTime(b)
  {
    EffectiveIssuanceTimeIsMinimum(a);
    EffectiveIssuanceTimeIsMinimum(b);
  }

  /** Presenting more SCTs can only make the effective issuance time earlier. */
  lemma EffectiveIssuanceTimeAntitone(fewer: seq<VerifiedSct>, more: seq<VerifiedSct>)
    requires forall s :: s in fewer ==> s in more
    ensures EffectiveIssuanceTime(more) <= EffectiveIssuanceTime(fewer)
  {
    EffectiveIssuanceTimeIsMinimum(fewer);
    EffectiveIssuanceTimeIsMinimum(more);
    if ValidTimestamps(fewer) != {} {
      var t := EffectiveIssuanceTime(fewer);
      var s :| s in fewer && s.status == Valid && s.sct.timestamp == t;
      assert t in ValidTimestamps(more);
    }
  }

  // ---------------------------------------------------------------------
  // Qualification gate.

  /** A log qualified for a later issuance time is qualified for an earlier one. */
  lemma QualifiedAtEarlierIssuanceTime(verifiedSct: VerifiedSct, earlier: Uint64, later: Uint64)
    requires earlier <= later
    requires LogWasQualifiedForSct(verifiedSct, later)
    ensures LogWasQualifiedForSct(verifiedSct, earlier)
  {
  }

  /** An SCT from a disqualified log counts iff both its timestamp and the
      certificate's issuance time come strictly before the disqualification. */
  lemma QualificationWindow(verifiedSct: VerifiedSct, certIssuanceTime: Uint64)
    ensures verifiedSct.status == Valid ==> LogWasQualifiedForSct(verifiedSct, certIssuanceTime)
    ensures verifiedSct.status == Invalid ==> !LogWasQualifiedForSct(verifiedSct, certIssuanceTime)
    ensures verifiedSct.status == ValidFromDisqualifiedLog ==>
      (LogWasQualifiedForSct(verifiedSct, certIssuanceTime) <==>
       Max(certIssuanceTime, verifiedSct.sct.timestamp) < verifiedSct.logDisqualificationTime)
  {
  }

  /** With no Valid SCT the issuance time is UINT64_MAX, so no SCT from a
      disqualified log qualifies, and no SCT qualifies at all. */
  lemma NoValidSctMeansNothingQualifies(verifiedScts: seq<VerifiedSct>)
    requires forall s :: s in verifiedScts ==> s.status != Valid
    ensures forall s :: s in verifiedScts ==> !LogWasQualifiedForSct(s, EffectiveIssuanceTime(verifiedScts))
  {
    EffectiveIssuanceTimeIsMinimum(verifiedScts);
    assert ValidTimestamps(verifiedScts) == {};
  }

  // ---------------------------------------------------------------------
  // Distinct counts.

  /** There are never more distinct logs than selected SCTs. */
  lemma {:induction false} LogCountAtMostSelected(verifiedScts: seq<VerifiedSct>, selected: VerifiedSct -> bool)
    ensures |SelectedLogIds(verifiedScts, selected)| <= CountSelected(verifiedScts, selected)
    decreases |verifiedScts|
  {
    if verifiedScts != [] {
      var prefix := verifiedScts[..|verifiedScts| - 1];
      var last := verifiedScts[|verifiedScts| - 1];
      assert verifiedScts == prefix + [last];
      LogCountAtMostSelected(prefix, selected);
      SelectedLogIdsSnoc(prefix, last, selected);
    }
  }

  /** There are never more independent operators than selected SCTs from
      independent operators. */
  lemma {:induction false} OperatorCountAtMostSelected(
    verifiedScts: seq<VerifiedSct>, dependentOperators: seq<LogOperatorId>, selected: VerifiedSct -> bool)
    ensures |IndependentOperatorIds(verifiedScts, dependentOperators, selected)| <=
            CountSelected(verifiedScts, SelectIndependent(dependentOperators, selected))
    decreases |verifiedScts|
  {
    if verifiedScts != [] {
      var prefix := verifiedScts[..|verifiedScts| - 1];
      var last := verifiedScts[|verifiedScts| - 1];
      assert verifiedScts == prefix + [last];
      OperatorCountAtMostSelected(prefix, dependentOperators, selected);
      IndependentOperatorIdsSnoc(prefix, last, dependentOperators, selected);
    }
  }

  /** Another SCT from a log already counted leaves the count unchanged. */
  lemma RepeatedLogCountsOnce(
    verifiedScts: seq<VerifiedSct>, repeated: VerifiedSct, selected: VerifiedSct -> bool)
    requires exists s :: s in verifiedScts && selected(s) && s.sct.logId == repeated.sct.logId
    ensures SelectedLogIds(verifiedScts + [repeated], selected) == SelectedLogIds(verifiedScts, selected)
  {
  }

  /** Another SCT from an operator already counted leaves the count unchanged. */
  lemma RepeatedOperatorCountsOnce(
    verifiedScts: seq<VerifiedSct>, repeated: VerifiedSct, dependentOperators: seq<LogOperatorId>,
    selected: VerifiedSct -> bool)
    requires exists s :: s in verifiedScts && s.logOperatorId !in dependentOperators && selected(s) &&
                         s.logOperatorId == repeated.logOperatorId
    ensures IndependentOperatorIds(verifiedScts + [repeated], dependentOperators, selected) ==
            IndependentOperatorIds(verifiedScts, dependentOperators, selected)
  {
  }

  /** When every operator is CA-dependent no operator is independent. */
  lemma AllDependentMeansNoIndependentOperator(
    verifiedScts: seq<VerifiedSct>, dependentOperators: seq<LogOperatorId>, selected: VerifiedSct -> bool)
    requires forall s :: s in verifiedScts ==> s.logOperatorId in dependentOperators
    ensures |IndependentOperatorIds(verifiedScts, dependentOperators, selected)| == 0
  {
  }

  /** Two independent operators imply at least two qualified SCTs. */
  lemma DiversityImpliesTwoQualifiedScts(
    verifiedScts: seq<VerifiedSct>, certIssuanceTime: Uint64, dependentOperators: seq<LogOperatorId>)
    requires DiversityHolds(verifiedScts, certIssuanceTime, dependentOperators)
    ensures CountSelected(verifiedScts, SelectIndependent(dependentOperators, SelectQualified(certIssuanceTime))) >= 2
  {
    OperatorCountAtMostSelected(verifiedScts, dependentOperators, SelectQualified(certIssuanceTime));
  }

  // ---------------------------------------------------------------------
  // The verdict.

  /** The combiner never yields Unknown, and its three outcomes are exactly
      the three rows of the decision table. */
  lemma VerdictDecisionTable(
    verifiedScts: seq<VerifiedSct>, months: SizeT, dependentOperators: seq<LogOperatorId>)
    ensures var t := EffectiveIssuanceTime(verifiedScts);
            var caseHolds := NonEmbeddedCaseHolds(verifiedScts) || EmbeddedCaseHolds(verifiedScts, months, t);
            var v := PolicyVerdict(verifiedScts, months, dependentOperators);
            && v != Unknown
            && (v == NotEnoughScts <==> !caseHolds)
            && (v == Compliant <==> caseHolds && DiversityHolds(verifiedScts, t, dependentOperators))
            && (v == NotDiverseScts <==> caseHolds && !DiversityHolds(verifiedScts, t, dependentOperators))
  {
  }

  /** Without a Valid SCT neither case can hold, whatever else is presented;
      in particular an empty list is NotEnoughScts. */
  lemma NoValidSctIsNotEnough(
    verifiedScts: seq<VerifiedSct>, months: SizeT, dependentOperators: seq<LogOperatorId>)
    requires forall s :: s in verifiedScts ==> s.status != Valid
    ensures PolicyVerdict(verifiedScts, months, dependentOperators) == NotEnoughScts
  {
  }

  lemma EmptyListIsNotEnough(months: SizeT, dependentOperators: seq<LogOperatorId>)
    ensures PolicyVerdict([], months, dependentOperators) == NotEnoughScts
  {
  }

  /** A Compliant verdict is backed by two qualified SCTs whose logs are run
      by two different CA-independent operators. */
  lemma CompliantHasTwoIndependentOperators(
    verifiedScts: seq<VerifiedSct>, months: SizeT, dependentOperators: seq<LogOperatorId>)
    requires PolicyVerdict(verifiedScts, months, dependentOperators) == Compliant
    ensures exists s1, s2 :: s1 in verifiedScts && s2 in verifiedScts &&
              s1.logOperatorId != s2.logOperatorId &&
              s1.logOperatorId !in dependentOperators && s2.logOperatorId !in dependentOperators &&
              LogWasQualifiedForSct(s1, EffectiveIssuanceTime(verifiedScts)) &&
              LogWasQualifiedForSct(s2, EffectiveIssuanceTime(verifiedScts))
  {
    var t := EffectiveIssuanceTime(verifiedScts);
    var ids := IndependentOperatorIds(verifiedScts, dependentOperators, SelectQualified(t));
    var o1 :| o1 in ids;
    assert |ids - {o1}| == |ids| - 1;
    var o2 :| o2 in ids - {o1};
    var s1 :| s1 in verifiedScts && s1.logOperatorId !in dependentOperators && SelectQualified(t)(s1) && s1.logOperatorId == o1;
    var s2 :| s2 in verifiedScts && s2.logOperatorId !in dependentOperators && SelectQualified(t)(s2) && s2.logOperatorId == o2;
  }

  lemma NonEmbeddedCaseMonotone(fewer: seq<VerifiedSct>, more: seq<VerifiedSct>)
    requires forall s :: s in fewer ==> s in more
    requires NonEmbeddedCaseHolds(fewer)
    ensures NonEmbeddedCaseHolds(more)
  {
    SubsetCardinality(SelectedLogIds(fewer, SelectValid()), SelectedLogIds(more, SelectValid()));
  }

  lemma EmbeddedCaseMonotone(
    fewer: seq<VerifiedSct>, more: seq<VerifiedSct>, months: SizeT, laterTime: Uint64, earlierTime: Uint64)
    requires forall s :: s in fewer ==> s in more
    requires earlierTime <= laterTime
    requires EmbeddedCaseHolds(fewer, months, laterTime)
    ensures EmbeddedCaseHolds(more, months, earlierTime)
  {
    var small := SelectedLogIds(fewer, SelectQualifiedEmbedded(laterTime));
    var large := SelectedLogIds(more, SelectQualifiedEmbedded(earlierTime));
    forall id | id in small ensures id in large {
      var s :| s in fewer && SelectQualifiedEmbedded(laterTime)(s) && s.sct.logId == id;
      QualifiedAtEarlierIssuanceTime(s, earlierTime, laterTime);
    }
    SubsetCardinality(small, large);
  }

  lemma DiversityMonotone(
    fewer: seq<VerifiedSct>, more: seq<VerifiedSct>, laterTime: Uint64, earlierTime: Uint64,
    moreDependent: seq<LogOperatorId>, fewerDependent: seq<LogOperatorId>)
    requires forall s :: s in fewer ==> s in more
    requires forall o :: o in fewerDependent ==> o in moreDependent
    requires earlierTime <= laterTime
    requires DiversityHolds(fewer, laterTime, moreDependent)
    ensures DiversityHolds(more, earlierTime, fewerDependent)
  {
    var small := IndependentOperatorIds(fewer, moreDependent, SelectQualified(laterTime));
    var large := IndependentOperatorIds(more, fewerDependent, SelectQualified(earlierTime));
    forall o | o in small ensures o in large {
      var s :| s in fewer && s.logOperatorId !in moreDependent && SelectQualified(laterTime)(s) && s.logOperatorId == o;
      QualifiedAtEarlierIssuanceTime(s, earlierTime, laterTime);
    }
    SubsetCardinality(small, large);
  }

  /** Presenting additional SCTs never makes the verdict worse. */
  lemma VerdictNeverWorsensWithMoreScts(
    fewer: seq<VerifiedSct>, more: seq<VerifiedSct>, months: SizeT, dependentOperators: seq<LogOperatorId>)
    requires forall s :: s in fewer ==> s in more
    ensures Strength(PolicyVerdict(fewer, months, dependentOperators)) <=
            Strength(PolicyVerdict(more, months, dependentOperators))
  {
    var laterTime := EffectiveIssuanceTime(fewer);
    var earlierTime := EffectiveIssuanceTime(more);
    EffectiveIssuanceTimeAntitone(fewer, more);
    if NonEmbeddedCaseHolds(fewer) {
      NonEmbeddedCaseMonotone(fewer, more);
    }
    if EmbeddedCaseHolds(fewer, months, laterTime) {
      EmbeddedCaseMonotone(fewer, more, months, laterTime, earlierTime);
    }
    if DiversityHolds(fewer, laterTime, dependentOperators) {
      DiversityMonotone(fewer, more, laterTime, earlierTime, dependentOperators, dependentOperators);
    }
  }

  /** Declaring more operators CA-dependent never makes the verdict better. */
  lemma VerdictNeverImprovesWithMoreDependentOperators(
    verifiedScts: seq<VerifiedSct>, months: SizeT,
    fewerDependent: seq<LogOperatorId>, moreDependent: seq<LogOperatorId>)
    requires forall o :: o in fewerDependent ==> o in moreDependent
    ensures Strength(PolicyVerdict(verifiedScts, months, moreDependent)) <=
            Strength(PolicyVerdict(verifiedScts, months, fewerDependent))
  {
    var t := EffectiveIssuanceTime(verifiedScts);
    if DiversityHolds(verifiedScts, t, moreDependent) {
      DiversityMonotone(verifiedScts, verifiedScts, t, t, moreDependent, fewerDependent);
    }
  }

  /** The verdict depends only on which SCTs are presented, not on their
      order or on repeated entries. */
  lemma VerdictIgnoresOrderAndRepetition(
    a: seq<VerifiedSct>, b: seq<VerifiedSct>, months: SizeT, dependentOperators: seq<LogOperatorId>)
    requires forall s :: s in a <==> s in b
    ensures PolicyVerdict(a, months, dependentOperators) == PolicyVerdict(b, months, dependentOperators)
  {
    VerdictNeverWorsensWithMoreScts(a, b, months, dependentOperators);
    VerdictNeverWorsensWithMoreScts(b, a, months, dependentOperators);
  }
}
