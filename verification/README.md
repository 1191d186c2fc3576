# Certificate Transparency policy enforcer, modelled in Dafny

This project models the "CT Qualified" policy check of Gecko's certificate
verifier (`security/certverifier/CTPolicyEnforcer.cpp`). The check takes three inputs:

- the SCTs (signed certificate timestamps) presented with a certificate, already
  verified and classified;
- the certificate's lifetime in full calendar months;
- the log operators that are dependent on the issuing CA.

It answers `Compliant`, `NotEnoughScts` or `NotDiverseScts`. The policy has three gates:

- **diversity**: qualified SCTs from at least two operators that are independent
  of the CA and of each other;
- **Qualification Case #1**: a Valid SCT delivered by TLS extension or OCSP
  response, and Valid SCTs from at least two distinct logs;
- **Qualification Case #2**: a Valid embedded SCT, and embedded SCTs from at
  least `1 + (months + 9) / 12` distinct qualified logs.

A log is *qualified* for an SCT when the SCT is Valid, or when it comes from
a disqualified log and both the certificate's effective issuance time and the
SCT's own timestamp come strictly before the disqualification. The effective
issuance time is the earliest timestamp among the Valid SCTs, or `UINT64_MAX`
when there is none.

Files:

- `ct_types.dfy` (module `CtTypes`): the SCT record, its status and origin,
  the verdict, and the `uint64_t` and `size_t` ranges.
- `ct_policy.dfy` (module `CtPolicy`): the pure functions of the source
  (`GetRequiredEmbeddedSctsCount`, `LogWasQualifiedForSct`, the three
  selector lambdas). It also states the policy over sets: distinct log ids,
  distinct independent operators, the effective issuance time, the three
  gates and the verdict `PolicyVerdict`.
- `ct_policy_enforcer.dfy` (module `CtPolicyEnforcer`): the source's loops as
  methods. Each is proved equal to the set-based policy: the linear scans with
  early return, the two deduplicating counters that grow a vector with nested
  linear scans, the running minimum, the three case checks and `CheckCompliance`.
- `ct_policy_lemmas.dfy` (module `CtPolicyLemmas`): properties of the policy.
- `ct_policy_examples.dfy` (module `CtPolicyExamples`): concrete certificates,
  including both edges of the disqualification window.

Log ids are byte sequences compared by content, as `*logId == *sctLogId`
compares buffers. Timestamps and disqualification times are integers in
`[0, UINT64_MAX]`. The lifetime is a `size_t`, taken as 64 bits wide, and the
wrap-around of `months + 9` is written out. Selectors are function values
`VerifiedSct -> bool`.

If "up to 3 months over" includes three months, the code and the wording of
the policy it quotes (the comment at lines 28-31) disagree at exactly three
months over a whole year. The formula `1 + (months + 9) / 12` rounds down only when
0 to 2 months over, so 15 months requires 3 SCTs and 27 months requires 4. The
model follows the code. `PolicyLifetimeYears` states the rounding the code
actually performs, and `RequiredCountExamples` lists the values.

## Model

| member | source | states |
|---|---|---|
| CtPolicy.GetRequiredEmbeddedSctsCount | security/certverifier/CTPolicyEnforcer.cpp:26-33 | the required embedded count is at least 1 for every `size_t` lifetime, wrap-around included |
| CtPolicyLemmas.RequiredCountIsLifetimeYearsPlusOne | security/certverifier/CTPolicyEnforcer.cpp:24-33 | without wrap-around, the required count is N + 1, where N is the lifetime in years: whole years exact, rounded down when 0-2 months over, rounded up from 3 months over |
| CtPolicyLemmas.RequiredCountMonotone | security/certverifier/CTPolicyEnforcer.cpp:26-33 | without wrap-around (lifetimes up to SIZE_MAX - 9 months), a longer lifetime never requires fewer embedded SCTs |
| CtPolicyLemmas.RequiredCountThreshold | security/certverifier/CTPolicyEnforcer.cpp:26-33 | without wrap-around (lifetimes up to SIZE_MAX - 9 months), more than n SCTs are required exactly when months + 9 >= 12 n: 3 from 15 months on, 4 from 27 months on |
| CtPolicyLemmas.RequiredCountExamples | security/certverifier/CTPolicyEnforcer.cpp:26-33 | lifetimes 0, 2, 3, 11, 12, 14, 15, 16, 24 and 27 months require 1, 1, 2, 2, 2, 2, 3, 3, 3 and 4 SCTs |
| CtPolicyLemmas.RequiredCountWrapsNearSizeMax | security/certverifier/CTPolicyEnforcer.cpp:32 | the nine largest `size_t` lifetimes wrap in `months + 9` and then require a single SCT |
| CtPolicy.LogWasQualifiedForSct | security/certverifier/CTPolicyEnforcer.cpp:155-169 | an SCT qualifies iff it is Valid, or it comes from a disqualified log and the later of the issuance time and its own timestamp is strictly before the disqualification; at issuance time UINT64_MAX only Valid SCTs qualify |
| CtPolicyEnforcer.HasValidEmbeddedSct | security/certverifier/CTPolicyEnforcer.cpp:35-44 | true iff some SCT has status Valid and origin Embedded |
| CtPolicyEnforcer.HasValidNonEmbeddedSct | security/certverifier/CTPolicyEnforcer.cpp:46-56 | true iff some SCT has status Valid and arrived by TLS extension or OCSP response |
| CtPolicyEnforcer.CountIndependentLogOperatorsForSelectedScts | security/certverifier/CTPolicyEnforcer.cpp:58-97 | the count is the number of distinct operator ids among selected SCTs whose operator is not CA-dependent; it is 0 when every operator is dependent |
| CtPolicyEnforcer.CountLogsForSelectedScts | security/certverifier/CTPolicyEnforcer.cpp:99-130 | the count is the number of distinct log ids, by content, among selected SCTs, and is at most the number of selected SCTs |
| CtPolicyEnforcer.GetEffectiveCertIssuanceTime | security/certverifier/CTPolicyEnforcer.cpp:132-153 | the result is at most every Valid SCT's timestamp, and is either one of them or UINT64_MAX when no SCT is Valid |
| CtPolicyEnforcer.CheckOperatorDiversityCompliance | security/certverifier/CTPolicyEnforcer.cpp:171-199 | true iff at least two distinct CA-independent operators ran logs qualified for the issuance time, with the selector `SelectQualified` modelling the lambda at lines 184-186; then at least two qualified SCTs were presented |
| CtPolicyEnforcer.CheckNonEmbeddedCompliance | security/certverifier/CTPolicyEnforcer.cpp:201-228 | false without a Valid non-embedded SCT; otherwise true iff Valid SCTs of any origin come from at least two distinct logs, with the selector `SelectValid` modelling the lambda at lines 216-218 |
| CtPolicyEnforcer.CheckEmbeddedCompliance | security/certverifier/CTPolicyEnforcer.cpp:230-270 | false without a Valid embedded SCT; otherwise true iff embedded SCTs from qualified logs come from at least the required number of distinct logs, with the selector `SelectQualifiedEmbedded` modelling the lambda at lines 252-255 |
| CtPolicyEnforcer.CheckCompliance | security/certverifier/CTPolicyEnforcer.cpp:272-336 | the verdict equals the policy's verdict and is never Unknown: NotEnoughScts iff neither case holds, Compliant iff a case holds and diversity holds, NotDiverseScts iff a case holds and diversity fails |
| CtPolicyLemmas.EffectiveIssuanceTimeIsMinimum | security/certverifier/CTPolicyEnforcer.cpp:144-153 | the effective issuance time is UINT64_MAX with no Valid SCT, and otherwise the least Valid timestamp |
| CtPolicyLemmas.EffectiveIssuanceTimeDependsOnlyOnValidTimestamps | security/certverifier/CTPolicyEnforcer.cpp:136-153 | the issuance time depends only on the Valid SCTs' timestamps: not on origin, order, or SCTs of other statuses |
| CtPolicyLemmas.EffectiveIssuanceTimeAntitone | security/certverifier/CTPolicyEnforcer.cpp:136-153 | presenting more SCTs can only make the issuance time earlier |
| CtPolicyLemmas.QualifiedAtEarlierIssuanceTime | security/certverifier/CTPolicyEnforcer.cpp:158-169 | an SCT qualified for an issuance time stays qualified for any earlier one |
| CtPolicyLemmas.QualificationWindow | security/certverifier/CTPolicyEnforcer.cpp:155-169 | Valid SCTs always qualify, Invalid never; an SCT from a disqualified log qualifies iff the later of the issuance time and its timestamp is strictly before the disqualification |
| CtPolicyLemmas.NoValidSctMeansNothingQualifies | security/certverifier/CTPolicyEnforcer.cpp:146-169 | with no Valid SCT the issuance time is UINT64_MAX, so no SCT of the list qualifies |
| CtPolicyLemmas.LogCountAtMostSelected | security/certverifier/CTPolicyEnforcer.cpp:102-130 | there are never more distinct logs than selected SCTs |
| CtPolicyLemmas.OperatorCountAtMostSelected | security/certverifier/CTPolicyEnforcer.cpp:62-97 | there are never more distinct independent operators than selected SCTs from independent operators |
| CtPolicyLemmas.RepeatedLogCountsOnce | security/certverifier/CTPolicyEnforcer.cpp:113-126 | another selected SCT from a log already counted leaves the set of counted logs unchanged |
| CtPolicyLemmas.RepeatedOperatorCountsOnce | security/certverifier/CTPolicyEnforcer.cpp:80-93 | another selected SCT from an operator already counted leaves the set of counted operators unchanged |
| CtPolicyLemmas.AllDependentMeansNoIndependentOperator | security/certverifier/CTPolicyEnforcer.cpp:67-79 | when every operator is CA-dependent, no operator is counted |
| CtPolicyLemmas.DiversityImpliesTwoQualifiedScts | security/certverifier/CTPolicyEnforcer.cpp:190 | two independent operators imply at least two qualified SCTs from independent operators |
| CtPolicyLemmas.VerdictDecisionTable | security/certverifier/CTPolicyEnforcer.cpp:310-316 | the verdict is never Unknown, and each of the three outcomes is exactly one row of the decision table over the two cases and diversity |
| CtPolicyLemmas.NoValidSctIsNotEnough | security/certverifier/CTPolicyEnforcer.cpp:207-212 | without a Valid SCT neither case holds, so the verdict is NotEnoughScts whatever else is presented |
| CtPolicyLemmas.EmptyListIsNotEnough | security/certverifier/CTPolicyEnforcer.cpp:310-316 | an empty SCT list yields NotEnoughScts |
| CtPolicyLemmas.CompliantHasTwoIndependentOperators | security/certverifier/CTPolicyEnforcer.cpp:171-173 | a Compliant verdict is backed by two qualified SCTs whose operators differ and are both CA-independent |
| CtPolicyLemmas.NonEmbeddedCaseMonotone | security/certverifier/CTPolicyEnforcer.cpp:201-228 | Case #1 keeps holding when more SCTs are presented |
| CtPolicyLemmas.EmbeddedCaseMonotone | security/certverifier/CTPolicyEnforcer.cpp:230-270 | Case #2 keeps holding with more SCTs and an earlier issuance time |
| CtPolicyLemmas.DiversityMonotone | security/certverifier/CTPolicyEnforcer.cpp:171-199 | diversity keeps holding with more SCTs, fewer dependent operators and an earlier issuance time |
| CtPolicyLemmas.VerdictNeverWorsensWithMoreScts | security/certverifier/CTPolicyEnforcer.cpp:272-316 | presenting additional SCTs never moves the verdict down the order NotEnoughScts < NotDiverseScts < Compliant |
| CtPolicyLemmas.VerdictNeverImprovesWithMoreDependentOperators | security/certverifier/CTPolicyEnforcer.cpp:272-316 | declaring more operators CA-dependent never improves the verdict |
| CtPolicyLemmas.VerdictIgnoresOrderAndRepetition | security/certverifier/CTPolicyEnforcer.cpp:272-316 | two lists holding the same SCTs get the same verdict, whatever their order and repetitions |
| CtPolicyExamples.OneEmbeddedSctIsNotEnough | security/certverifier/CTPolicyEnforcer.cpp:237-270 | one Valid embedded SCT on a 12-month certificate gives NotEnoughScts |
| CtPolicyExamples.TwoIndependentEmbeddedSctsComply | security/certverifier/CTPolicyEnforcer.cpp:272-316 | two Valid embedded SCTs from two logs of two independent operators make a 12-month certificate Compliant |
| CtPolicyExamples.DependentOperatorsAreNotDiverse | security/certverifier/CTPolicyEnforcer.cpp:178-199 | the same two SCTs with both operators CA-dependent give NotDiverseScts |
| CtPolicyExamples.TwoSctsFromOneLogAreNotEnough | security/certverifier/CTPolicyEnforcer.cpp:246-255 | two embedded SCTs from one log count once, so a 12-month certificate gets NotEnoughScts even though the operators differ |
| CtPolicyExamples.TlsAndOcspSctsComply | security/certverifier/CTPolicyEnforcer.cpp:201-228 | an SCT by TLS extension and one by OCSP, from two logs of independent operators, give Compliant |
| CtPolicyExamples.DisqualificationWindow | security/certverifier/CTPolicyEnforcer.cpp:158-169 | an SCT from a disqualified log completes Case #2 exactly when both the issuance time and its own timestamp precede the disqualification |
| CtPolicyExamples.DisqualificationWindowEdges | security/certverifier/CTPolicyEnforcer.cpp:165-166 | moving the disqualification time onto the issuance time, or onto the SCT's timestamp, flips Compliant to NotEnoughScts |

## Left out

- Allocation failure: the `append` calls at lines 90-91 and 123-124 can return `FATAL_ERROR_NO_MEMORY`, and `CheckCompliance` passes that on. The model treats `append` as infallible, so its methods return the count or verdict directly instead of a `Result`. Allocation failure is not part of the policy.
- Diagnostic logging: the `MOZ_LOG` calls (lines 223-225, 263-266, 285-334) only log. `MOZ_ASSERT_UNREACHABLE` at line 333 becomes an assertion, proved, that the verdict is not Unknown.
- Buffer addresses: `CountLogsForSelectedScts` keeps the addresses of the log id buffers rather than copies (lines 104-106). The model stores the log ids themselves, which gives the same content comparison.
- Grandfathering: the provision in the comments at lines 174-177 and 190-196 is not implemented in the source, so it is not modelled.
- Producing the input: SCT signature verification and the construction of the verified SCT records (status, origin, operator, disqualification time) happen elsewhere. The headers that declare these types (`CTPolicyEnforcer.h`, `CTVerifyResult.h`, `CTLog.h`) are not part of this model. Statuses other than Valid and ValidFromDisqualifiedLog are folded into one `Invalid` value, because the policy only distinguishes those two. Operator ids are unbounded naturals, because the policy only compares them for equality.
- Platform width: `size_t` is taken as 64 bits wide.
- Idempotence: repeated calls give the same verdict. The model has no hidden state, so every member is a function of its inputs; no separate lemma states this.
- `xpcom/threads/CondVar.h`: a condition-variable wrapper whose only behaviour is thread blocking. It is not part of this model.
- `embedding/embedlite/embedprocess/EmbedLiteViewProcessChild.h`: an actor declaration with no behaviour. It is not part of this model.
