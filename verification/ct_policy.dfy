/**
 * The pure part of the "CT Qualified" policy: the required-count formula,
 * the qualification gate, the selectors the counters are called with, and
 * the policy itself stated over sets of log ids and operator ids.
 */
module CtPolicy {
  import opened CtTypes

  /** Number of embedded SCTs Qualification Case #2 requires for a certificate
      lifetime in full calendar months. The addition is done on `size_t`
      and wraps; the increment after the division cannot overflow. */
  function GetRequiredEmbeddedSctsCount(certLifetimeInFullCalendarMonths: SizeT): (r: SizeT)
    ensures r >= 1
  {
    var sum := certLifetimeInFullCalendarMonths + 9;
    var wrapped := if sum > SIZE_MAX then sum - (SIZE_MAX + 1) else sum;
    1 + wrapped / 12
  }

  /** The lifetime in years as the policy rounds it: a whole number of years
      stays as it is, up to two months over a whole year is rounded down,
      three or more months over is rounded up. */
  ghost function PolicyLifetimeYears(months: nat): nat
  {
    if months % 12 < 3 then months / 12 else months / 12 + 1
  }

  /** Whether the log that issued the SCT was qualified at the certificate's
      issuance time, and the SCT itself predates any disqualification. */
  function LogWasQualifiedForSct(verifiedSct: VerifiedSct, certIssuanceTime: Uint64): (qualified: bool)
    ensures qualified <==>
      verifiedSct.status == Valid ||
      (verifiedSct.status == ValidFromDisqualifiedLog &&
       Max(certIssuanceTime, verifiedSct.sct.timestamp) < verifiedSct.logDisqualificationTime)
    ensures certIssuanceTime == UINT64_MAX ==> (qualified <==> verifiedSct.status == Valid)
  {
    if verifiedSct.status == Valid then
      true
    else if verifiedSct.status == ValidFromDisqualifiedLog then
      var logDisqualificationTime := verifiedSct.logDisqualificationTime;
      certIssuanceTime < logDisqualificationTime &&
      verifiedSct.sct.timestamp < logDisqualificationTime
    else
      false
  }

  function Min(a: Uint64, b: Uint64): Uint64
  {
    if b < a then b else a
  }

  function Max(a: int, b: int): int
  {
    if a < b then b else a
  }

  predicate IsValidEmbedded(verifiedSct: VerifiedSct)
  {
    verifiedSct.status == Valid && verifiedSct.origin == Embedded
  }

  predicate IsValidNonEmbedded(verifiedSct: VerifiedSct)
  {
    verifiedSct.status == Valid &&
    (verifiedSct.origin == TLSExtension || verifiedSct.origin == OCSPResponse)
  }

  /** Selector of the operator-diversity check. */
  function SelectQualified(certIssuanceTime: Uint64): VerifiedSct -> bool
  {
    (verifiedSct: VerifiedSct) => LogWasQualifiedForSct(verifiedSct, certIssuanceTime)
  }

  /** Selector of the non-embedded case: SCTs with status Valid, any origin. */
  function SelectValid(): VerifiedSct -> bool
  {
    (verifiedSct: VerifiedSct) => verifiedSct.status == Valid
  }

  /** Selector of the embedded case: embedded SCTs from qualified logs. */
  function SelectQualifiedEmbedded(certIssuanceTime: Uint64): VerifiedSct -> bool
  {
    (verifiedSct: VerifiedSct) => verifiedSct.origin == Embedded && LogWasQualifiedForSct(verifiedSct, certIssuanceTime)
  }

  /** Selected SCTs whose operator is not CA-dependent. */
  function SelectIndependent(dependentOperators: seq<LogOperatorId>, selected: VerifiedSct -> bool): VerifiedSct -> bool
  {
    (verifiedSct: VerifiedSct) => verifiedSct.logOperatorId !in dependentOperators && selected(verifiedSct)
  }

  // ---------------------------------------------------------------------
  // The policy, stated over sets.

  /** The set of a list's entries: what a deduplicated vector holds. */
  ghost function Elements<T>(xs: seq<T>): set<T>
  {
    set x | x in xs
  }

  /** The distinct log ids (by content) of the selected SCTs. */
  ghost function SelectedLogIds(verifiedScts: seq<VerifiedSct>, selected: VerifiedSct -> bool): set<LogId>
  {
    set s | s in verifiedScts && selected(s) :: s.sct.logId
  }

  /** The distinct CA-independent operators of the selected SCTs. */
  ghost function IndependentOperatorIds(
    verifiedScts: seq<VerifiedSct>, dependentOperators: seq<LogOperatorId>,
    selected: VerifiedSct -> bool): set<LogOperatorId>
  {
    set s | s in verifiedScts && s.logOperatorId !in dependentOperators && selected(s) :: s.logOperatorId
  }

  /** How many entries of the list are selected, duplicates included. */
  ghost function CountSelected(verifiedScts: seq<VerifiedSct>, selected: VerifiedSct -> bool): nat
    decreases |verifiedScts|
  {
    if verifiedScts == [] then 0
    else
      CountSelected(verifiedScts[..|verifiedScts| - 1], selected) +
      (if selected(verifiedScts[|verifiedScts| - 1]) then 1 else 0)
  }

  /** The timestamps of the SCTs with status Valid. */
  ghost function ValidTimestamps(verifiedScts: seq<VerifiedSct>): set<Uint64>
  {
    set s | s in verifiedScts && s.status == Valid :: s.sct.timestamp
  }

  /** The earliest timestamp of a Valid SCT, or UINT64_MAX if there is none. */
  ghost function EffectiveIssuanceTime(verifiedScts: seq<VerifiedSct>): Uint64
    decreases |verifiedScts|
  {
    if verifiedScts == [] then UINT64_MAX
    else
      var earlier := EffectiveIssuanceTime(verifiedScts[..|verifiedScts| - 1]);
      var last := verifiedScts[|verifiedScts| - 1];
      if last.status == Valid then Min(earlier, last.sct.timestamp) else earlier
  }

  ghost predicate HasValidEmbedded(verifiedScts: seq<VerifiedSct>)
  {
    exists s :: s in verifiedScts && IsValidEmbedded(s)
  }

  ghost predicate HasValidNonEmbedded(verifiedScts: seq<VerifiedSct>)
  {
    exists s :: s in verifiedScts && IsValidNonEmbedded(s)
  }

  /** At least two qualified SCTs from logs run by two operators independent
      of the CA and of each other. */
  ghost predicate DiversityHolds(
    verifiedScts: seq<VerifiedSct>, certIssuanceTime: Uint64, dependentOperators: seq<LogOperatorId>)
  {
    |IndependentOperatorIds(verifiedScts, dependentOperators, SelectQualified(certIssuanceTime))| >= 2
  }

  /** Qualification Case #1: a Valid SCT delivered by TLS extension or OCSP,
      and Valid SCTs (any origin) from at least two distinct logs. */
  ghost predicate NonEmbeddedCaseHolds(verifiedScts: seq<VerifiedSct>)
  {
    HasValidNonEmbedded(verifiedScts) && |SelectedLogIds(verifiedScts, SelectValid())| >= 2
  }

  /** Qualification Case #2: a Valid embedded SCT, and embedded SCTs from as
      many distinct qualified logs as the lifetime requires. */
  ghost predicate EmbeddedCaseHolds(
    verifiedScts: seq<VerifiedSct>, certLifetimeInCalendarMonths: SizeT, certIssuanceTime: Uint64)
  {
    HasValidEmbedded(verifiedScts) &&
    |SelectedLogIds(verifiedScts, SelectQualifiedEmbedded(certIssuanceTime))| >=
      GetRequiredEmbeddedSctsCount(certLifetimeInCalendarMonths)
  }

  /** The verdict the policy assigns to a certificate. */
  ghost function PolicyVerdict(
    verifiedScts: seq<VerifiedSct>, certLifetimeInCalendarMonths: SizeT,
    dependentOperators: seq<LogOperatorId>): CtPolicyCompliance
  {
    var certIssuanceTime := EffectiveIssuanceTime(verifiedScts);
    if NonEmbeddedCaseHolds(verifiedScts) ||
       EmbeddedCaseHolds(verifiedScts, certLifetimeInCalendarMonths, certIssuanceTime)
    then
      if DiversityHolds(verifiedScts, certIssuanceTime, dependentOperators) then Compliant else NotDiverseScts
    else
      NotEnoughScts
  }

  /** Orders the verdicts from worst to best, for the monotonicity lemmas. */
  function Strength(compliance: CtPolicyCompliance): nat
  {
    match compliance
    case Compliant => 2
    case NotDiverseScts => 1
    case _ => 0
  }
}
