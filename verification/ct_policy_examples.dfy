/**
 * Concrete certificates run through the policy: the scenarios the policy's
 * rules are easiest to check against, including both edges of the
 * disqualification window.
 */
module CtPolicyExamples {
  import opened CtTypes
  import opened CtPolicy
  import opened CtPolicyLemmas

  const LogA: LogId := [0xA1]
  const LogB: LogId := [0xB2]

  function MakeSct(logId: LogId, timestamp: Uint64, status: Status, origin: Origin,
                   logOperatorId: LogOperatorId, logDisqualificationTime: Uint64): VerifiedSct
  {
    VerifiedSct(SignedCertificateTimestamp(logId, timestamp), status, origin, logOperatorId, logDisqualificationTime)
  }

  /** The distinct log ids and operators of two SCTs that are both selected. */
  lemma PairLogIds(x: VerifiedSct, y: VerifiedSct, selected: VerifiedSct -> bool)
    requires selected(x) && selected(y)
    ensures SelectedLogIds([x, y], selected) == {x.sct.logId, y.sct.logId}
  {
  }

  lemma PairOperatorIds(x: VerifiedSct, y: VerifiedSct, dependentOperators: seq<LogOperatorId>, selected: VerifiedSct -> bool)
    requires selected(x) && selected(y)
    ensures IndependentOperatorIds([x, y], dependentOperators, selected) ==
            (if x.logOperatorId in dependentOperators then {} else {x.logOperatorId}) +
            (if y.logOperatorId in dependentOperators then {} else {y.logOperatorId})
  {
  }

  lemma PairIssuanceTime(x: VerifiedSct, y: VerifiedSct)
    ensures EffectiveIssuanceTime([x, y]) ==
            if x.status == Valid && y.status == Valid then Min(x.sct.timestamp, y.sct.timestamp)
            else if x.status == Valid then x.sct.timestamp
            else if y.status == Valid then y.sct.timestamp
            else UINT64_MAX
  {
    assert [x, y][..1] == [x];
    assert [x][..0] == [];
    assert EffectiveIssuanceTime([x]) == if x.status == Valid then x.sct.timestamp else UINT64_MAX;
  }

  /** One Valid embedded SCT on a 12-month certificate is not enough. */
  lemma OneEmbeddedSctIsNotEnough()
    ensures PolicyVerdict([MakeSct(LogA, 1000, Valid, Embedded, 1, 0)], 12, []) == NotEnoughScts
  {
    var x := MakeSct(LogA, 1000, Valid, Embedded, 1, 0);
    SelectedLogIdsSnoc([], x, SelectQualifiedEmbedded(EffectiveIssuanceTime([x])));
    assert [x] == [] + [x];
  }

  /** Two Valid embedded SCTs from two logs of two independent operators
      make a 12-month certificate compliant. */
  lemma TwoIndependentEmbeddedSctsComply()
    ensures PolicyVerdict([MakeSct(LogA, 1000, Valid, Embedded, 1, 0),
                           MakeSct(LogB, 1001, Valid, Embedded, 2, 0)], 12, []) == Compliant
  {
    var x := MakeSct(LogA, 1000, Valid, Embedded, 1, 0);
    var y := MakeSct(LogB, 1001, Valid, Embedded, 2, 0);
    PairIssuanceTime(x, y);
    PairLogIds(x, y, SelectQualifiedEmbedded(1000));
    PairOperatorIds(x, y, [], SelectQualified(1000));
    assert LogA != LogB by { assert LogA[0] != LogB[0]; }
  }

  /** The same two SCTs with both operators CA-dependent are not diverse. */
  lemma DependentOperatorsAreNotDiverse()
    ensures PolicyVerdict([MakeSct(LogA, 1000, Valid, Embedded, 1, 0),
                           MakeSct(LogB, 1001, Valid, Embedded, 2, 0)], 12, [1, 2]) == NotDiverseScts
  {
    var x := MakeSct(LogA, 1000, Valid, Embedded, 1, 0);
    var y := MakeSct(LogB, 1001, Valid, Embedded, 2, 0);
    PairIssuanceTime(x, y);
    PairLogIds(x, y, SelectQualifiedEmbedded(1000));
    PairOperatorIds(x, y, [1, 2], SelectQualified(1000));
    assert LogA != LogB by { assert LogA[0] != LogB[0]; }
  }

  /** Two embedded SCTs from the same log count once: not enough, even
      though their operators differ. */
  lemma TwoSctsFromOneLogAreNotEnough()
    ensures PolicyVerdict([MakeSct(LogA, 1000, Valid, Embedded, 1, 0),
                           MakeSct(LogA, 1001, Valid, Embedded, 2, 0)], 12, []) == NotEnoughScts
  {
    var x := MakeSct(LogA, 1000, Valid, Embedded, 1, 0);
    var y := MakeSct(LogA, 1001, Valid, Embedded, 2, 0);
    PairIssuanceTime(x, y);
    PairLogIds(x, y, SelectQualifiedEmbedded(1000));
  }

  /** An SCT by TLS extension and one by OCSP from two logs of two
      independent operators satisfy the non-embedded case. */
  lemma TlsAndOcspSctsComply()
    ensures PolicyVerdict([MakeSct(LogA, 1000, Valid, TLSExtension, 1, 0),
                           MakeSct(LogB, 1001, Valid, OCSPResponse, 2, 0)], 12, []) == Compliant
  {
    var x := MakeSct(LogA, 1000, Valid, TLSExtension, 1, 0);
    var y := MakeSct(LogB, 1001, Valid, OCSPResponse, 2, 0);
    PairIssuanceTime(x, y);
    PairLogIds(x, y, SelectValid());
    PairOperatorIds(x, y, [], SelectQualified(1000));
    assert LogA != LogB by { assert LogA[0] != LogB[0]; }
  }

  /** A Valid embedded SCT at 1000 from log A and an embedded SCT at `timestamp`
      from log B, disqualified at `disqualifiedAt`, on a 12-month certificate. */
  function WindowScts(timestamp: Uint64, disqualifiedAt: Uint64): seq<VerifiedSct>
  {
    [MakeSct(LogA, 1000, Valid, Embedded, 1, 0),
     MakeSct(LogB, timestamp, ValidFromDisqualifiedLog, Embedded, 2, disqualifiedAt)]
  }

  lemma WindowQualified(timestamp: Uint64, disqualifiedAt: Uint64)
    requires 1000 < disqualifiedAt && timestamp < disqualifiedAt
    ensures PolicyVerdict(WindowScts(timestamp, disqualifiedAt), 12, []) == Compliant
  {
    var x := MakeSct(LogA, 1000, Valid, Embedded, 1, 0);
    var y := MakeSct(LogB, timestamp, ValidFromDisqualifiedLog, Embedded, 2, disqualifiedAt);
    assert WindowScts(timestamp, disqualifiedAt) == [x, y];
    PairIssuanceTime(x, y);
    PairLogIds(x, y, SelectQualifiedEmbedded(1000));
    PairOperatorIds(x, y, [], SelectQualified(1000));
    assert LogA != LogB by { assert LogA[0] != LogB[0]; }
  }

  lemma WindowNotQualified(timestamp: Uint64, disqualifiedAt: Uint64)
    requires !(1000 < disqualifiedAt && timestamp < disqualifiedAt)
    ensures PolicyVerdict(WindowScts(timestamp, disqualifiedAt), 12, []) == NotEnoughScts
  {
    var x := MakeSct(LogA, 1000, Valid, Embedded, 1, 0);
    var y := MakeSct(LogB, timestamp, ValidFromDisqualifiedLog, Embedded, 2, disqualifiedAt);
    assert WindowScts(timestamp, disqualifiedAt) == [x, y];
    PairIssuanceTime(x, y);
    assert !SelectQualifiedEmbedded(1000)(y);
    SelectedLogIdsSnoc([x], y, SelectQualifiedEmbedded(1000));
    SelectedLogIdsSnoc([], x, SelectQualifiedEmbedded(1000));
    assert [x, y] == [x] + [y];
    assert [x] == [] + [x];
    assert SelectedLogIds([x, y], SelectQualifiedEmbedded(1000)) == {LogA};
    assert !HasValidNonEmbedded([x, y]);
  }

  /** The disqualified log's SCT counts exactly when both the issuance time
      (1000) and its own timestamp come strictly before the disqualification:
      either edge of the window flips the verdict. */
  lemma DisqualificationWindow(timestamp: Uint64, disqualifiedAt: Uint64)
    ensures PolicyVerdict(WindowScts(timestamp, disqualifiedAt), 12, []) ==
            if 1000 < disqualifiedAt && timestamp < disqualifiedAt then Compliant else NotEnoughScts
  {
    if 1000 < disqualifiedAt && timestamp < disqualifiedAt {
      WindowQualified(timestamp, disqualifiedAt);
    } else {
      WindowNotQualified(timestamp, disqualifiedAt);
    }
  }

  lemma DisqualificationWindowEdges()
    ensures PolicyVerdict(WindowScts(900, 1001), 12, []) == Compliant
    ensures PolicyVerdict(WindowScts(900, 1000), 12, []) == NotEnoughScts
    ensures PolicyVerdict(WindowScts(1500, 1501), 12, []) == Compliant
    ensures PolicyVerdict(WindowScts(1500, 1500), 12, []) == NotEnoughScts
  {
    DisqualificationWindow(900, 1001);
    DisqualificationWindow(900, 1000);
    DisqualificationWindow(1500, 1501);
    DisqualificationWindow(1500, 1500);
  }
}
