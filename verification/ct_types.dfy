/**
 * Data model of the Certificate Transparency policy enforcer: the verified
 * SCT records it is given and the verdict it returns.
 */
module CtTypes {

  /** The largest `uint64_t`; also the "no valid SCT" issuance time. */
  const UINT64_MAX: int := 0xFFFF_FFFF_FFFF_FFFF

  /** The largest `size_t` (64-bit platforms). */
  const SIZE_MAX: int := 0xFFFF_FFFF_FFFF_FFFF

  type Uint64 = x: int | 0 <= x <= UINT64_MAX

  type SizeT = x: int | 0 <= x <= SIZE_MAX

  /** A log identifier is a byte buffer, compared by content. */
  type LogId = seq<bv8>

  type LogOperatorId = nat

  /** The verifier's classification of an SCT. Every status other than the
      two the policy distinguishes is folded into `Invalid`. */
  datatype Status = Valid | ValidFromDisqualifiedLog | Invalid

  /** The three delivery methods of section 3.3 of RFC 6962. */
  datatype Origin = Embedded | TLSExtension | OCSPResponse

  /** The parts of a signed certificate timestamp the policy reads. */
  datatype SignedCertificateTimestamp = SignedCertificateTimestamp(logId: LogId, timestamp: Uint64)

  /** An SCT after signature verification, with the facts the verifier
      attached to it. `logDisqualificationTime` only matters when the status
      is `ValidFromDisqualifiedLog`. */
  datatype VerifiedSct = VerifiedSct(
    sct: SignedCertificateTimestamp,
    status: Status,
    origin: Origin,
    logOperatorId: LogOperatorId,
    logDisqualificationTime: Uint64)

  /** The verdict; `Unknown` is the uninitialised value only. */
  datatype CtPolicyCompliance = Unknown | Compliant | NotEnoughScts | NotDiverseScts
}
