/** The `SoftwareAuthorization` entity: one device's licence record, its
    status predicates, the status scopes, the any-field device match and the
    authorization-period check through the linked code. */
module SoftwareAuthorizations {
  import opened Common
  import opened AuthorizationCodes

  /** The `status` enum column. */
  datatype Status = Pending | Approved | Rejected

  /** The device identity: BIOS UUID, motherboard serial, CPU id. */
  datatype Fingerprint = Fingerprint(biosUuid: string, motherboardSerial: string, cpuId: string)

  /** One row of `software_authorizations` (the dropped `start_time` and
      `end_time` columns are gone; the window lives on the linked code). */
  datatype Auth = Auth(
    id: nat,
    softwareName: string,
    softwareVersion: string,
    osVersion: string,
    device: Fingerprint,
    requestIp: string,
    lastAccessIp: Option<string>,
    status: Status,
    authorizedAt: Option<Time>,
    notes: Option<string>,
    codeId: Option<nat>)

  predicate IsPending(a: Auth) { a.status == Pending }
  predicate IsApproved(a: Auth) { a.status == Approved }
  predicate IsRejected(a: Auth) { a.status == Rejected }

  /** Every stored status satisfies exactly one of the three predicates. */
  lemma ExactlyOneStatus(a: Auth)
    ensures IsPending(a) || IsApproved(a) || IsRejected(a)
    ensures !(IsPending(a) && IsApproved(a))
    ensures !(IsPending(a) && IsRejected(a))
    ensures !(IsApproved(a) && IsRejected(a))
  {
  }

  /** `scopeApproved`, `scopePending`, `scopeRejected`: `where('status', s)`. */
  function WithStatus(auths: seq<Auth>, s: Status): (r: seq<Auth>)
    ensures forall a :: a in r <==> a in auths && a.status == s
  {
    Filter(auths, (a: Auth) => a.status == s)
  }

  /** A scope keeps the table order: scoping a concatenation scopes each part. */
  lemma WithStatusKeepsOrder(xs: seq<Auth>, ys: seq<Auth>, s: Status)
    ensures WithStatus(xs + ys, s) == WithStatus(xs, s) + WithStatus(ys, s)
  {
    FilterConcat(xs, ys, (a: Auth) => a.status == s);
  }

  /** The three scopes split the table: every record is in exactly one. */
  lemma {:induction false} ScopesPartition(auths: seq<Auth>)
    ensures |WithStatus(auths, Pending)| + |WithStatus(auths, Approved)| + |WithStatus(auths, Rejected)| == |auths|
  {
    if |auths| > 0 {
      ScopesPartition(auths[1..]);
    }
  }

  /** `matchesDevice`: at least one of the three stored fields is equal. */
  predicate MatchesDevice(a: Auth, fp: Fingerprint) {
    || a.device.biosUuid == fp.biosUuid
    || a.device.motherboardSerial == fp.motherboardSerial
    || a.device.cpuId == fp.cpuId
  }

  /** An exact match is a special case of the partial match. */
  lemma ExactImpliesMatches(a: Auth, fp: Fingerprint)
    requires a.device == fp
    ensures MatchesDevice(a, fp)
  {
  }

  /** `isWithinAuthorizationPeriod()`: the linked code, if any row has that
      key, decides; a record without one is always outside its period. */
  function IsWithinAuthorizationPeriod(a: Auth, codes: seq<Code>, now: Time): (r: bool)
    ensures a.codeId.None? ==> !r
    ensures r ==> a.codeId.value in CodeIds(codes)
  {
    match a.codeId
    case None => false
    case Some(k) =>
      match CodeIndex(codes, k)
      case None => false
      case Some(j) => IsValid(codes[j], now)
  }

  /** With a linked code present, the period check is that code's validity. */
  lemma PeriodIsLinkedValidity(a: Auth, codes: seq<Code>, j: nat, now: Time)
    requires IdsIncreasing(codes) && j < |codes| && a.codeId == Some(codes[j].id)
    ensures IsWithinAuthorizationPeriod(a, codes, now) == IsValid(codes[j], now)
  {
    CodeIndexAt(codes, j);
  }

  /** The exact-match query `where(bios)->where(board)->where(cpu)->first()`. */
  function FirstExact(auths: seq<Auth>, fp: Fingerprint): (r: Option<nat>)
    ensures r.Some? ==> r.value < |auths| && auths[r.value].device == fp
    ensures r.Some? ==> forall j :: 0 <= j < r.value ==> auths[j].device != fp
    ensures r.None? <==> forall j :: 0 <= j < |auths| ==> auths[j].device != fp
  {
    FirstIndex(auths, (a: Auth) => a.device == fp)
  }

  /** The partial-match query `approved()->where(bios or board or cpu)->first()`. */
  function FirstPartial(auths: seq<Auth>, fp: Fingerprint): (r: Option<nat>)
    ensures r.Some? ==> r.value < |auths| && auths[r.value].status == Approved && MatchesDevice(auths[r.value], fp)
    ensures r.Some? ==> forall j :: 0 <= j < r.value ==> !(auths[j].status == Approved && MatchesDevice(auths[j], fp))
    ensures r.None? <==> forall j :: 0 <= j < |auths| ==> !(auths[j].status == Approved && MatchesDevice(auths[j], fp))
  {
    FirstIndex(auths, (a: Auth) => a.status == Approved && MatchesDevice(a, fp))
  }

  /** The partial match is the first device match within the approved scope. */
  lemma PartialIsFirstApprovedMatch(auths: seq<Auth>, fp: Fingerprint)
    ensures FirstOf(WithStatus(auths, Approved), (a: Auth) => MatchesDevice(a, fp)) ==
      match FirstPartial(auths, fp) case None => None case Some(k) => Some(auths[k])
  {
    FirstOfFilter(auths, (a: Auth) => a.status == Approved, (a: Auth) => MatchesDevice(a, fp),
      (a: Auth) => a.status == Approved && MatchesDevice(a, fp));
  }
}
