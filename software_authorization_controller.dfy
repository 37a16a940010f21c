/** `SoftwareAuthorizationController`: the per-request licence decision
    (`authorize`, `authorizeWithCode`), the administrator transitions
    (`approve`, `reject`, `update`, `destroy`) and the audit-log query. */
module SoftwareAuthorizationController {
  import opened Common
  import opened AuthorizationCodes
  import opened SoftwareAuthorizations
  import opened AccessLogs
  import opened Database

  /** The JSON body of the two authorize endpoints. */
  datatype Request = Request(
    softwareName: string,
    softwareVersion: string,
    osVersion: string,
    device: Fingerprint)

  /** `required|string|max:n`. */
  predicate Present(s: string, max: nat) {
    0 < |s| <= max
  }

  predicate WellFormed(r: Request) {
    && Present(r.softwareName, 255)
    && Present(r.softwareVersion, 50)
    && Present(r.osVersion, 100)
    && Present(r.device.biosUuid, 255)
    && Present(r.device.motherboardSerial, 255)
    && Present(r.device.cpuId, 255)
  }

  /** The `status` field of a decision response; `Expired` is derived, never stored. */
  datatype Verdict = Granted | Expired | Refused | Waiting

  /** The HTTP status, the `success` flag and the `status` field (messages are
      not modelled). */
  datatype Response = Response(http: int, success: bool, verdict: Option<Verdict>)

  /** A 200 decision response; only an approval is a success. */
  function Answer(v: Verdict): Response {
    Response(200, v == Granted, Some(v))
  }

  /** 202: a new request has been filed and awaits review. */
  const Submitted: Response := Response(202, false, Some(Waiting))
  /** 422: the validator refused the body. */
  const ValidationFailed: Response := Response(422, false, None)
  /** 401: no resolved authorization code reached the controller. */
  const Unauthorized: Response := Response(401, false, None)

  // ---------------------------------------------------------------------------
  // The matcher

  /** `i` is the record the exact-match query returns. */
  predicate IsFirstExact(auths: seq<Auth>, fp: Fingerprint, i: nat) {
    i < |auths| && auths[i].device == fp && forall j :: 0 <= j < i ==> auths[j].device != fp
  }

  predicate NoExact(auths: seq<Auth>, fp: Fingerprint) {
    forall j :: 0 <= j < |auths| ==> auths[j].device != fp
  }

  /** `i` is the record the partial-match query returns: the first approved
      record sharing at least one fingerprint field. */
  predicate IsFirstPartial(auths: seq<Auth>, fp: Fingerprint, i: nat) {
    && i < |auths| && auths[i].status == Approved && MatchesDevice(auths[i], fp)
    && forall j :: 0 <= j < i ==> !(auths[j].status == Approved && MatchesDevice(auths[j], fp))
  }

  predicate NoPartial(auths: seq<Auth>, fp: Fingerprint) {
    forall j :: 0 <= j < |auths| ==> !(auths[j].status == Approved && MatchesDevice(auths[j], fp))
  }

  /** Which branch of the controller a request takes, and on which record. */
  datatype Decision =
    | ExactApproved(index: nat, inPeriod: bool)
    | ExactRejected(index: nat)
    | ExactPending(index: nat)
    | PartialExpired(index: nat)
    | PartialRebind(index: nat)
    | NoMatch

  /** `authorize`'s branch: exact match first (its status decides), then the
      partial match among approved records, then a new record. */
  function Decide(auths: seq<Auth>, codes: seq<Code>, fp: Fingerprint, now: Time): (d: Decision)
    ensures (d.ExactApproved? || d.ExactRejected? || d.ExactPending?) ==> IsFirstExact(auths, fp, d.index)
    ensures d.ExactApproved? ==>
              auths[d.index].status == Approved && d.inPeriod == IsWithinAuthorizationPeriod(auths[d.index], codes, now)
    ensures d.ExactRejected? ==> auths[d.index].status == Rejected
    ensures d.ExactPending? ==> auths[d.index].status == Pending
    ensures (d.PartialExpired? || d.PartialRebind?) ==> NoExact(auths, fp) && IsFirstPartial(auths, fp, d.index)
    ensures d.PartialExpired? ==> !IsWithinAuthorizationPeriod(auths[d.index], codes, now)
    ensures d.PartialRebind? ==> IsWithinAuthorizationPeriod(auths[d.index], codes, now)
    ensures d.NoMatch? <==> NoExact(auths, fp) && NoPartial(auths, fp)
  {
    match FirstExact(auths, fp)
    case Some(i) =>
      (match auths[i].status
       case Approved => ExactApproved(i, IsWithinAuthorizationPeriod(auths[i], codes, now))
       case Rejected => ExactRejected(i)
       case Pending => ExactPending(i))
    case None =>
      match FirstPartial(auths, fp)
      case Some(i) =>
        if IsWithinAuthorizationPeriod(auths[i], codes, now) then PartialRebind(i) else PartialExpired(i)
      case None => NoMatch
  }

  /** The first exact match, if there is one, is not approved. */
  predicate ExactNotApproved(auths: seq<Auth>, fp: Fingerprint) {
    forall i :: 0 <= i < |auths| && IsFirstExact(auths, fp, i) ==> auths[i].status != Approved
  }

  /** `authorizeWithCode`'s branch: only an approved exact match is used; a
      pending or rejected one is passed over. */
  function DecideWithCode(auths: seq<Auth>, codes: seq<Code>, fp: Fingerprint, now: Time): (d: Decision)
    ensures !d.ExactRejected? && !d.ExactPending?
    ensures d.ExactApproved? ==>
              && IsFirstExact(auths, fp, d.index) && auths[d.index].status == Approved
              && d.inPeriod == IsWithinAuthorizationPeriod(auths[d.index], codes, now)
    ensures (d.PartialExpired? || d.PartialRebind?) ==> ExactNotApproved(auths, fp) && IsFirstPartial(auths, fp, d.index)
    ensures d.PartialExpired? ==> !IsWithinAuthorizationPeriod(auths[d.index], codes, now)
    ensures d.PartialRebind? ==> IsWithinAuthorizationPeriod(auths[d.index], codes, now)
    ensures d.NoMatch? <==> ExactNotApproved(auths, fp) && NoPartial(auths, fp)
  {
    var exact := FirstExact(auths, fp);
    if exact.Some? && auths[exact.value].status == Approved then
      ExactApproved(exact.value, IsWithinAuthorizationPeriod(auths[exact.value], codes, now))
    else
      match FirstPartial(auths, fp)
      case Some(i) =>
        if IsWithinAuthorizationPeriod(auths[i], codes, now) then PartialRebind(i) else PartialExpired(i)
      case None => NoMatch
  }

  // ---------------------------------------------------------------------------
  // Record updates and the effect of each branch

  /** `update(['last_access_ip' => $ip])`. */
  function Touched(a: Auth, ip: string): Auth {
    a.(lastAccessIp := Some(ip))
  }

  /** The partial-match overwrite: the incoming fingerprint and software
      metadata, and the access IP; key, status, code link and notes stay. */
  function Rebound(a: Auth, req: Request, ip: string): Auth {
    a.(device := req.device, softwareName := req.softwareName, softwareVersion := req.softwareVersion,
       osVersion := req.osVersion, lastAccessIp := Some(ip))
  }

  /** The row `authorize` files for an unseen device. */
  function NewPending(id: nat, req: Request, ip: string): Auth {
    Auth(id, req.softwareName, req.softwareVersion, req.osVersion, req.device, ip, None, Pending, None, None, None)
  }

  /** A pre-approved row, as `authorizeWithCode` and `validate` create it. */
  function NewApproved(id: nat, req: Request, ip: string, now: Time, codeId: Option<nat>, notes: Option<string>): Auth {
    Auth(id, req.softwareName, req.softwareVersion, req.osVersion, req.device, ip, None, Approved, Some(now), notes, codeId)
  }

  /** Row `i` replaced by `a`, then one log row for it; nothing else changes. */
  predicate ChangedAndLogged(t0: Tables, t1: Tables, i: nat, a: Auth, e: Entry, ip: string, expired: bool, now: Time) {
    && i < |t0.auths|
    && t1 == t0.(auths := t0.auths[i := a],
                 logs := t0.logs + [Log(t0.nextLogId, t0.auths[i].id, e, ip, expired, now)],
                 nextLogId := t0.nextLogId + 1)
  }

  /** An access check on record `i`: its `last_access_ip` set and one `check`
      row logged with the given expiry flag. */
  predicate Checked(t0: Tables, t1: Tables, i: nat, expired: bool, ip: string, now: Time) {
    i < |t0.auths| && ChangedAndLogged(t0, t1, i, Touched(t0.auths[i], ip), Check, ip, expired, now)
  }

  /** A device rebinding of record `i`: the overwrite, and one `update` row whose
      snapshot is the old and the new fingerprint. */
  predicate Rebinds(t0: Tables, t1: Tables, i: nat, req: Request, ip: string, now: Time) {
    && i < |t0.auths|
    && ChangedAndLogged(t0, t1, i, Rebound(t0.auths[i], req, ip), Update(t0.auths[i].device, req.device), ip, false, now)
  }

  /** One row appended to `software_authorizations` under the next key. */
  predicate Appended(t0: Tables, t1: Tables, a: Auth) {
    && a.id == t0.nextAuthId
    && t1 == t0.(auths := t0.auths + [a], nextAuthId := t0.nextAuthId + 1)
  }

  /** `$auth->update([...])` then `$auth->accessLogs()->create([...])`. */
  method ReplaceAndLog(db: Store, i: nat, a: Auth, e: Entry, ip: string, expired: bool, now: Time)
    requires db.Valid() && i < |db.auths| && a.id == db.auths[i].id
    requires a.codeId.Some? ==> a.codeId.value in CodeIds(db.codes)
    modifies db
    ensures db.Valid()
    ensures ChangedAndLogged(old(db.Snapshot()), db.Snapshot(), i, a, e, ip, expired, now)
  {
    db.ReplaceAuth(i, a);
    assert db.auths[i].id == a.id;
    db.AppendLog(a.id, e, ip, expired, now);
  }

  // ---------------------------------------------------------------------------
  // The branches, shared by both authorize endpoints

  /** The approved-exact-match branch: `last_access_ip` first, then the window
      check, then one `check` row. */
  method CheckExact(db: Store, i: nat, ip: string, now: Time) returns (resp: Response)
    requires db.Valid() && i < |db.auths|
    modifies db
    ensures db.Valid()
    ensures var inPeriod := IsWithinAuthorizationPeriod(old(db.auths)[i], old(db.codes), now);
            && Checked(old(db.Snapshot()), db.Snapshot(), i, !inPeriod, ip, now)
            && resp == Answer(if inPeriod then Granted else Expired)
  {
    var inPeriod := IsWithinAuthorizationPeriod(Touched(db.auths[i], ip), db.codes, now);
    ReplaceAndLog(db, i, Touched(db.auths[i], ip), Check, ip, !inPeriod, now);
    resp := Answer(if inPeriod then Granted else Expired);
  }

  /** The partial match outside its window: the window check first, then
      `last_access_ip`, then one expired `check` row; no overwrite. */
  method CheckPartialExpired(db: Store, i: nat, ip: string, now: Time) returns (resp: Response)
    requires db.Valid() && i < |db.auths|
    modifies db
    ensures db.Valid()
    ensures Checked(old(db.Snapshot()), db.Snapshot(), i, true, ip, now)
    ensures resp == Answer(Expired)
  {
    ReplaceAndLog(db, i, Touched(db.auths[i], ip), Check, ip, true, now);
    resp := Answer(Expired);
  }

  /** The partial match inside its window: the old fingerprint is recorded,
      the row overwritten, one `update` row logged. */
  method Rebind(db: Store, i: nat, req: Request, ip: string, now: Time) returns (resp: Response)
    requires db.Valid() && i < |db.auths|
    modifies db
    ensures db.Valid()
    ensures Rebinds(old(db.Snapshot()), db.Snapshot(), i, req, ip, now)
    ensures resp == Answer(Granted)
  {
    ReplaceAndLog(db, i, Rebound(db.auths[i], req, ip), Update(db.auths[i].device, req.device), ip, false, now);
    resp := Answer(Granted);
  }

  // ---------------------------------------------------------------------------
  // The endpoints

  /** `authorize`: the public licence check. */
  method Authorize(db: Store, req: Request, ip: string, now: Time) returns (resp: Response)
    requires db.Valid()
    modifies db
    ensures db.Valid()
    ensures !WellFormed(req) ==> resp == ValidationFailed && db.Snapshot() == old(db.Snapshot())
    ensures WellFormed(req) ==>
      var t0, t1 := old(db.Snapshot()), db.Snapshot();
      match Decide(t0.auths, t0.codes, req.device, now)
      case ExactApproved(i, inPeriod) =>
        Checked(t0, t1, i, !inPeriod, ip, now) && resp == Answer(if inPeriod then Granted else Expired)
      case ExactRejected(_) => t1 == t0 && resp == Answer(Refused)
      case ExactPending(_) => t1 == t0 && resp == Answer(Waiting)
      case PartialExpired(i) => Checked(t0, t1, i, true, ip, now) && resp == Answer(Expired)
      case PartialRebind(i) => Rebinds(t0, t1, i, req, ip, now) && resp == Answer(Granted)
      case NoMatch => Appended(t0, t1, NewPending(t0.nextAuthId, req, ip)) && resp == Submitted
  {
    if !WellFormed(req) {
      return ValidationFailed;
    }
    match Decide(db.auths, db.codes, req.device, now)
    case ExactApproved(i, _) =>
      resp := CheckExact(db, i, ip, now);
    case ExactRejected(_) =>
      resp := Answer(Refused);
    case ExactPending(_) =>
      resp := Answer(Waiting);
    case PartialExpired(i) =>
      resp := CheckPartialExpired(db, i, ip, now);
    case PartialRebind(i) =>
      resp := Rebind(db, i, req, ip, now);
    case NoMatch =>
      db.AppendAuth(NewPending(db.nextAuthId, req, ip));
      resp := Submitted;
  }

  /** What `authorizeWithCode` does for a well-formed request carrying `code`:
      the branch `DecideWithCode` picks, with creation the only path that
      records a use of the code. */
  predicate WithCodeOutcome(t0: Tables, t1: Tables, code: Code, req: Request, ip: string, now: Time, resp: Response) {
    match DecideWithCode(t0.auths, t0.codes, req.device, now)
    case ExactApproved(i, inPeriod) =>
      Checked(t0, t1, i, !inPeriod, ip, now) && resp == Answer(if inPeriod then Granted else Expired)
    case PartialExpired(i) => Checked(t0, t1, i, true, ip, now) && resp == Answer(Expired)
    case PartialRebind(i) => Rebinds(t0, t1, i, req, ip, now) && resp == Answer(Granted)
    case NoMatch =>
      && CodeIndex(t0.codes, code.id).Some?
      && Appended(t0, t1.(codes := t0.codes), NewApproved(t0.nextAuthId, req, ip, now, Some(code.id), code.notes))
      && (var j := CodeIndex(t0.codes, code.id).value; t1.codes == t0.codes[j := WithUsage(t0.codes[j], now)])
      && resp == Answer(Granted)
    case _ => false
  }

  /** The creation branch of `authorizeWithCode`: a pre-approved record linked
      to code `j`, carrying its notes, then one recorded use of the code. */
  method CreateWithCode(db: Store, j: nat, req: Request, ip: string, now: Time)
    requires db.Valid() && j < |db.codes|
    modifies db
    ensures db.Valid()
    ensures var t0, t1, c := old(db.Snapshot()), db.Snapshot(), old(db.codes)[j];
            && CodeIndex(t0.codes, c.id) == Some(j)
            && Appended(t0, t1.(codes := t0.codes), NewApproved(t0.nextAuthId, req, ip, now, Some(c.id), c.notes))
            && t1.codes == t0.codes[j := WithUsage(c, now)]
  {
    CodeIndexAt(db.codes, j);
    var c := db.codes[j];
    db.AppendAuth(NewApproved(db.nextAuthId, req, ip, now, Some(c.id), c.notes));
    db.RecordUsage(j, now);
  }

  /** `authorizeWithCode`: the bearer-token endpoint.  `authCode` is the code
      the token middleware attached to the request, if any. */
  method AuthorizeWithCode(db: Store, authCode: Option<Code>, req: Request, ip: string, now: Time)
    returns (resp: Response)
    requires db.Valid()
    requires authCode.Some? ==> authCode.value in db.codes
    modifies db
    ensures db.Valid()
    ensures resp.verdict.Some? ==> resp.verdict.value == Granted || resp.verdict.value == Expired
    ensures (!WellFormed(req) || authCode.None?) ==> db.Snapshot() == old(db.Snapshot())
    ensures !WellFormed(req) ==> resp == ValidationFailed
    ensures WellFormed(req) && authCode.None? ==> resp == Unauthorized
    ensures WellFormed(req) && authCode.Some? ==>
              WithCodeOutcome(old(db.Snapshot()), db.Snapshot(), authCode.value, req, ip, now, resp)
  {
    if !WellFormed(req) {
      return ValidationFailed;
    }
    if authCode.None? {
      return Unauthorized;
    }
    var code := authCode.value;
    match DecideWithCode(db.auths, db.codes, req.device, now)
    case ExactApproved(i, _) =>
      resp := CheckExact(db, i, ip, now);
    case PartialExpired(i) =>
      resp := CheckPartialExpired(db, i, ip, now);
    case PartialRebind(i) =>
      resp := Rebind(db, i, req, ip, now);
    case NoMatch =>
      var j :| 0 <= j < |db.codes| && db.codes[j] == code;
      CreateWithCode(db, j, req, ip, now);
      resp := Answer(Granted);
  }

  // ---------------------------------------------------------------------------
  // The administrator transitions

  /** The outcome of an administrator form: 404 from route-model binding, 422
      from the validator, a 500 from a unique-index violation, or the redirect
      back with a success message. */
  datatype AdminOutcome = NotFound | Invalid | Conflict | Done

  /** One half of a `code_change` payload: the code's token, notes and window. */
  function Snap(c: Code): CodeSnapshot {
    CodeSnapshot(Some(c.code), c.notes, c.startTime, c.endTime)
  }

  /** The `before` half: read through `authorizationCode?->`, so all null when
      the record has no linked code. */
  function LinkedSnapshot(a: Auth, codes: seq<Code>): (s: CodeSnapshot)
    ensures a.codeId.None? ==> s == CodeSnapshot(None, None, None, None)
    ensures forall j :: 0 <= j < |codes| && IdsIncreasing(codes) && a.codeId == Some(codes[j].id) ==> s == Snap(codes[j])
  {
    match a.codeId
    case None => CodeSnapshot(None, None, None, None)
    case Some(k) =>
      match CodeIndex(codes, k)
      case None => CodeSnapshot(None, None, None, None)
      case Some(j) => Snap(codes[j])
  }

  /** `required|exists:authorization_codes,id`. */
  predicate CodeExists(codeId: Option<nat>, codes: seq<Code>) {
    codeId.Some? && codeId.value in CodeIds(codes)
  }

  /** Record `a` after `approve`. */
  function ApprovedWith(a: Auth, codeId: nat, notes: Option<string>, now: Time): Auth {
    a.(status := Approved, authorizedAt := Some(now), codeId := Some(codeId), notes := notes)
  }

  /** Record `a` after `reject`: status and notes; the code link and
      `authorized_at` stay. */
  function RejectedWith(a: Auth, notes: Option<string>): Auth {
    a.(status := Rejected, notes := notes)
  }

  /** The `code_change` row for moving record `a` onto the existing code `cid`. */
  function CodeChangeTo(a: Auth, codes: seq<Code>, cid: nat): Entry
    requires CodeIndex(codes, cid).Some?
  {
    CodeChange(LinkedSnapshot(a, codes), Snap(codes[CodeIndex(codes, cid).value]))
  }

  /** `approve`: any current status becomes approved, under the chosen code;
      a `code_change` row only when the linked code actually changes. */
  method Approve(db: Store, authId: nat, codeId: Option<nat>, notes: Option<string>, ip: string, now: Time)
    returns (out: AdminOutcome)
    requires db.Valid()
    modifies db
    ensures db.Valid()
    ensures AuthIndex(old(db.auths), authId).None? ==> out == NotFound && db.Snapshot() == old(db.Snapshot())
    ensures AuthIndex(old(db.auths), authId).Some? && !CodeExists(codeId, old(db.codes)) ==>
              out == Invalid && db.Snapshot() == old(db.Snapshot())
    ensures AuthIndex(old(db.auths), authId).Some? && CodeExists(codeId, old(db.codes)) ==>
      var t0, t1 := old(db.Snapshot()), db.Snapshot();
      var i, cid := AuthIndex(t0.auths, authId).value, codeId.value;
      && out == Done
      && CodeIndex(t0.codes, cid).Some?
      && (if t0.auths[i].codeId != Some(cid)
          then ChangedAndLogged(t0, t1, i, ApprovedWith(t0.auths[i], cid, notes, now),
                                CodeChangeTo(t0.auths[i], t0.codes, cid), ip, false, now)
          else t1 == t0.(auths := t0.auths[i := ApprovedWith(t0.auths[i], cid, notes, now)]))
  {
    var found := AuthIndex(db.auths, authId);
    if found.None? {
      return NotFound;
    }
    if !CodeExists(codeId, db.codes) {
      return Invalid;
    }
    var i, cid := found.value, codeId.value;
    var approved := ApprovedWith(db.auths[i], cid, notes, now);
    if db.auths[i].codeId != Some(cid) {
      ReplaceAndLog(db, i, approved, CodeChangeTo(db.auths[i], db.codes, cid), ip, false, now);
    } else {
      db.ReplaceAuth(i, approved);
    }
    out := Done;
  }

  /** `reject`: no validation, any current status becomes rejected. */
  method Reject(db: Store, authId: nat, notes: Option<string>) returns (out: AdminOutcome)
    requires db.Valid()
    modifies db
    ensures db.Valid()
    ensures AuthIndex(old(db.auths), authId).None? ==> out == NotFound && db.Snapshot() == old(db.Snapshot())
    ensures AuthIndex(old(db.auths), authId).Some? ==>
      var t0, i := old(db.Snapshot()), AuthIndex(old(db.auths), authId).value;
      out == Done && db.Snapshot() == t0.(auths := t0.auths[i := RejectedWith(t0.auths[i], notes)])
  {
    var found := AuthIndex(db.auths, authId);
    if found.None? {
      return NotFound;
    }
    db.ReplaceAuth(found.value, RejectedWith(db.auths[found.value], notes));
    out := Done;
  }

  /** `update`: relinks the record and always logs a `code_change`, even when
      the code is the one already linked. */
  method Relink(db: Store, authId: nat, codeId: Option<nat>, ip: string, now: Time) returns (out: AdminOutcome)
    requires db.Valid()
    modifies db
    ensures db.Valid()
    ensures AuthIndex(old(db.auths), authId).None? ==> out == NotFound && db.Snapshot() == old(db.Snapshot())
    ensures AuthIndex(old(db.auths), authId).Some? && !CodeExists(codeId, old(db.codes)) ==>
              out == Invalid && db.Snapshot() == old(db.Snapshot())
    ensures AuthIndex(old(db.auths), authId).Some? && CodeExists(codeId, old(db.codes)) ==>
      var t0, t1 := old(db.Snapshot()), db.Snapshot();
      var i, cid := AuthIndex(t0.auths, authId).value, codeId.value;
      && out == Done
      && CodeIndex(t0.codes, cid).Some?
      && ChangedAndLogged(t0, t1, i, t0.auths[i].(codeId := Some(cid)), CodeChangeTo(t0.auths[i], t0.codes, cid),
                          ip, false, now)
  {
    var found := AuthIndex(db.auths, authId);
    if found.None? {
      return NotFound;
    }
    if !CodeExists(codeId, db.codes) {
      return Invalid;
    }
    var i, cid := found.value, codeId.value;
    ReplaceAndLog(db, i, db.auths[i].(codeId := Some(cid)), CodeChangeTo(db.auths[i], db.codes, cid), ip, false, now);
    out := Done;
  }

  /** `destroy`: the record and, by the cascading foreign key, its logs. */
  method Destroy(db: Store, authId: nat) returns (out: AdminOutcome)
    requires db.Valid()
    modifies db
    ensures db.Valid()
    ensures AuthIndex(old(db.auths), authId).None? ==> out == NotFound && db.Snapshot() == old(db.Snapshot())
    ensures AuthIndex(old(db.auths), authId).Some? ==>
      var t0, i := old(db.Snapshot()), AuthIndex(old(db.auths), authId).value;
      && out == Done
      && db.Snapshot() == t0.(auths := t0.auths[..i] + t0.auths[i + 1..], logs := LogsWithout(t0.logs, authId))
  {
    var found := AuthIndex(db.auths, authId);
    if found.None? {
      return NotFound;
    }
    db.RemoveAuth(found.value);
    out := Done;
  }

  /** `accessLogs`: 404 for an unknown record, otherwise the query's page. */
  function AccessLogPage(t: Tables, authId: nat, q: LogQuery): (r: Option<LogPage>)
    ensures r.None? <==> authId !in AuthIds(t.auths)
    ensures r.Some? ==> forall l :: l in r.value.items ==> l in t.logs && l.authId == authId
    ensures r.Some? ==> r.value == Query(t.logs, t.auths[AuthIndex(t.auths, authId).value], q)
  {
    match AuthIndex(t.auths, authId)
    case None => None
    case Some(i) => Some(Query(t.logs, t.auths[i], q))
  }
}
