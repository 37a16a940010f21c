/** What successive requests see: the decision one call leaves for the next.
    Each lemma takes the tables an endpoint left behind and states the
    decision the next request for the same device receives. */
module DecisionProperties {
  import opened Common
  import opened AuthorizationCodes
  import opened SoftwareAuthorizations
  import opened SoftwareAuthorizationController

  /** Tables that agree on every fingerprint have the same first exact match. */
  lemma ExactAgree(auths: seq<Auth>, s: seq<Auth>, fp: Fingerprint)
    requires |s| == |auths| && forall k :: 0 <= k < |s| ==> s[k].device == auths[k].device
    ensures FirstExact(s, fp) == FirstExact(auths, fp)
  {
  }

  /** Tables that agree on every fingerprint and status have the same first
      partial match. */
  lemma PartialAgree(auths: seq<Auth>, s: seq<Auth>, fp: Fingerprint)
    requires |s| == |auths|
    requires forall k :: 0 <= k < |s| ==> s[k].device == auths[k].device && s[k].status == auths[k].status
    ensures FirstPartial(s, fp) == FirstPartial(auths, fp)
  {
  }

  /** Replacing a record by one with the same code link keeps every record's
      period. */
  lemma PeriodsAgree(auths: seq<Auth>, codes: seq<Code>, i: nat, a: Auth, now: Time)
    requires i < |auths| && a.codeId == auths[i].codeId
    ensures forall k :: 0 <= k < |auths| ==>
      IsWithinAuthorizationPeriod(auths[i := a][k], codes, now) == IsWithinAuthorizationPeriod(auths[k], codes, now)
  {
    forall k | 0 <= k < |auths|
      ensures IsWithinAuthorizationPeriod(auths[i := a][k], codes, now) == IsWithinAuthorizationPeriod(auths[k], codes, now)
    {
      if k != i {
        assert auths[i := a][k] == auths[k];
      }
    }
  }

  /** Replacing record `i` by one with the same fingerprint, status and code
      link changes no decision of the public endpoint. */
  lemma SameKeyFieldsSameDecision(auths: seq<Auth>, codes: seq<Code>, i: nat, a: Auth, fp: Fingerprint, now: Time)
    requires i < |auths|
    requires a.device == auths[i].device && a.status == auths[i].status && a.codeId == auths[i].codeId
    ensures Decide(auths[i := a], codes, fp, now) == Decide(auths, codes, fp, now)
  {
    var s := auths[i := a];
    ExactAgree(auths, s, fp);
    PartialAgree(auths, s, fp);
    PeriodsAgree(auths, codes, i, a, now);
  }

  /** The same for the bearer endpoint. */
  lemma SameKeyFieldsSameDecisionWithCode(auths: seq<Auth>, codes: seq<Code>, i: nat, a: Auth, fp: Fingerprint, now: Time)
    requires i < |auths|
    requires a.device == auths[i].device && a.status == auths[i].status && a.codeId == auths[i].codeId
    ensures DecideWithCode(auths[i := a], codes, fp, now) == DecideWithCode(auths, codes, fp, now)
  {
    var s := auths[i := a];
    ExactAgree(auths, s, fp);
    PartialAgree(auths, s, fp);
    PeriodsAgree(auths, codes, i, a, now);
  }

  /** Repeating a request after an access check gets the same decision: the
      check only writes `last_access_ip` and the log. */
  lemma RepeatCheckSameDecision(auths: seq<Auth>, codes: seq<Code>, i: nat, ip: string, fp: Fingerprint, now: Time)
    requires i < |auths|
    ensures Decide(auths[i := Touched(auths[i], ip)], codes, fp, now) == Decide(auths, codes, fp, now)
    ensures DecideWithCode(auths[i := Touched(auths[i], ip)], codes, fp, now) == DecideWithCode(auths, codes, fp, now)
  {
    SameKeyFieldsSameDecision(auths, codes, i, Touched(auths[i], ip), fp, now);
    SameKeyFieldsSameDecisionWithCode(auths, codes, i, Touched(auths[i], ip), fp, now);
  }

  /** After a rebinding, the same device is an exact match of the rebound
      record, granted whenever that record's code is valid. */
  lemma RebindThenExact(auths: seq<Auth>, codes: seq<Code>, req: Request, ip: string, now: Time, later: Time)
    requires Decide(auths, codes, req.device, now).PartialRebind?
    ensures var i := Decide(auths, codes, req.device, now).index;
            var s := auths[i := Rebound(auths[i], req, ip)];
            && Decide(s, codes, req.device, later) == ExactApproved(i, IsWithinAuthorizationPeriod(auths[i], codes, later))
            && Decide(s, codes, req.device, now) == ExactApproved(i, true)
  {
    var i := Decide(auths, codes, req.device, now).index;
    var s := auths[i := Rebound(auths[i], req, ip)];
    assert IsFirstExact(s, req.device, i);
    var d := Decide(s, codes, req.device, later);
    assert d.index == i;
  }

  /** A submitted request is pending from then on, and the bearer endpoint,
      which passes over pending exact matches, does not see it. */
  lemma SubmittedThenPending(auths: seq<Auth>, codes: seq<Code>, req: Request, ip: string, id: nat, now: Time, later: Time)
    requires Decide(auths, codes, req.device, now) == NoMatch
    ensures var s := auths + [NewPending(id, req, ip)];
            && Decide(s, codes, req.device, later) == ExactPending(|auths|)
            && DecideWithCode(s, codes, req.device, later) == NoMatch
  {
    var s := auths + [NewPending(id, req, ip)];
    assert IsFirstExact(s, req.device, |auths|);
    assert Decide(s, codes, req.device, later).index == |auths|;
    assert NoPartial(s, req.device);
  }

  /** A record the bearer endpoint created behind a pending or rejected exact
      match is invisible to the public endpoint, which keeps answering from
      the older record, while the bearer endpoint reaches it only as a partial
      match and logs an `update` with identical before and after. */
  lemma ShadowedCodeRecord(auths: seq<Auth>, codes: seq<Code>, req: Request, ip: string, id: nat,
                           codeId: nat, notes: Option<string>, now: Time, later: Time)
    requires DecideWithCode(auths, codes, req.device, now) == NoMatch
    requires !NoExact(auths, req.device)
    ensures var a := NewApproved(id, req, ip, now, Some(codeId), notes);
            var s := auths + [a];
            && Decide(s, codes, req.device, later) == Decide(auths, codes, req.device, later)
            && (Decide(s, codes, req.device, later).ExactPending? || Decide(s, codes, req.device, later).ExactRejected?)
            && DecideWithCode(s, codes, req.device, later) ==
                 (if IsWithinAuthorizationPeriod(a, codes, later) then PartialRebind(|auths|) else PartialExpired(|auths|))
  {
    var a := NewApproved(id, req, ip, now, Some(codeId), notes);
    var s := auths + [a];
    var i := FirstExact(auths, req.device).value;
    assert IsFirstExact(auths, req.device, i);
    assert IsFirstExact(s, req.device, i);
    var d0, d1 := Decide(auths, codes, req.device, later), Decide(s, codes, req.device, later);
    assert d0.index == i && d1.index == i;
    assert s[i] == auths[i];
    assert IsFirstPartial(s, req.device, |auths|);
    var w := DecideWithCode(s, codes, req.device, later);
    assert (w.PartialRebind? || w.PartialExpired?) ==> w.index == |auths|;
  }

  /** After `approve`, the record's own device is granted exactly when the
      chosen code is valid. */
  lemma ApproveThenAuthorized(auths: seq<Auth>, codes: seq<Code>, i: nat, j: nat, notes: Option<string>, now: Time, later: Time)
    requires i < |auths| && IsFirstExact(auths, auths[i].device, i)
    requires IdsIncreasing(codes) && j < |codes|
    ensures Decide(auths[i := ApprovedWith(auths[i], codes[j].id, notes, now)], codes, auths[i].device, later) ==
              ExactApproved(i, IsValid(codes[j], later))
  {
    var s := auths[i := ApprovedWith(auths[i], codes[j].id, notes, now)];
    assert IsFirstExact(s, auths[i].device, i);
    assert Decide(s, codes, auths[i].device, later).index == i;
    PeriodIsLinkedValidity(s[i], codes, j, later);
  }

  /** After `reject`, the record's own device is refused on the public
      endpoint, whatever its code. */
  lemma RejectThenRefused(auths: seq<Auth>, codes: seq<Code>, i: nat, notes: Option<string>, later: Time)
    requires i < |auths| && IsFirstExact(auths, auths[i].device, i)
    ensures Decide(auths[i := RejectedWith(auths[i], notes)], codes, auths[i].device, later) == ExactRejected(i)
  {
    var s := auths[i := RejectedWith(auths[i], notes)];
    assert IsFirstExact(s, auths[i].device, i);
    assert Decide(s, codes, auths[i].device, later).index == i;
  }

  /** The record the bearer endpoint creates for an unseen device is that
      device's exact match from then on, granted while the presenting code is
      valid; recording the use does not change that. */
  lemma CreatedWithCodeThenExact(auths: seq<Auth>, codes: seq<Code>, j: nat, req: Request, ip: string, id: nat,
                                 now: Time, later: Time)
    requires IdsIncreasing(codes) && j < |codes| && NoExact(auths, req.device)
    ensures var s := auths + [NewApproved(id, req, ip, now, Some(codes[j].id), codes[j].notes)];
            var cs := codes[j := WithUsage(codes[j], now)];
            && Decide(s, cs, req.device, later) == ExactApproved(|auths|, IsValid(codes[j], later))
            && DecideWithCode(s, cs, req.device, later) == ExactApproved(|auths|, IsValid(codes[j], later))
  {
    var s := auths + [NewApproved(id, req, ip, now, Some(codes[j].id), codes[j].notes)];
    var cs := codes[j := WithUsage(codes[j], now)];
    assert IsFirstExact(s, req.device, |auths|);
    assert Decide(s, cs, req.device, later).index == |auths|;
    assert DecideWithCode(s, cs, req.device, later).index == |auths|;
    assert IdsIncreasing(cs);
    PeriodIsLinkedValidity(s[|auths|], cs, j, later);
    UsageKeepsValidity(codes[j], now, later);
  }
}
