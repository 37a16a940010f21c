/** `ApiTokenMiddleware`: the bearer-token gate in front of
    `authorizeWithCode`.  Three early returns, in order, then the resolved
    code is attached to the request and the controller runs. */
module ApiTokenMiddleware {
  import opened Common
  import opened AuthorizationCodes
  import opened Database
  import opened SoftwareAuthorizationController

  /** The gate's decision: a refusal, or the code handed to the controller. */
  datatype Gate = MissingToken | UnknownToken | InvalidToken | Pass(code: Code)

  /** `!$token`: an absent token, and the PHP-falsy `""` and `"0"`. */
  predicate Missing(token: Option<string>) {
    token.None? || token.value == "" || token.value == "0"
  }

  /** The HTTP status of a refusal. */
  function Refusal(g: Gate): (r: Response)
    requires !g.Pass?
    ensures r.http == (if g.InvalidToken? then 403 else 401) && !r.success && r.verdict.None?
  {
    if g.InvalidToken? then Response(403, false, None) else Unauthorized
  }

  /** `handle`: missing token, then unknown token, then invalid code. */
  function Handle(token: Option<string>, codes: seq<Code>, now: Time): (g: Gate)
    ensures g.MissingToken? <==> Missing(token)
    ensures g.UnknownToken? <==> !Missing(token) && forall j :: 0 <= j < |codes| ==> codes[j].code != token.value
    ensures g.InvalidToken? <==>
              !Missing(token) && CodeByValue(codes, token.value).Some? && !IsValid(codes[CodeByValue(codes, token.value).value], now)
    ensures g.Pass? ==> !Missing(token) && g.code in codes && g.code.code == token.value && IsValid(g.code, now)
    ensures g.Pass? ==> CodeByValue(codes, token.value) == Some(IndexOf(codes, g.code))
  {
    if Missing(token) then MissingToken
    else
      match CodeByValue(codes, token.value)
      case None => UnknownToken
      case Some(j) => if IsValid(codes[j], now) then Pass(codes[j]) else InvalidToken
  }

  /** The position of a code known to be in the table. */
  function IndexOf(codes: seq<Code>, c: Code): (j: nat)
    requires c in codes
    ensures j < |codes| && codes[j] == c
  {
    FirstIndex(codes, (x: Code) => x == c).value
  }

  /** With unique tokens, the gate passes exactly when some code holding the
      token is valid, and then hands over that code. */
  lemma PassIffValidCodeHeld(token: string, codes: seq<Code>, now: Time)
    requires ValuesUnique(codes) && token != "" && token != "0"
    ensures Handle(Some(token), codes, now).Pass? <==>
              exists j :: 0 <= j < |codes| && codes[j].code == token && IsValid(codes[j], now)
    ensures forall j :: 0 <= j < |codes| && codes[j].code == token && IsValid(codes[j], now) ==>
              Handle(Some(token), codes, now) == Pass(codes[j])
  {
    forall j | 0 <= j < |codes| && codes[j].code == token
      ensures CodeByValue(codes, token) == Some(j)
    {
      CodeByValueAt(codes, j);
    }
  }

  /** A code whose token is `"0"` can never pass: PHP reads that token as
      missing. */
  lemma ZeroTokenNeverPasses(codes: seq<Code>, now: Time)
    ensures Handle(Some("0"), codes, now) == MissingToken
  {
  }

  /** The `api.token` route: the gate, then `authorizeWithCode` with the code it
      attached.  A refusal leaves every table as it was. */
  method AuthorizeWithToken(db: Store, token: Option<string>, req: Request, ip: string, now: Time)
    returns (resp: Response)
    requires db.Valid()
    modifies db
    ensures db.Valid()
    ensures var g := Handle(token, old(db.codes), now);
            && (!g.Pass? ==> resp == Refusal(g) && db.Snapshot() == old(db.Snapshot()))
            && (g.Pass? && !WellFormed(req) ==> resp == ValidationFailed && db.Snapshot() == old(db.Snapshot()))
            && (g.Pass? && WellFormed(req) ==> WithCodeOutcome(old(db.Snapshot()), db.Snapshot(), g.code, req, ip, now, resp))
  {
    var g := Handle(token, db.codes, now);
    if !g.Pass? {
      return Refusal(g);
    }
    resp := AuthorizeWithCode(db, Some(g.code), req, ip, now);
  }
}
