/** `AuthorizationCodeController`: code administration (`store`, `update`,
    `destroy`), the `validate` probe, and the sorted list of code values the
    index page offers. */
module AuthorizationCodeController {
  import opened Common
  import Hex
  import opened AuthorizationCodes
  import opened SoftwareAuthorizations
  import opened Database
  import opened SoftwareAuthorizationController

  /** The fields of the create and edit forms (`is_active` only on edit). */
  datatype CodeForm = CodeForm(
    name: Option<string>,
    code: Option<string>,
    notes: Option<string>,
    startTime: Option<Time>,
    endTime: Option<Time>,
    isActive: Option<bool>)

  /** `required|string|max:255` on `name`. */
  predicate NameOk(f: CodeForm) {
    f.name.Some? && 0 < |f.name.value| <= 255
  }

  /** `after_or_equal:start_time`, checked when both times are given. */
  predicate WindowOk(f: CodeForm) {
    f.startTime.None? || f.endTime.None? || f.endTime.value >= f.startTime.value
  }

  /** `unique:authorization_codes,code[,id]`: no row other than `except` holds
      the supplied token. */
  predicate TokenFree(codes: seq<Code>, token: Option<string>, except: Option<nat>) {
    token.None? || forall k :: 0 <= k < |codes| && Some(codes[k].id) != except ==> codes[k].code != token.value
  }

  /** The row `store` inserts: active, unused, never used. */
  function NewCode(id: nat, f: CodeForm, token: string): (c: Code)
    requires f.name.Some?
  {
    Code(id, f.name.value, token, f.notes, f.startTime, f.endTime, true, 0, None)
  }

  /** The row `update` writes: `code` and `is_active` fall back to the stored
      values, while absent notes and window bounds become null. */
  function Edited(c: Code, f: CodeForm): (r: Code)
    requires f.name.Some?
    ensures r.id == c.id && r.name == f.name.value
    ensures r.code == (if f.code.Some? then f.code.value else c.code)
    ensures r.isActive == (if f.isActive.Some? then f.isActive.value else c.isActive)
    ensures r.notes == f.notes && r.startTime == f.startTime && r.endTime == f.endTime
    ensures r.usedCount == c.usedCount && r.lastUsedAt == c.lastUsedAt
  {
    c.(name := f.name.value, code := f.code.GetOr(c.code), notes := f.notes,
       startTime := f.startTime, endTime := f.endTime, isActive := f.isActive.GetOr(c.isActive))
  }

  /** A new code is valid exactly inside its window: it starts active. */
  lemma NewCodeValidity(id: nat, f: CodeForm, token: string, now: Time)
    requires f.name.Some?
    ensures IsValid(NewCode(id, f, token), now) <==>
              (f.startTime.None? || now >= f.startTime.value) && (f.endTime.None? || now <= f.endTime.value)
    ensures NewCode(id, f, token).usedCount == 0 && NewCode(id, f, token).lastUsedAt.None?
  {
  }

  /** A form that passed `WindowOk` with both bounds gives a code valid at its
      start and at its end. */
  lemma AcceptedWindowNonEmpty(id: nat, f: CodeForm, token: string)
    requires f.name.Some? && WindowOk(f) && f.startTime.Some? && f.endTime.Some?
    ensures IsValid(NewCode(id, f, token), f.startTime.value) && IsValid(NewCode(id, f, token), f.endTime.value)
  {
  }

  /** `store`: validates, falls back to a generated token, inserts.  A
      generated token that happens to exist already trips the unique index. */
  method StoreCode(db: Store, f: CodeForm, random: seq<Hex.byte>) returns (out: AdminOutcome)
    requires db.Valid() && |random| == DefaultCodeLength / 2
    modifies db
    ensures db.Valid()
    ensures out == Done || db.Snapshot() == old(db.Snapshot())
    ensures !(NameOk(f) && TokenFree(old(db.codes), f.code, None) && WindowOk(f)) <==> out == Invalid
    ensures out == Conflict <==>
              NameOk(f) && WindowOk(f) && f.code.None? &&
              !TokenFree(old(db.codes), Some(GenerateCode(DefaultCodeLength, random)), None)
    ensures out == Done ==>
              var t0 := old(db.Snapshot());
              var token := if f.code.Some? then f.code.value else GenerateCode(DefaultCodeLength, random);
              db.Snapshot() == t0.(codes := t0.codes + [NewCode(t0.nextCodeId, f, token)], nextCodeId := t0.nextCodeId + 1)
  {
    if !(NameOk(f) && TokenFree(db.codes, f.code, None) && WindowOk(f)) {
      return Invalid;
    }
    var token := if f.code.Some? then f.code.value else GenerateCode(DefaultCodeLength, random);
    if !TokenFree(db.codes, Some(token), None) {
      return Conflict;
    }
    db.AppendCode(NewCode(db.nextCodeId, f, token));
    out := Done;
  }

  /** `update`: a full overwrite except for `code` and `is_active`; the
      uniqueness check ignores the code's own row. */
  method UpdateCode(db: Store, codeId: nat, f: CodeForm) returns (out: AdminOutcome)
    requires db.Valid()
    modifies db
    ensures db.Valid()
    ensures out != Conflict
    ensures CodeIndex(old(db.codes), codeId).None? ==> out == NotFound && db.Snapshot() == old(db.Snapshot())
    ensures CodeIndex(old(db.codes), codeId).Some? ==>
      var t0, j := old(db.Snapshot()), CodeIndex(old(db.codes), codeId).value;
      if NameOk(f) && TokenFree(t0.codes, f.code, Some(codeId)) && WindowOk(f) then
        out == Done && db.Snapshot() == t0.(codes := t0.codes[j := Edited(t0.codes[j], f)])
      else
        out == Invalid && db.Snapshot() == t0
  {
    var found := CodeIndex(db.codes, codeId);
    if found.None? {
      return NotFound;
    }
    if !(NameOk(f) && TokenFree(db.codes, f.code, Some(codeId)) && WindowOk(f)) {
      return Invalid;
    }
    var j := found.value;
    forall k | 0 <= k < |db.codes| && k != j ensures db.codes[k].code != Edited(db.codes[j], f).code {
      if f.code.None? {
        if k < j { assert db.codes[k].code != db.codes[j].code; }
        else { assert db.codes[j].code != db.codes[k].code; }
      } else {
        if k < j { assert db.codes[k].id < db.codes[j].id; } else { assert db.codes[j].id < db.codes[k].id; }
      }
    }
    db.ReplaceCode(j, Edited(db.codes[j], f));
    out := Done;
  }

  /** `destroy`: the row goes; every authorization that pointed at it loses
      its link (`set null`). */
  method DestroyCode(db: Store, codeId: nat) returns (out: AdminOutcome)
    requires db.Valid()
    modifies db
    ensures db.Valid()
    ensures CodeIndex(old(db.codes), codeId).None? ==> out == NotFound && db.Snapshot() == old(db.Snapshot())
    ensures CodeIndex(old(db.codes), codeId).Some? ==>
      var t0, j := old(db.Snapshot()), CodeIndex(old(db.codes), codeId).value;
      && out == Done
      && db.Snapshot() == t0.(codes := t0.codes[..j] + t0.codes[j + 1..], auths := Unlinked(t0.auths, codeId))
  {
    var found := CodeIndex(db.codes, codeId);
    if found.None? {
      return NotFound;
    }
    db.RemoveCode(found.value);
    out := Done;
  }

  /** Every authorization that was linked to a deleted code is outside its
      period from then on, at every time. */
  lemma DestroyedCodeExpiresLinks(auths: seq<Auth>, codes: seq<Code>, j: nat, now: Time)
    requires j < |codes|
    ensures var u := Unlinked(auths, codes[j].id);
            forall k :: 0 <= k < |auths| && auths[k].codeId == Some(codes[j].id) ==>
              !IsWithinAuthorizationPeriod(u[k], codes[..j] + codes[j + 1..], now)
  {
  }

  // ---------------------------------------------------------------------------
  // validate

  /** 404: no code holds the presented token. */
  const UnknownCode: Response := Response(404, false, None)
  /** 403: the code exists but is disabled or outside its window. */
  const Forbidden: Response := Response(403, false, None)

  /** `validate`: presents a code in the body.  An approved exact match only
      records a use; any other case creates an approved record with no code
      link (its window columns are not fillable), then records a use.  No log
      row is written on either path. */
  method Validate(db: Store, token: string, req: Request, ip: string, now: Time) returns (resp: Response)
    requires db.Valid()
    modifies db
    ensures db.Valid()
    ensures resp.verdict.Some? ==> resp == Answer(Granted)
    ensures !(|token| > 0 && WellFormed(req)) ==> resp == ValidationFailed && db.Snapshot() == old(db.Snapshot())
    ensures |token| > 0 && WellFormed(req) ==>
      var t0, t1 := old(db.Snapshot()), db.Snapshot();
      match CodeByValue(t0.codes, token)
      case None => resp == UnknownCode && t1 == t0
      case Some(j) =>
        if !IsValid(t0.codes[j], now) then resp == Forbidden && t1 == t0
        else
          && resp == Answer(Granted)
          && t1.codes == t0.codes[j := WithUsage(t0.codes[j], now)]
          && var rest := t1.(codes := t0.codes);
             if FirstExact(t0.auths, req.device).Some? && t0.auths[FirstExact(t0.auths, req.device).value].status == Approved
             then rest == t0
             else Appended(t0, rest, NewApproved(t0.nextAuthId, req, ip, now, None, t0.codes[j].notes))
  {
    if !(|token| > 0 && WellFormed(req)) {
      return ValidationFailed;
    }
    var found := CodeByValue(db.codes, token);
    if found.None? {
      return UnknownCode;
    }
    var j := found.value;
    if !IsValid(db.codes[j], now) {
      return Forbidden;
    }
    var exact := FirstExact(db.auths, req.device);
    if !(exact.Some? && db.auths[exact.value].status == Approved) {
      db.AppendAuth(NewApproved(db.nextAuthId, req, ip, now, None, db.codes[j].notes));
    }
    db.RecordUsage(j, now);
    resp := Answer(Granted);
  }

  /** The record `validate` creates for a device with no earlier exact match
      is found by the next `authorize` and reported expired, at every time:
      it has no code to derive a period from. */
  lemma ValidatedRecordReadsExpired(auths: seq<Auth>, codes: seq<Code>, req: Request, ip: string, id: nat,
                                    notes: Option<string>, now: Time, later: Time)
    requires FirstExact(auths, req.device).None?
    ensures var s := auths + [NewApproved(id, req, ip, now, None, notes)];
            && Decide(s, codes, req.device, later) == ExactApproved(|auths|, false)
            && DecideWithCode(s, codes, req.device, later) == ExactApproved(|auths|, false)
  {
    var s := auths + [NewApproved(id, req, ip, now, None, notes)];
    assert IsFirstExact(s, req.device, |auths|);
    assert Decide(s, codes, req.device, later).index == |auths|;
    assert DecideWithCode(s, codes, req.device, later).index == |auths|;
  }

  // ---------------------------------------------------------------------------
  // index: code_values

  /** Byte-wise lexicographic order on tokens, strict. */
  predicate Below(a: string, b: string)
    decreases |a|
  {
    if |a| == 0 then |b| > 0
    else if |b| == 0 then false
    else if a[0] != b[0] then a[0] < b[0]
    else Below(a[1..], b[1..])
  }

  lemma {:induction false} BelowIrreflexive(a: string)
    ensures !Below(a, a)
  {
    if |a| > 0 {
      BelowIrreflexive(a[1..]);
    }
  }

  lemma {:induction false} BelowTransitive(a: string, b: string, c: string)
    requires Below(a, b) && Below(b, c)
    ensures Below(a, c)
  {
    if |a| > 0 && |b| > 0 && |c| > 0 && a[0] == b[0] && b[0] == c[0] {
      BelowTransitive(a[1..], b[1..], c[1..]);
    }
  }

  /** Any two different tokens are ordered one way. */
  lemma {:induction false} BelowTotal(a: string, b: string)
    requires a != b
    ensures Below(a, b) || Below(b, a)
  {
    if |a| > 0 && |b| > 0 && a[0] == b[0] {
      assert a == [a[0]] + a[1..] && b == [b[0]] + b[1..];
      BelowTotal(a[1..], b[1..]);
    }
  }

  predicate Ascending(s: seq<string>) {
    forall i, j :: 0 <= i < j < |s| ==> Below(s[i], s[j])
  }

  /** An ascending list repeats no value. */
  lemma AscendingDistinct(s: seq<string>)
    requires Ascending(s)
    ensures forall i, j :: 0 <= i < j < |s| ==> s[i] != s[j]
  {
    forall i, j | 0 <= i < j < |s| ensures s[i] != s[j] {
      BelowIrreflexive(s[i]);
    }
  }

  /** `x` placed into an ascending list, unless it is already there. */
  function InsertValue(x: string, s: seq<string>): (r: seq<string>)
    requires Ascending(s)
    ensures Ascending(r)
    ensures forall v :: v in r <==> v == x || v in s
  {
    if |s| == 0 then [x]
    else if x == s[0] then s
    else if Below(x, s[0]) then
      forall j | 0 <= j < |s| ensures Below(x, s[j]) {
        if j > 0 { BelowTransitive(x, s[0], s[j]); }
      }
      [x] + s
    else
      BelowTotal(x, s[0]);
      var t := InsertValue(x, s[1..]);
      forall v | v in t ensures Below(s[0], v) {
        if v != x {
          var k :| 1 <= k < |s| && s[k] == v;
        }
      }
      [s[0]] + t
  }

  /** `distinct()->pluck('code')->unique()->sort()->values()`: every token
      once, in ascending order. */
  function CodeValues(codes: seq<Code>): (r: seq<string>)
    ensures Ascending(r)
    ensures forall v :: v in r <==> exists k :: 0 <= k < |codes| && codes[k].code == v
  {
    if |codes| == 0 then []
    else
      var rest := CodeValues(codes[1..]);
      forall k | 0 <= k < |codes[1..]| ensures codes[1..][k] == codes[k + 1] { }
      forall v | (exists k :: 0 <= k < |codes| && codes[k].code == v) && v != codes[0].code ensures v in rest {
        var k :| 0 <= k < |codes| && codes[k].code == v;
        assert codes[1..][k - 1].code == v;
      }
      InsertValue(codes[0].code, rest)
  }

  /** The list is exactly the set of tokens, ascending and without repeats,
      and never longer than the table. */
  lemma CodeValuesShape(codes: seq<Code>)
    ensures forall i, j :: 0 <= i < j < |CodeValues(codes)| ==> CodeValues(codes)[i] != CodeValues(codes)[j]
    ensures ValuesUnique(codes) ==> |CodeValues(codes)| == |codes|
  {
    AscendingDistinct(CodeValues(codes));
    if ValuesUnique(codes) {
      var r := CodeValues(codes);
      var m := set k | 0 <= k < |codes| :: codes[k].code;
      assert |m| == |codes| by { CodesCardinality(codes); }
      assert (set x | x in r) == m;
      DistinctCardinality(r);
    }
  }

  lemma {:induction false} CodesCardinality(codes: seq<Code>)
    requires ValuesUnique(codes)
    ensures |set k | 0 <= k < |codes| :: codes[k].code| == |codes|
  {
    if |codes| > 0 {
      var n := |codes| - 1;
      var init := codes[..n];
      assert ValuesUnique(init);
      CodesCardinality(init);
      var a := set k | 0 <= k < n :: init[k].code;
      var b := set k | 0 <= k < |codes| :: codes[k].code;
      assert b == a + {codes[n].code};
      assert codes[n].code !in a;
    }
  }

  lemma {:induction false} DistinctCardinality(s: seq<string>)
    requires forall i, j :: 0 <= i < j < |s| ==> s[i] != s[j]
    ensures |set x | x in s| == |s|
  {
    if |s| > 0 {
      var n := |s| - 1;
      DistinctCardinality(s[..n]);
      assert s == s[..n] + [s[n]];
      assert (set x | x in s) == (set x | x in s[..n]) + {s[n]};
      assert s[n] !in s[..n];
    }
  }
}
