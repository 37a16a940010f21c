/** The persistent store: the three tables of the core, in primary-key
    order, with the schema's constraints as the object invariant (increasing
    keys, the unique `code` index, and the two foreign keys). */
module Database {
  import opened Common
  import opened AuthorizationCodes
  import opened SoftwareAuthorizations
  import opened AccessLogs

  function AuthIds(auths: seq<Auth>): set<nat> {
    set i | 0 <= i < |auths| :: auths[i].id
  }

  predicate AuthIdsIncreasing(auths: seq<Auth>) {
    forall i, j :: 0 <= i < j < |auths| ==> auths[i].id < auths[j].id
  }

  predicate LogIdsIncreasing(logs: seq<Log>) {
    forall i, j :: 0 <= i < j < |logs| ==> logs[i].id < logs[j].id
  }

  /** `authorization_code_id` references `authorization_codes.id`. */
  predicate LinksResolve(auths: seq<Auth>, codes: seq<Code>) {
    forall i :: 0 <= i < |auths| && auths[i].codeId.Some? ==> auths[i].codeId.value in CodeIds(codes)
  }

  /** `software_authorization_id` references `software_authorizations.id`. */
  predicate LogsOwned(logs: seq<Log>, auths: seq<Auth>) {
    forall i :: 0 <= i < |logs| ==> logs[i].authId in AuthIds(auths)
  }

  /** The schema constraints, and next keys above every key in use. */
  predicate Consistent(auths: seq<Auth>, codes: seq<Code>, logs: seq<Log>,
                       nextAuthId: nat, nextCodeId: nat, nextLogId: nat) {
    && AuthIdsIncreasing(auths) && (forall i :: 0 <= i < |auths| ==> auths[i].id < nextAuthId)
    && IdsIncreasing(codes) && (forall i :: 0 <= i < |codes| ==> codes[i].id < nextCodeId)
    && LogIdsIncreasing(logs) && (forall i :: 0 <= i < |logs| ==> logs[i].id < nextLogId)
    && ValuesUnique(codes)
    && LinksResolve(auths, codes)
    && LogsOwned(logs, auths)
  }

  /** Route-model binding of `{authorization}`: the row with that key. */
  function AuthIndex(auths: seq<Auth>, id: nat): (r: Option<nat>)
    ensures r.Some? ==> r.value < |auths| && auths[r.value].id == id
    ensures r.None? <==> id !in AuthIds(auths)
  {
    FirstIndex(auths, (a: Auth) => a.id == id)
  }

  /** Replacing a row by one with the same key keeps the key set. */
  lemma AuthIdsReplace(auths: seq<Auth>, i: nat, a: Auth)
    requires i < |auths| && a.id == auths[i].id
    ensures AuthIds(auths[i := a]) == AuthIds(auths)
  {
    var s := auths[i := a];
    forall k | k in AuthIds(auths) ensures k in AuthIds(s) {
      var j :| 0 <= j < |auths| && auths[j].id == k;
      assert s[j].id == k;
    }
  }

  lemma AuthIdsAppend(auths: seq<Auth>, a: Auth)
    ensures AuthIds(auths + [a]) == AuthIds(auths) + {a.id}
  {
    var s := auths + [a];
    assert s[|auths|].id == a.id;
    forall k | k in AuthIds(auths) ensures k in AuthIds(s) {
      var j :| 0 <= j < |auths| && auths[j].id == k;
      assert s[j].id == k;
    }
  }

  /** Removing row `i` removes exactly its key, since keys are distinct. */
  lemma AuthIdsRemove(auths: seq<Auth>, i: nat)
    requires i < |auths| && AuthIdsIncreasing(auths)
    ensures AuthIds(auths[..i] + auths[i + 1..]) == AuthIds(auths) - {auths[i].id}
    ensures AuthIdsIncreasing(auths[..i] + auths[i + 1..])
  {
    var s := auths[..i] + auths[i + 1..];
    assert forall j :: 0 <= j < |s| ==> s[j] == (if j < i then auths[j] else auths[j + 1]);
    forall k | k in AuthIds(auths) - {auths[i].id} ensures k in AuthIds(s) {
      var j :| 0 <= j < |auths| && auths[j].id == k;
      if j < i { assert s[j].id == k; } else { assert s[j - 1].id == k; }
    }
  }

  lemma CodeIdsReplace(codes: seq<Code>, j: nat, c: Code)
    requires j < |codes| && c.id == codes[j].id
    ensures CodeIds(codes[j := c]) == CodeIds(codes)
  {
    var s := codes[j := c];
    forall k | k in CodeIds(codes) ensures k in CodeIds(s) {
      var m :| 0 <= m < |codes| && codes[m].id == k;
      assert s[m].id == k;
    }
  }

  lemma CodeIdsAppend(codes: seq<Code>, c: Code)
    ensures CodeIds(codes + [c]) == CodeIds(codes) + {c.id}
  {
    var s := codes + [c];
    assert s[|codes|].id == c.id;
    forall k | k in CodeIds(codes) ensures k in CodeIds(s) {
      var m :| 0 <= m < |codes| && codes[m].id == k;
      assert s[m].id == k;
    }
  }

  lemma CodeIdsRemove(codes: seq<Code>, j: nat)
    requires j < |codes| && IdsIncreasing(codes)
    ensures CodeIds(codes[..j] + codes[j + 1..]) == CodeIds(codes) - {codes[j].id}
    ensures IdsIncreasing(codes[..j] + codes[j + 1..])
    ensures ValuesUnique(codes) ==> ValuesUnique(codes[..j] + codes[j + 1..])
  {
    var s := codes[..j] + codes[j + 1..];
    assert forall m :: 0 <= m < |s| ==> s[m] == (if m < j then codes[m] else codes[m + 1]);
    forall k | k in CodeIds(codes) - {codes[j].id} ensures k in CodeIds(s) {
      var m :| 0 <= m < |codes| && codes[m].id == k;
      if m < j { assert s[m].id == k; } else { assert s[m - 1].id == k; }
    }
  }

  /** What the `set null` action on `authorization_code_id` leaves when code
      `id` is deleted: the links to it are cleared, nothing else changes. */
  function Unlinked(auths: seq<Auth>, id: nat): (r: seq<Auth>)
    ensures |r| == |auths|
    ensures forall k :: 0 <= k < |r| ==> r[k].codeId != Some(id)
    ensures forall k :: 0 <= k < |r| && auths[k].codeId == Some(id) ==> r[k].codeId.None?
    ensures forall k :: 0 <= k < |r| ==> r[k] == auths[k].(codeId := r[k].codeId)
    ensures forall k :: 0 <= k < |r| && auths[k].codeId != Some(id) ==> r[k] == auths[k]
  {
    seq(|auths|, k requires 0 <= k < |auths| =>
      if auths[k].codeId == Some(id) then auths[k].(codeId := None) else auths[k])
  }

  /** What the `cascade` action on `software_authorization_id` leaves when
      authorization `authId` is deleted. */
  function LogsWithout(logs: seq<Log>, authId: nat): (r: seq<Log>)
    ensures forall l :: l in r <==> l in logs && l.authId != authId
  {
    Filter(logs, (l: Log) => l.authId != authId)
  }

  /** Deleting authorization `i` with its logs keeps the schema constraints. */
  lemma RemoveAuthConsistent(auths: seq<Auth>, codes: seq<Code>, logs: seq<Log>,
                             nextAuthId: nat, nextCodeId: nat, nextLogId: nat, i: nat)
    requires Consistent(auths, codes, logs, nextAuthId, nextCodeId, nextLogId) && i < |auths|
    ensures Consistent(auths[..i] + auths[i + 1..], codes, LogsWithout(logs, auths[i].id),
                       nextAuthId, nextCodeId, nextLogId)
  {
    var id := auths[i].id;
    var s := auths[..i] + auths[i + 1..];
    AuthIdsRemove(auths, i);
    assert forall k :: 0 <= k < |s| ==> s[k] == (if k < i then auths[k] else auths[k + 1]);
    var t := LogsWithout(logs, id);
    FilterKeepsIncreasing(logs, (l: Log) => l.authId != id, (l: Log) => l.id);
    forall a, b | 0 <= a < b < |t| ensures t[a].id < t[b].id {
      assert ((l: Log) => l.id)(t[a]) < ((l: Log) => l.id)(t[b]);
    }
    forall k | 0 <= k < |t| ensures t[k].authId in AuthIds(s) && t[k].id < nextLogId {
      assert t[k] in logs;
      var m :| 0 <= m < |logs| && logs[m] == t[k];
    }
  }

  /** A value copy of the whole database, so that an operation's effect can be
      stated as a relation between two snapshots. */
  datatype Tables = Tables(
    auths: seq<Auth>,
    codes: seq<Code>,
    logs: seq<Log>,
    nextAuthId: nat,
    nextCodeId: nat,
    nextLogId: nat)

  /** The tables; one instance stands for the database every request sees. */
  class Store {
    var auths: seq<Auth>
    var codes: seq<Code>
    var logs: seq<Log>
    var nextAuthId: nat
    var nextCodeId: nat
    var nextLogId: nat

    ghost predicate Valid()
      reads this
    {
      Consistent(auths, codes, logs, nextAuthId, nextCodeId, nextLogId)
    }

    ghost function Snapshot(): Tables
      reads this
    {
      Tables(auths, codes, logs, nextAuthId, nextCodeId, nextLogId)
    }

    /** A fresh, empty database. */
    constructor ()
      ensures Valid()
      ensures auths == [] && codes == [] && logs == []
    {
      auths, codes, logs := [], [], [];
      nextAuthId, nextCodeId, nextLogId := 1, 1, 1;
    }

    /** `AuthorizationCode::recordUsage()` on row `j`: `used_count` one higher,
        `last_used_at` now, nothing else anywhere changes. */
    method RecordUsage(j: nat, now: Time)
      requires Valid() && j < |codes|
      modifies this`codes
      ensures Valid()
      ensures codes == old(codes)[j := WithUsage(old(codes)[j], now)]
    {
      CodeIdsReplace(codes, j, WithUsage(codes[j], now));
      codes := codes[j := WithUsage(codes[j], now)];
    }

    /** `$auth->accessLogs()->create([...])`: appends one row with the next key. */
    method AppendLog(authId: nat, entry: Entry, ip: string, expired: bool, now: Time)
      requires Valid() && authId in AuthIds(auths)
      modifies this`logs, this`nextLogId
      ensures Valid()
      ensures logs == old(logs) + [Log(old(nextLogId), authId, entry, ip, expired, now)]
      ensures nextLogId == old(nextLogId) + 1
    {
      logs := logs + [Log(nextLogId, authId, entry, ip, expired, now)];
      nextLogId := nextLogId + 1;
    }

    /** `$auth->update([...])` on row `i`: the new row keeps the key and links
        only to an existing code. */
    method ReplaceAuth(i: nat, a: Auth)
      requires Valid() && i < |auths| && a.id == auths[i].id
      requires a.codeId.Some? ==> a.codeId.value in CodeIds(codes)
      modifies this`auths
      ensures Valid()
      ensures auths == old(auths)[i := a]
    {
      AuthIdsReplace(auths, i, a);
      auths := auths[i := a];
    }

    /** `$authorization->delete()`: the row goes, and its access logs with it. */
    method RemoveAuth(i: nat)
      requires Valid() && i < |auths|
      modifies this`auths, this`logs
      ensures Valid()
      ensures auths == old(auths)[..i] + old(auths)[i + 1..]
      ensures logs == LogsWithout(old(logs), old(auths)[i].id)
    {
      RemoveAuthConsistent(auths, codes, logs, nextAuthId, nextCodeId, nextLogId, i);
      auths, logs := auths[..i] + auths[i + 1..], LogsWithout(logs, auths[i].id);
    }

    /** `AuthorizationCode::create([...])` with a token no row holds yet. */
    method AppendCode(c: Code)
      requires Valid() && c.id == nextCodeId
      requires forall k :: 0 <= k < |codes| ==> codes[k].code != c.code
      modifies this`codes, this`nextCodeId
      ensures Valid()
      ensures codes == old(codes) + [c]
      ensures nextCodeId == old(nextCodeId) + 1
    {
      CodeIdsAppend(codes, c);
      codes := codes + [c];
      nextCodeId := nextCodeId + 1;
    }

    /** `$authorizationCode->update([...])` on row `j`, keeping the key and the
        uniqueness of tokens. */
    method ReplaceCode(j: nat, c: Code)
      requires Valid() && j < |codes| && c.id == codes[j].id
      requires forall k :: 0 <= k < |codes| && k != j ==> codes[k].code != c.code
      modifies this`codes
      ensures Valid()
      ensures codes == old(codes)[j := c]
    {
      CodeIdsReplace(codes, j, c);
      codes := codes[j := c];
    }

    /** `$authorizationCode->delete()`: the row goes, and every authorization
        linked to it loses the link. */
    method RemoveCode(j: nat)
      requires Valid() && j < |codes|
      modifies this`codes, this`auths
      ensures Valid()
      ensures codes == old(codes)[..j] + old(codes)[j + 1..]
      ensures auths == Unlinked(old(auths), old(codes)[j].id)
    {
      var id := codes[j].id;
      var cs := codes[..j] + codes[j + 1..];
      CodeIdsRemove(codes, j);
      var u := Unlinked(auths, id);
      forall k | k in AuthIds(auths) ensures k in AuthIds(u) {
        var m :| 0 <= m < |auths| && auths[m].id == k;
        assert u[m].id == k;
      }
      forall k | k in AuthIds(u) ensures k in AuthIds(auths) {
        var m :| 0 <= m < |u| && u[m].id == k;
        assert auths[m].id == k;
      }
      assert AuthIds(u) == AuthIds(auths);
      codes, auths := cs, u;
    }

    /** `SoftwareAuthorization::create([...])`: appends one row, whose key the
        store assigns. */
    method AppendAuth(a: Auth)
      requires Valid() && a.id == nextAuthId
      requires a.codeId.Some? ==> a.codeId.value in CodeIds(codes)
      modifies this`auths, this`nextAuthId
      ensures Valid()
      ensures auths == old(auths) + [a]
      ensures nextAuthId == old(nextAuthId) + 1
    {
      AuthIdsAppend(auths, a);
      auths := auths + [a];
      nextAuthId := nextAuthId + 1;
    }
  }
}
