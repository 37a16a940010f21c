/** The audit log (`software_authorization_access_logs`) and the admin query
    over it: filter by classification and creation-time range, newest first,
    one page at a time. */
module AccessLogs {
  import opened Common
  import opened SoftwareAuthorizations

  /** The `code_change` before/after snapshot of a code (times kept as
      timestamps; their `Y-m-d H:i:s` rendering is not modelled). */
  datatype CodeSnapshot = CodeSnapshot(
    code: Option<string>,
    notes: Option<string>,
    startTime: Option<Time>,
    endTime: Option<Time>)

  /** `access_type` together with its `changes` payload. */
  datatype Entry =
    | Check
    | Update(deviceBefore: Fingerprint, deviceAfter: Fingerprint)
    | CodeChange(codeBefore: CodeSnapshot, codeAfter: CodeSnapshot)

  datatype Log = Log(
    id: nat,
    authId: nat,
    entry: Entry,
    ipAddress: string,
    isExpired: bool,
    createdAt: Time)

  /** The query-string parameters of the access-log endpoint. */
  datatype LogQuery = LogQuery(
    perPage: Option<nat>,
    page: Option<int>,
    accessType: Option<string>,
    startDate: Option<Time>,
    endDate: Option<Time>)

  /** The JSON answer: the page's items, its pagination metadata and the
      parent authorization's notes. */
  datatype LogPage = LogPage(
    items: seq<Log>,
    currentPage: nat,
    lastPage: nat,
    perPage: nat,
    total: nat,
    notes: Option<string>)

  /** `$request->input('per_page', 10)`. */
  const RequestPerPage: nat := 10
  /** What the paginator falls back to when the page size is 0 (the model's
      default page size). */
  const ModelPerPage: nat := 15

  /** The `access_type` filter; an absent, empty, `"0"` or unknown value filters
      nothing. */
  predicate MatchesType(l: Log, accessType: Option<string>) {
    match accessType
    case None => true
    case Some(t) =>
      if t == "expired" then l.isExpired
      else if t == "normal" then l.entry.Check? && !l.isExpired
      else if t == "update" then l.entry.Update?
      else if t == "code_change" then l.entry.CodeChange?
      else true
  }

  /** The meaning of each classification keyword. */
  lemma TypeKeywords(l: Log)
    ensures MatchesType(l, Some("expired")) <==> l.isExpired
    ensures MatchesType(l, Some("normal")) <==> l.entry.Check? && !l.isExpired
    ensures MatchesType(l, Some("update")) <==> l.entry.Update?
    ensures MatchesType(l, Some("code_change")) <==> l.entry.CodeChange?
    ensures MatchesType(l, None) && MatchesType(l, Some("")) && MatchesType(l, Some("check"))
  {
  }

  /** `start_date` and `end_date` are inclusive bounds on `created_at`. */
  predicate InRange(l: Log, startDate: Option<Time>, endDate: Option<Time>) {
    && (startDate.None? || l.createdAt >= startDate.value)
    && (endDate.None? || l.createdAt <= endDate.value)
  }

  /** The rows the query selects, before ordering. */
  predicate Selects(l: Log, authId: nat, q: LogQuery) {
    l.authId == authId && MatchesType(l, q.accessType) && InRange(l, q.startDate, q.endDate)
  }

  function Selected(logs: seq<Log>, authId: nat, q: LogQuery): (r: seq<Log>)
    ensures forall l :: l in r <==> l in logs && Selects(l, authId, q)
    ensures forall l :: multiset(r)[l] == if Selects(l, authId, q) then multiset(logs)[l] else 0
  {
    FilterCounts(logs, (l: Log) => Selects(l, authId, q));
    Filter(logs, (l: Log) => Selects(l, authId, q))
  }

  /** `latest()`: later `created_at` first; rows created at the same instant
      come later-inserted first. */
  predicate Newer(a: Log, b: Log) {
    a.createdAt > b.createdAt || (a.createdAt == b.createdAt && a.id >= b.id)
  }

  predicate NewestFirst(s: seq<Log>) {
    forall i, j :: 0 <= i < j < |s| ==> Newer(s[i], s[j])
  }

  /** `l` placed before the first row it is newer than. */
  function Insert(l: Log, s: seq<Log>): (r: seq<Log>)
    ensures multiset(r) == multiset(s) + multiset{l}
  {
    if |s| == 0 then [l]
    else if Newer(l, s[0]) then [l] + s
    else
      assert s == [s[0]] + s[1..];
      [s[0]] + Insert(l, s[1..])
  }

  /** Inserting into a newest-first list keeps it newest first. */
  lemma {:induction false} InsertKeepsOrder(l: Log, s: seq<Log>)
    requires NewestFirst(s)
    ensures NewestFirst(Insert(l, s))
  {
    if |s| > 0 && !Newer(l, s[0]) {
      var rest := s[1..];
      InsertKeepsOrder(l, rest);
      var t := Insert(l, rest);
      assert s == [s[0]] + rest;
      forall k | 0 <= k < |t| ensures Newer(s[0], t[k]) {
        assert t[k] in multiset(t);
        if t[k] != l {
          assert t[k] in multiset(rest);
          var m :| 0 <= m < |rest| && rest[m] == t[k];
          assert s[m + 1] == t[k];
        }
      }
      var r := [s[0]] + t;
      assert Insert(l, s) == r;
      forall i, j | 0 <= i < j < |r| ensures Newer(r[i], r[j]) {
        assert r[j] == t[j - 1];
        if i > 0 { assert r[i] == t[i - 1]; }
      }
    }
  }

  /** The ordering step: a permutation of its input, newest first. */
  function SortNewestFirst(s: seq<Log>): (r: seq<Log>)
    ensures NewestFirst(r)
    ensures multiset(r) == multiset(s)
  {
    if |s| == 0 then []
    else
      assert s == [s[0]] + s[1..];
      InsertKeepsOrder(s[0], SortNewestFirst(s[1..]));
      Insert(s[0], SortNewestFirst(s[1..]))
  }

  /** The page size the paginator uses. */
  function EffectivePerPage(perPage: Option<nat>): (n: nat)
    ensures n >= 1
    ensures perPage.None? ==> n == RequestPerPage
    ensures perPage == Some(0) ==> n == ModelPerPage
    ensures perPage.Some? && perPage.value > 0 ==> n == perPage.value
  {
    var requested := perPage.GetOr(RequestPerPage);
    if requested == 0 then ModelPerPage else requested
  }

  /** The page the paginator reports and reads: pages below 1 read as page 1. */
  function EffectivePage(page: Option<int>): (p: nat)
    ensures p >= 1
    ensures page.Some? && page.value >= 1 ==> p == page.value
    ensures page.None? || page.value < 1 ==> p == 1
  {
    var requested := page.GetOr(1);
    if requested >= 1 then requested else 1
  }

  /** `max(ceil(total / perPage), 1)`. */
  function LastPage(total: nat, perPage: nat): (k: nat)
    requires perPage >= 1
    ensures k >= 1
    ensures total == 0 ==> k == 1
    ensures k * perPage >= total
    ensures total > 0 ==> (k - 1) * perPage < total
  {
    if total == 0 then 1
    else
      var k := (total + perPage - 1) / perPage;
      var rem := (total + perPage - 1) % perPage;
      assert k * perPage + rem == total + perPage - 1;
      assert (k - 1) * perPage == k * perPage - perPage;
      k
  }

  /** `perPage` rows of `s` from `offset` on, fewer at the end. */
  function Slice(s: seq<Log>, offset: nat, perPage: nat): seq<Log> {
    if offset >= |s| then []
    else if offset + perPage >= |s| then s[offset..]
    else s[offset..offset + perPage]
  }

  /** Page `page` of `s`: skip `(page - 1) * perPage`, take `perPage`. */
  function PageOf(s: seq<Log>, perPage: nat, page: nat): (r: seq<Log>)
    requires perPage >= 1 && page >= 1
    ensures |r| <= perPage
    ensures forall l :: l in r ==> l in s
    ensures NewestFirst(s) ==> NewestFirst(r)
    ensures PagesUpTo(s, perPage, page - 1) + r == PagesUpTo(s, perPage, page)
  {
    Slice(s, (page - 1) * perPage, perPage)
  }

  /** Two orderings of the same rows have the same length and the same members. */
  lemma SameRows(a: seq<Log>, b: seq<Log>)
    requires multiset(a) == multiset(b)
    ensures |a| == |b|
    ensures forall l :: l in a <==> l in b
  {
    assert |multiset(a)| == |multiset(b)|;
    forall l ensures l in a <==> l in b {
      assert l in a <==> l in multiset(a);
      assert l in b <==> l in multiset(b);
    }
  }

  /** `accessLogs`: the selected rows of one authorization, newest first, then
      the requested page, with the pagination metadata. */
  function Query(logs: seq<Log>, auth: Auth, q: LogQuery): (r: LogPage)
    ensures r.total == |Selected(logs, auth.id, q)|
    ensures r.perPage == EffectivePerPage(q.perPage)
    ensures r.lastPage == LastPage(r.total, r.perPage)
    ensures r.currentPage == EffectivePage(q.page)
    ensures r.items == PageOf(SortNewestFirst(Selected(logs, auth.id, q)), r.perPage, r.currentPage)
    ensures forall l :: l in r.items ==> l in logs && Selects(l, auth.id, q)
    ensures NewestFirst(r.items)
    ensures 1 <= r.perPage && |r.items| <= r.perPage
    ensures r.lastPage >= 1 && r.lastPage * r.perPage >= r.total
    ensures r.notes == auth.notes
  {
    var sel := Selected(logs, auth.id, q);
    var sorted := SortNewestFirst(sel);
    var n := EffectivePerPage(q.perPage);
    var p := EffectivePage(q.page);
    var items := PageOf(sorted, n, p);
    SameRows(sorted, sel);
    LogPage(items, p, LastPage(|sorted|, n), n, |sorted|, auth.notes)
  }

  /** Pages 1 to `k`, one after the other. */
  function PagesUpTo(s: seq<Log>, perPage: nat, k: nat): seq<Log>
    requires perPage >= 1
  {
    if k == 0 then [] else PagesUpTo(s, perPage, k - 1) + Slice(s, (k - 1) * perPage, perPage)
  }

  lemma MulStep(k: nat, perPage: nat)
    requires k > 0
    ensures (k - 1) * perPage + perPage == k * perPage
  {
  }

  /** A slice continues the prefix before it. */
  lemma SliceExtends(s: seq<Log>, m: nat, perPage: nat)
    ensures m + perPage <= |s| ==> s[..m] + Slice(s, m, perPage) == s[..m + perPage]
    ensures m <= |s| < m + perPage ==> s[..m] + Slice(s, m, perPage) == s
    ensures m > |s| ==> Slice(s, m, perPage) == []
  {
    if m + perPage <= |s| {
      assert s[..m] + s[m..m + perPage] == s[..m + perPage];
    } else if m <= |s| {
      assert s[..m] + s[m..] == s;
    }
  }

  /** Pages 1 to `k` end at row `n = k * perPage`, or at the end of `s`. */
  lemma {:induction false} PagesEndAt(s: seq<Log>, perPage: nat, k: nat, n: nat)
    requires perPage >= 1 && n == k * perPage
    ensures n <= |s| ==> PagesUpTo(s, perPage, k) == s[..n]
    ensures n > |s| ==> PagesUpTo(s, perPage, k) == s
  {
    if k > 0 {
      MulStep(k, perPage);
      var m := n - perPage;
      assert m == (k - 1) * perPage;
      PagesEndAt(s, perPage, k - 1, m);
      SliceExtends(s, m, perPage);
      assert PagesUpTo(s, perPage, k) == PagesUpTo(s, perPage, k - 1) + Slice(s, m, perPage);
    }
  }

  /** The first `k` pages are the first `k * perPage` rows. */
  lemma PagesArePrefix(s: seq<Log>, perPage: nat, k: nat)
    requires perPage >= 1
    ensures k * perPage <= |s| ==> PagesUpTo(s, perPage, k) == s[..k * perPage]
    ensures k * perPage > |s| ==> PagesUpTo(s, perPage, k) == s
  {
    PagesEndAt(s, perPage, k, k * perPage);
  }

  /** Page `p` holds rows `(p - 1) * n` up to `p * n` (exclusive) of the list,
      fewer on the last page and none beyond it. */
  lemma PageIsBlock(s: seq<Log>, n: nat, p: nat)
    requires n >= 1 && p >= 1
    ensures p * n <= |s| ==> PageOf(s, n, p) == s[(p - 1) * n .. p * n]
    ensures (p - 1) * n <= |s| < p * n ==> PageOf(s, n, p) == s[(p - 1) * n ..]
    ensures (p - 1) * n >= |s| ==> PageOf(s, n, p) == []
  {
    MulStep(p, n);
    PagesArePrefix(s, n, p - 1);
    PagesArePrefix(s, n, p);
    var before, r := PagesUpTo(s, n, p - 1), PageOf(s, n, p);
    assert r == (before + r)[|before|..];
  }

  /** Paging loses and repeats nothing: pages 1 to `lastPage` together are the
      whole ordered selection. */
  lemma PagesCoverSelection(logs: seq<Log>, auth: Auth, q: LogQuery)
    ensures var sorted := SortNewestFirst(Selected(logs, auth.id, q));
            var n := EffectivePerPage(q.perPage);
            PagesUpTo(sorted, n, Query(logs, auth, q).lastPage) == sorted
  {
    var sorted := SortNewestFirst(Selected(logs, auth.id, q));
    var n := EffectivePerPage(q.perPage);
    var k := LastPage(|sorted|, n);
    PagesArePrefix(sorted, n, k);
  }
}
