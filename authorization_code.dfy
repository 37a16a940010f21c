/** The `AuthorizationCode` entity: an administrator-issued token whose
    activity flag and optional time window gate every authorization linked
    to it. */
module AuthorizationCodes {
  import opened Common
  import Hex

  /** One row of `authorization_codes`.  `code` is the secret bearer token;
      `start_time`/`end_time` are optional, inclusive window bounds. */
  datatype Code = Code(
    id: nat,
    name: string,
    code: string,
    notes: Option<string>,
    startTime: Option<Time>,
    endTime: Option<Time>,
    isActive: bool,
    usedCount: nat,
    lastUsedAt: Option<Time>)

  /** Length of a generated code when none is given. */
  const DefaultCodeLength: nat := 32

  /** `isValid()`: the three early returns of the model method, in order. */
  function IsValid(c: Code, now: Time): (r: bool)
    ensures r <==>
      && c.isActive
      && (c.startTime.None? || now >= c.startTime.value)
      && (c.endTime.None? || now <= c.endTime.value)
  {
    if !c.isActive then false
    else if c.startTime.Some? && now < c.startTime.value then false
    else if c.endTime.Some? && now > c.endTime.value then false
    else true
  }

  /** A disabled code is never valid, whatever its window. */
  lemma InactiveNeverValid(c: Code, now: Time)
    requires !c.isActive
    ensures !IsValid(c, now)
  {
  }

  /** An enabled code without a window is valid at every instant. */
  lemma UnboundedAlwaysValid(c: Code, now: Time)
    requires c.isActive && c.startTime.None? && c.endTime.None?
    ensures IsValid(c, now)
  {
  }

  /** Both bounds are inclusive: `lt`/`gt` are strict comparisons. */
  lemma WindowBoundsInclusive(c: Code, start: Time, end: Time)
    requires c.isActive && c.startTime == Some(start) && c.endTime == Some(end) && start <= end
    ensures IsValid(c, start) && IsValid(c, end)
    ensures !IsValid(c, start - 1) && !IsValid(c, end + 1)
  {
  }

  /** The row after `recordUsage()`: one more use, last used now; every other
      column as it was. */
  function WithUsage(c: Code, now: Time): (r: Code)
    ensures r.usedCount == c.usedCount + 1
    ensures r.lastUsedAt == Some(now)
    ensures r.(usedCount := c.usedCount, lastUsedAt := c.lastUsedAt) == c
  {
    c.(usedCount := c.usedCount + 1, lastUsedAt := Some(now))
  }

  /** Recording a use does not change whether the code is valid. */
  lemma UsageKeepsValidity(c: Code, now: Time, at: Time)
    ensures IsValid(WithUsage(c, now), at) == IsValid(c, at)
  {
  }

  /** `generateCode(length)`: `bin2hex(random_bytes($length / 2))`.  The
      random bytes are an input; PHP's `/` on an odd length yields a float that
      `random_bytes` truncates, hence `length / 2` bytes. */
  function GenerateCode(length: nat, random: seq<Hex.byte>): (r: string)
    requires length >= 2 && |random| == length / 2
    ensures |r| == 2 * (length / 2)
    ensures length % 2 == 0 ==> |r| == length
    ensures Hex.IsHexString(r)
    ensures Hex.Decode(r) == random
  {
    Hex.DecodeEncode(random);
    Hex.Encode(random)
  }

  /** A generated default code is 32 lower-case hex digits. */
  lemma DefaultCodeShape(random: seq<Hex.byte>)
    requires |random| == DefaultCodeLength / 2
    ensures |GenerateCode(DefaultCodeLength, random)| == 32
    ensures Hex.IsHexString(GenerateCode(DefaultCodeLength, random))
  {
  }

  /** Position of the row with primary key `id` (`findOrFail`, route binding). */
  function CodeIndex(codes: seq<Code>, id: nat): (r: Option<nat>)
    ensures r.Some? ==> r.value < |codes| && codes[r.value].id == id
    ensures r.None? <==> forall j :: 0 <= j < |codes| ==> codes[j].id != id
  {
    FirstIndex(codes, (c: Code) => c.id == id)
  }

  /** Position of the first row whose token equals `value`
      (`AuthorizationCode::where('code', $value)->first()`). */
  function CodeByValue(codes: seq<Code>, value: string): (r: Option<nat>)
    ensures r.Some? ==> r.value < |codes| && codes[r.value].code == value
    ensures r.Some? ==> forall j :: 0 <= j < r.value ==> codes[j].code != value
    ensures r.None? <==> forall j :: 0 <= j < |codes| ==> codes[j].code != value
  {
    FirstIndex(codes, (c: Code) => c.code == value)
  }

  /** The primary keys present in the table. */
  function CodeIds(codes: seq<Code>): set<nat> {
    set j | 0 <= j < |codes| :: codes[j].id
  }

  /** Primary keys in increasing order, as the table stores them. */
  predicate IdsIncreasing(codes: seq<Code>) {
    forall i, j :: 0 <= i < j < |codes| ==> codes[i].id < codes[j].id
  }

  /** The `unique()` index on `code`. */
  predicate ValuesUnique(codes: seq<Code>) {
    forall i, j :: 0 <= i < j < |codes| ==> codes[i].code != codes[j].code
  }

  /** With increasing keys, a present key is found exactly where it is. */
  lemma CodeIndexAt(codes: seq<Code>, j: nat)
    requires IdsIncreasing(codes) && j < |codes|
    ensures CodeIndex(codes, codes[j].id) == Some(j)
  {
  }

  /** With unique tokens, a present token is found exactly where it is. */
  lemma CodeByValueAt(codes: seq<Code>, j: nat)
    requires ValuesUnique(codes) && j < |codes|
    ensures CodeByValue(codes, codes[j].code) == Some(j)
  {
  }
}
