/**
 * The `RefreshTokens` table: rows keyed by their token value, each naming
 * its owner and an absolute expiry (in seconds).
 */
module RefreshTokens {
  import opened Wrappers

  /** `DateTime.UtcNow.AddDays(7)`: a refresh token lives seven days. */
  const RefreshLifetime: int := 7 * 24 * 60 * 60

  /** The non-key columns of a row: `UserId` and `Expires`. */
  datatype RefreshRow = RefreshRow(userId: string, expires: int)

  /** The table, keyed by the `[Key] Token` column. */
  type Store = map<string, RefreshRow>

  /** `after` is `before` with exactly one new row `row` under the new key
      `key`; every row of `before` is still there, unchanged. */
  ghost predicate AddsRow(before: Store, after: Store, key: string, row: RefreshRow)
  {
    && key !in before
    && after.Keys == before.Keys + {key}
    && after[key] == row
    && forall k :: k in before ==> after[k] == before[k]
  }

  datatype StoreFault = DuplicateKey

  /** `RefreshTokens.Add(row)` followed by `SaveChangesAsync()`: a key that
      is already present violates the primary key and nothing is written. */
  function Insert(store: Store, key: string, row: RefreshRow): (r: Result<Store, StoreFault>)
    ensures r.Ok? <==> key !in store
    ensures r.Ok? ==> AddsRow(store, r.value, key, row) && |r.value| == |store| + 1
  {
    if key in store then Err(DuplicateKey) else Ok(store[key := row])
  }

  /** `FindAsync(key)`: the row stored under exactly this key, if any. */
  function Find(store: Store, key: string): (r: Option<RefreshRow>)
    ensures r.Some? <==> key in store
    ensures r.Some? ==> r.value == store[key]
  {
    if key in store then Some(store[key]) else None
  }

  /** A presented key passes the refresh check at `now` when its row exists
      and `Expires < now` does not hold: a row is still accepted at the very
      instant it expires. */
  predicate Usable(store: Store, key: string, now: int)
  {
    key in store && !(store[key].expires < now)
  }

  /** No row outlives `now` by more than one refresh lifetime. */
  ghost predicate Bounded(store: Store, now: int)
  {
    forall k :: k in store ==> store[k].expires <= now + RefreshLifetime
  }

  /** A key usable at `now` is usable at every earlier time and at every
      later time up to and including its expiry, and at no time after. */
  lemma UsableWindow(store: Store, key: string, now: int, later: int)
    requires Usable(store, key, now)
    ensures Usable(store, key, later) <==> later <= store[key].expires
  {
  }

  /** Bounded at one time is bounded at every later time. */
  lemma BoundedLater(store: Store, now: int, later: int)
    requires Bounded(store, now) && now <= later
    ensures Bounded(store, later)
  {
  }

  /** Inserting a row that expires one lifetime after `now` keeps the store
      bounded at `now`, and it can then be presented until it expires. */
  lemma InsertBounded(store: Store, key: string, userId: string, now: int)
    requires Bounded(store, now) && key !in store
    ensures Insert(store, key, RefreshRow(userId, now + RefreshLifetime)).Ok?
    ensures var s := Insert(store, key, RefreshRow(userId, now + RefreshLifetime)).value;
      Bounded(s, now) && Usable(s, key, now + RefreshLifetime) && !Usable(s, key, now + RefreshLifetime + 1)
  {
  }
}
