/**
 * The `channels` table (main.py:56-71) and the two operations on it: `upsert_channel`
 * (main.py:113-131) and the `ORDER BY last_used_at DESC` query of `list_channels`
 * (main.py:207-216).  The table is a map from channel id to its row; timestamps are a clock
 * value passed in by the caller.
 */
module ChannelCache {
  import opened Wrappers

  /** One row of `channels`, without its key. */
  datatype Channel = Channel(
    title: Option<string>,
    thumbnail: Option<string>,
    savedAt: int,
    lastUsedAt: int
  )

  /** One entry of the `/channels` response: a row with its key, under the query's column aliases. */
  datatype ListedChannel = ListedChannel(
    channelId: string,
    channelTitle: Option<string>,
    thumbnail: Option<string>,
    savedAt: int,
    lastUsedAt: int
  )

  function Listed(id: string, c: Channel): ListedChannel {
    ListedChannel(id, c.title, c.thumbnail, c.savedAt, c.lastUsedAt)
  }

  /** `not ch_id`: the id is `None` or the empty string. */
  predicate IsBlank(id: Option<string>) {
    id.None? || id.value == ""
  }

  /** Every row was first saved no later than it was last used. */
  ghost predicate SavedBeforeUsed(rows: map<string, Channel>) {
    forall id :: id in rows ==> rows[id].savedAt <= rows[id].lastUsedAt
  }

  /** No row was used later than `now`. */
  ghost predicate UsedNoLaterThan(rows: map<string, Channel>, now: int) {
    forall id :: id in rows ==> rows[id].lastUsedAt <= now
  }

  /**
   * The table after `upsert_channel(id, title, thumb)` at time `now`.  A blank id changes
   * nothing.  Otherwise the row for `id` exists afterwards and was last used at `now`; it
   * keeps its first-saved time if it existed and is saved at `now` if it is new; its title
   * and thumbnail become the new values where those are not `None` and stay as they were
   * (or `None` for a new row) where they are.  Every other row is untouched.
   */
  function Upserted(rows: map<string, Channel>, id: Option<string>, title: Option<string>,
                    thumb: Option<string>, now: int): (r: map<string, Channel>)
    ensures IsBlank(id) ==> r == rows
    ensures !IsBlank(id) ==> r.Keys == rows.Keys + {id.value}
    ensures !IsBlank(id) ==> r[id.value].lastUsedAt == now
    ensures !IsBlank(id) ==>
              r[id.value].savedAt == if id.value in rows then rows[id.value].savedAt else now
    ensures !IsBlank(id) && title.Some? ==> r[id.value].title == title
    ensures !IsBlank(id) && title.None? ==>
              r[id.value].title == if id.value in rows then rows[id.value].title else None
    ensures !IsBlank(id) && thumb.Some? ==> r[id.value].thumbnail == thumb
    ensures !IsBlank(id) && thumb.None? ==>
              r[id.value].thumbnail == if id.value in rows then rows[id.value].thumbnail else None
    ensures forall k :: k in rows && (IsBlank(id) || k != id.value) ==> k in r && r[k] == rows[k]
  {
    if IsBlank(id) then rows
    else if id.value in rows then
      var prev := rows[id.value];
      rows[id.value := Channel(Coalesce(title, prev.title), Coalesce(thumb, prev.thumbnail),
                               prev.savedAt, now)]
    else
      rows[id.value := Channel(title, thumb, now, now)]
  }

  /**
   * With a clock that never goes back, upserting keeps every row's first-saved time no
   * later than its last-used time, and leaves no row used later than `now`.
   */
  lemma UpsertKeepsTimestampOrder(rows: map<string, Channel>, id: Option<string>,
                                  title: Option<string>, thumb: Option<string>, now: int)
    requires SavedBeforeUsed(rows) && UsedNoLaterThan(rows, now)
    ensures var r := Upserted(rows, id, title, thumb, now);
            SavedBeforeUsed(r) && UsedNoLaterThan(r, now)
  {
  }

  /**
   * Upserting the same channel twice with the same values leaves one row that differs from
   * the first result only in its last-used time, which is the second call's.
   */
  lemma UpsertTwice(rows: map<string, Channel>, id: Option<string>, title: Option<string>,
                    thumb: Option<string>, now1: int, now2: int)
    requires !IsBlank(id)
    ensures var once := Upserted(rows, id, title, thumb, now1);
            var twice := Upserted(once, id, title, thumb, now2);
            twice.Keys == once.Keys &&
            twice == once[id.value := once[id.value].(lastUsedAt := now2)]
  {
  }

  /**
   * The channel cache.  `rows` is the `channels` table; the object stands for the database
   * file that every request opens.
   */
  class ChannelTable {
    var rows: map<string, Channel>

    /** A freshly created, empty table (`init_db`). */
    constructor ()
      ensures rows == map[]
    {
      rows := map[];
    }

    /**
     * `upsert_channel`: look the id up, then update the existing row with `COALESCE` or
     * insert a new one.
     */
    method Upsert(id: Option<string>, title: Option<string>, thumb: Option<string>, now: int)
      modifies this
      ensures rows == Upserted(old(rows), id, title, thumb, now)
    {
      if IsBlank(id) {
        return;
      }
      var key := id.value;
      if key in rows {
        var row := rows[key];
        rows := rows[key := Channel(Coalesce(title, row.title), Coalesce(thumb, row.thumbnail),
                                    row.savedAt, now)];
      } else {
        rows := rows[key := Channel(title, thumb, now, now)];
      }
    }

    /**
     * `list_channels`: every row exactly once, most recently used first.  Rows with equal
     * `last_used_at` come in no particular order, as SQL leaves them.
     */
    method List() returns (out: seq<ListedChannel>)
      ensures IsListing(rows, out)
    {
      var keys := KeysByRecency(LastUsed(rows));
      ListedInOrder(rows, keys);
      out := Select(rows, keys);
    }
  }

  /** Most recently used first. */
  ghost predicate ByRecency(out: seq<ListedChannel>) {
    forall i, j :: 0 <= i < j < |out| ==> out[i].lastUsedAt >= out[j].lastUsedAt
  }

  /**
   * `out` is what `list_channels` may answer for `rows`: every row exactly once, under its
   * own id, most recently used first.
   */
  ghost predicate IsListing(rows: map<string, Channel>, out: seq<ListedChannel>) {
    CoversRows(rows, out) && OwnRowsInOrder(rows, out)
  }

  /** As many entries as rows, and every row among them. */
  ghost predicate CoversRows(rows: map<string, Channel>, out: seq<ListedChannel>) {
    && |out| == |rows|
    && (forall id :: id in rows ==> exists i :: 0 <= i < |out| && out[i].channelId == id)
  }

  /** Each entry is its own row, no row comes twice, most recently used first. */
  ghost predicate OwnRowsInOrder(rows: map<string, Channel>, out: seq<ListedChannel>) {
    && (forall i :: 0 <= i < |out| ==>
          out[i].channelId in rows && out[i] == Listed(out[i].channelId, rows[out[i].channelId]))
    && (forall i, j :: 0 <= i < j < |out| ==> out[i].channelId != out[j].channelId)
    && ByRecency(out)
  }

  /** The selected columns of the rows with the given `keys`, in that order. */
  function Select(rows: map<string, Channel>, keys: seq<string>): (out: seq<ListedChannel>)
    requires forall i :: 0 <= i < |keys| ==> keys[i] in rows
    ensures |out| == |keys|
    ensures forall i :: 0 <= i < |keys| ==> out[i] == Listed(keys[i], rows[keys[i]])
  {
    if keys == [] then [] else [Listed(keys[0], rows[keys[0]])] + Select(rows, keys[1..])
  }

  /**
   * Selecting each row's columns in the order of `keys`, a recency order of the table's
   * `last_used_at` column, gives a listing of the table.
   */
  lemma ListedInOrder(rows: map<string, Channel>, keys: seq<string>)
    requires IsRecencyOrder(LastUsed(rows), keys)
    ensures forall i :: 0 <= i < |keys| ==> keys[i] in rows
    ensures IsListing(rows, Select(rows, keys))
  {
    SelectCoversRows(rows, keys);
    SelectKeepsOrder(rows, keys);
  }

  /** Every row of the table is selected, and there are as many entries as rows. */
  lemma SelectCoversRows(rows: map<string, Channel>, keys: seq<string>)
    requires IsRecencyOrder(LastUsed(rows), keys)
    ensures forall i :: 0 <= i < |keys| ==> keys[i] in rows
    ensures CoversRows(rows, Select(rows, keys))
  {
    var out := Select(rows, keys);
    forall id | id in rows
      ensures exists i :: 0 <= i < |out| && out[i].channelId == id
    {
      assert id in LastUsed(rows);
      var i :| 0 <= i < |keys| && keys[i] == id;
      assert out[i].channelId == id;
    }
  }

  /** Each entry is its own row, no row comes twice, and the entries are most recent first. */
  lemma SelectKeepsOrder(rows: map<string, Channel>, keys: seq<string>)
    requires IsRecencyOrder(LastUsed(rows), keys)
    ensures forall i :: 0 <= i < |keys| ==> keys[i] in rows
    ensures OwnRowsInOrder(rows, Select(rows, keys))
  {
    var out := Select(rows, keys);
    var recency := LastUsed(rows);
    forall i | 0 <= i < |out|
      ensures keys[i] in rows && out[i] == Listed(keys[i], rows[keys[i]])
      ensures out[i].channelId == keys[i] && out[i].lastUsedAt == recency[keys[i]]
    {
    }
    forall i, j | 0 <= i < j < |out|
      ensures out[i].channelId != out[j].channelId && out[i].lastUsedAt >= out[j].lastUsedAt
    {
    }
  }

  /**
   * With a clock that never goes back, a channel just upserted is listed ahead of every
   * channel except those used at the very same time.
   */
  lemma JustUsedListedFirst(rows: map<string, Channel>, id: string, title: Option<string>,
                            thumb: Option<string>, now: int, out: seq<ListedChannel>)
    requires UsedNoLaterThan(rows, now) && id != ""
    requires IsListing(Upserted(rows, Some(id), title, thumb, now), out)
    ensures exists i :: 0 <= i < |out| && out[i].channelId == id
    ensures forall i, j :: 0 <= i < |out| && 0 <= j < i && out[i].channelId == id ==> out[j].lastUsedAt == now
  {
    var r := Upserted(rows, Some(id), title, thumb, now);
    UpsertUsedNoLater(rows, Some(id), title, thumb, now);
    ListedAfterLatest(r, out, id, now);
  }

  /**
   * In a listing, a row used at the latest time `now` is listed, and only rows used at
   * `now` as well come before it.
   */
  lemma ListedAfterLatest(rows: map<string, Channel>, out: seq<ListedChannel>, id: string, now: int)
    requires IsListing(rows, out) && UsedNoLaterThan(rows, now)
    requires id in rows && rows[id].lastUsedAt == now
    ensures exists i :: 0 <= i < |out| && out[i].channelId == id
    ensures forall i, j :: 0 <= i < |out| && 0 <= j < i && out[i].channelId == id ==> out[j].lastUsedAt == now
  {
    forall i, j | 0 <= i < |out| && 0 <= j < i && out[i].channelId == id
      ensures out[j].lastUsedAt == now
    {
      assert out[j].lastUsedAt >= out[i].lastUsedAt == now;
      assert out[j].lastUsedAt == rows[out[j].channelId].lastUsedAt;
    }
  }

  /** Upserting at `now` leaves no row used later than `now`. */
  lemma UpsertUsedNoLater(rows: map<string, Channel>, id: Option<string>,
                          title: Option<string>, thumb: Option<string>, now: int)
    requires UsedNoLaterThan(rows, now)
    ensures UsedNoLaterThan(Upserted(rows, id, title, thumb, now), now)
  {
  }

  /** The `last_used_at` column, by channel id. */
  function LastUsed(table: map<string, Channel>): (r: map<string, int>)
    ensures r.Keys == table.Keys && |r| == |table|
    ensures forall id :: id in table ==> r[id] == table[id].lastUsedAt
  {
    var r := map id | id in table :: table[id].lastUsedAt;
    assert r.Keys == table.Keys;
    assert |r| == |r.Keys| == |table.Keys| == |table|;
    r
  }

  /**
   * `keys` lists the keys of `recency` in non-increasing order of their values, each
   * exactly once.
   */
  ghost predicate IsRecencyOrder<K>(recency: map<K, int>, keys: seq<K>) {
    && |keys| == |recency|
    && (forall k :: k in recency ==> exists i :: 0 <= i < |keys| && keys[i] == k)
    && (forall i :: 0 <= i < |keys| ==> keys[i] in recency)
    && (forall i, j :: 0 <= i < j < |keys| ==> keys[i] != keys[j])
    && (forall i, j :: 0 <= i < j < |keys| ==> recency[keys[i]] >= recency[keys[j]])
  }

  /**
   * The keys of `recency` in decreasing order of their values, each exactly once.  Keys with
   * equal values come in no particular order.
   */
  method KeysByRecency<K>(recency: map<K, int>) returns (keys: seq<K>)
    ensures IsRecencyOrder(recency, keys)
  {
    keys := [];
    var rest := recency.Keys;
    ghost var at: map<K, nat> := map[];
    while rest != {}
      invariant PartialOrder(recency, keys, rest, at)
      invariant |keys| + |rest| == |recency|
      decreases |rest|
    {
      MostRecentExists(recency, rest);
      var next :| next in rest && forall k :: k in rest ==> recency[k] <= recency[next];
      TakeMostRecent(recency, keys, rest, at, next);
      at := at[next := |keys|];
      keys := keys + [next];
      rest := rest - {next};
    }
    forall k | k in recency
      ensures exists i :: 0 <= i < |keys| && keys[i] == k
    {
      assert keys[at[k]] == k;
    }
  }

  /**
   * Half-way through ordering `recency`: `keys` holds the keys in `at`, with `at[k]` the
   * position of `k`, in decreasing order of value, and no key still in `rest` has a larger
   * value than any key already placed.
   */
  ghost predicate PartialOrder<K>(recency: map<K, int>, keys: seq<K>, rest: set<K>, at: map<K, nat>) {
    && rest <= recency.Keys && at.Keys !! rest && at.Keys + rest == recency.Keys
    && (forall k :: k in at ==> at[k] < |keys| && keys[at[k]] == k)
    && (forall i :: 0 <= i < |keys| ==> keys[i] in at && at[keys[i]] == i)
    && (forall i, j :: 0 <= i < j < |keys| ==> recency[keys[i]] >= recency[keys[j]])
    && (forall i, k :: 0 <= i < |keys| && k in rest ==> recency[keys[i]] >= recency[k])
  }

  /** Placing a key of largest value among the rest next keeps the order partial. */
  lemma TakeMostRecent<K>(recency: map<K, int>, keys: seq<K>, rest: set<K>, at: map<K, nat>, next: K)
    requires PartialOrder(recency, keys, rest, at)
    requires next in rest && forall k :: k in rest ==> recency[k] <= recency[next]
    ensures PartialOrder(recency, keys + [next], rest - {next}, at[next := |keys|])
  {
  }

  /** Some key of a non-empty `keys` has a value no smaller than any other key's. */
  lemma {:induction false} MostRecentExists<K>(rows: map<K, int>, keys: set<K>)
    requires keys != {} && keys <= rows.Keys
    ensures exists best :: best in keys && forall k :: k in keys ==> rows[k] <= rows[best]
    decreases |keys|
  {
    var x :| x in keys;
    var rest := keys - {x};
    if rest != {} {
      MostRecentExists(rows, rest);
      var best :| best in rest &&
                  forall k :: k in rest ==> rows[k] <= rows[best];
      if rows[x] > rows[best] {
        assert forall k :: k in keys ==> rows[k] <= rows[x];
      } else {
        assert forall k :: k in keys ==> rows[k] <= rows[best];
      }
    } else {
      assert keys == {x};
    }
  }
}
