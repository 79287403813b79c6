/** The in-memory record store (class `Database`): a map from table name to
    the table's records in insertion order. The queries are functions of the
    current map; the mutations reassign the map and log one snapshot write
    each time the store persists. */
module Store {
  import opened Records
  import opened Seqs

  // ---------------------------------------------------------------------------
  // Queries over one table

  /** The index of the first record holding `id`, or -1 when none does
      (`data.findIndex(item => item.id === id)`). */
  function FindIndex(rows: seq<Record>, id: string): (i: int)
    ensures -1 <= i < |rows|
    ensures i == -1 <==> forall j :: 0 <= j < |rows| ==> !HasId(rows[j], id)
    ensures 0 <= i ==> HasId(rows[i], id) && forall j :: 0 <= j < i ==> !HasId(rows[j], id)
  {
    if rows == [] then -1
    else if HasId(rows[0], id) then 0
    else
      var k := FindIndex(rows[1..], id);
      if k == -1 then -1 else k + 1
  }

  /** Some record of `rows` carries `id`. */
  predicate HasIdIn(rows: seq<Record>, id: string) {
    exists j :: 0 <= j < |rows| && HasId(rows[j], id)
  }

  /** The first record holding `id`, if any (`data.find(item => item.id === id)`). */
  function Find(rows: seq<Record>, id: string): (r: Option<Record>)
    ensures r.None? <==> !HasIdIn(rows, id)
    ensures r.Some? ==> exists i :: 0 <= i < |rows| && rows[i] == r.value && HasId(r.value, id)
                                    && forall j :: 0 <= j < i ==> !HasId(rows[j], id)
  {
    var i := FindIndex(rows, id);
    if i == -1 then None else Some(rows[i])
  }

  /** The row matches the search object when at least one of its entries
      names a string field of the row that contains the entry's value,
      ignoring case (`row[key].toLowerCase().includes(value.toLowerCase())`
      inside `some`). An empty search object matches nothing. */
  predicate Matches(row: Record, search: map<string, string>)
    ensures search == map[] ==> !Matches(row, search)
    ensures Matches(row, search) ==> exists key :: key in search && key in row && row[key].Str?
  {
    exists key :: key in search && key in row && row[key].Str? && ContainsIgnoringCase(row[key].s, search[key])
  }

  function MatchesSearch(search: map<string, string>): Record -> bool {
    row => Matches(row, search)
  }

  /** Every searched field is a string on every row (`row[key].toLowerCase()`
      throws on a missing or null field). */
  predicate Searchable(rows: seq<Record>, keys: set<string>) {
    forall j, key :: 0 <= j < |rows| && key in keys ==> key in rows[j] && rows[j][key].Str?
  }

  /** An empty search object matches no row (`some` over no entries is false). */
  lemma EmptySearchMatchesNothing(rows: seq<Record>)
    ensures Filter(rows, MatchesSearch(map[])) == []
  {
    FilterDropsAll(rows, MatchesSearch(map[]));
  }

  // ---------------------------------------------------------------------------
  // Table transitions

  /** The record after an update: the new fields over the old ones, then the
      update time (`{ ...current, ...newData, updated_at: now }`). */
  function Merge(current: Record, newData: Record, now: Timestamp): (r: Record)
    ensures r.Keys == current.Keys + newData.Keys + {"updated_at"}
    ensures r["updated_at"] == Str(now)
    ensures forall k :: k in newData && k != "updated_at" ==> r[k] == newData[k]
    ensures forall k :: k in current && k !in newData && k != "updated_at" ==> r[k] == current[k]
  {
    current + newData + map["updated_at" := Str(now)]
  }

  /** The table after `update(table, id, newData)`: the first record holding
      `id` is replaced by its merge with `newData`; nothing happens without one. */
  function UpdatedRows(rows: seq<Record>, id: string, newData: Record, now: Timestamp): (r: seq<Record>)
    ensures |r| == |rows|
    ensures FindIndex(rows, id) == -1 ==> r == rows
    ensures forall j :: 0 <= j < |rows| && j != FindIndex(rows, id) ==> r[j] == rows[j]
    ensures 0 <= FindIndex(rows, id) ==> r[FindIndex(rows, id)] == Merge(rows[FindIndex(rows, id)], newData, now)
  {
    var i := FindIndex(rows, id);
    if i == -1 then rows else rows[i := Merge(rows[i], newData, now)]
  }

  function LacksId(id: string): Record -> bool {
    row => !HasId(row, id)
  }

  /** The table after `delete(table, id)`: `data.filter(item => item.id !== id)`. */
  function WithoutId(rows: seq<Record>, id: string): (r: seq<Record>)
    ensures SubseqOf(r, rows)
    ensures forall x :: x in r <==> x in rows && !HasId(x, id)
    ensures |r| == |rows| - Count(rows, row => HasId(row, id))
  {
    CountSplit(rows, LacksId(id), row => HasId(row, id));
    FilterKeepsPassing(rows, LacksId(id));
    Filter(rows, LacksId(id))
  }

  /** When ids are unique, deleting a present id removes exactly the one
      record at its index and keeps the rest in order. */
  lemma DeleteRemovesOne(rows: seq<Record>, id: string)
    requires forall j, k :: 0 <= j < k < |rows| ==> !(HasId(rows[j], id) && HasId(rows[k], id))
    requires 0 <= FindIndex(rows, id)
    ensures var i := FindIndex(rows, id); WithoutId(rows, id) == rows[..i] + rows[i + 1..]
  {
    FilterRemovesOne(rows, LacksId(id), FindIndex(rows, id));
  }

  /** Updating by id never changes which records carry which id, so long as
      the merged fields do not include `id`. */
  lemma UpdateKeepsIds(rows: seq<Record>, id: string, newData: Record, now: Timestamp, other: string)
    requires "id" !in newData
    ensures forall j :: 0 <= j < |rows| ==> (HasId(UpdatedRows(rows, id, newData, now)[j], other) <==> HasId(rows[j], other))
    ensures FindIndex(UpdatedRows(rows, id, newData, now), other) == FindIndex(rows, other)
  {
    var r := UpdatedRows(rows, id, newData, now);
    assert forall j :: 0 <= j < |rows| ==> (HasId(r[j], other) <==> HasId(rows[j], other));
    FindIndexAgrees(r, rows, other);
  }

  /** Two tables that hold `id` at the same indices agree on its first index. */
  lemma {:induction false} FindIndexAgrees(a: seq<Record>, b: seq<Record>, id: string)
    requires |a| == |b|
    requires forall j :: 0 <= j < |a| ==> (HasId(a[j], id) <==> HasId(b[j], id))
    ensures FindIndex(a, id) == FindIndex(b, id)
  {
    if a != [] && !HasId(a[0], id) {
      FindIndexAgrees(a[1..], b[1..], id);
    }
  }

  /** A record appended under an id the table does not hold is what `find` returns for it. */
  lemma FindAfterAppend(rows: seq<Record>, x: Record, id: string)
    requires !HasIdIn(rows, id) && HasId(x, id)
    ensures FindIndex(rows + [x], id) == |rows|
    ensures Find(rows + [x], id) == Some(x)
  {
    var s := rows + [x];
    assert forall j :: 0 <= j < |rows| ==> s[j] == rows[j];
    assert HasId(s[|rows|], id);
  }

  // ---------------------------------------------------------------------------
  // The store

  class Database {
    /** `#database`: table name to the table's records, in insertion order. */
    var tables: map<string, seq<Record>>
    /** The snapshots handed to `#persist`, oldest first (the file writes are not modelled). */
    ghost var persisted: seq<map<string, seq<Record>>>

    /** A store that holds nothing and has persisted nothing. */
    constructor ()
      ensures tables == map[] && persisted == []
    {
      tables := map[];
      persisted := [];
    }

    /** The records of `table`, or none when the store has no such table
        (`this.#database[table] ?? []`). */
    function Rows(table: string): (r: seq<Record>)
      reads this
      ensures table in tables ==> r == tables[table]
      ensures table !in tables ==> r == []
    {
      if table in tables then tables[table] else []
    }

    /** `select(table, search)`: the whole table without a search object;
        with one, the rows matching at least one of its entries, in table order. */
    function Select(table: string, search: Option<map<string, string>>): (r: seq<Record>)
      reads this
      requires search.Some? ==> Searchable(Rows(table), search.value.Keys)
      ensures search.None? ==> r == Rows(table)
      ensures search.Some? ==> SubseqOf(r, Rows(table))
      ensures search.Some? ==> |r| == Count(Rows(table), MatchesSearch(search.value))
      ensures search.Some? ==> forall x :: x in r <==> x in Rows(table) && Matches(x, search.value)
    {
      match search
      case None => Rows(table)
      case Some(s) =>
        FilterKeepsPassing(Rows(table), MatchesSearch(s));
        Filter(Rows(table), MatchesSearch(s))
    }

    /** `find(table, id)`: the first record of the table holding `id`. */
    function FindIn(table: string, id: string): (r: Option<Record>)
      reads this
      ensures r.None? <==> !HasIdIn(Rows(table), id)
      ensures r.Some? ==> r.value == Rows(table)[FindIndex(Rows(table), id)]
    {
      Find(Rows(table), id)
    }

    /** `insert(table, data)`: appends `data` (creating the table if absent),
        persists, and returns `data`. */
    method Insert(table: string, data: Record) returns (r: Record)
      modifies this
      ensures r == data
      ensures tables == old(tables)[table := old(Rows(table)) + [data]]
      ensures persisted == old(persisted) + [tables]
    {
      var rows := Rows(table);
      tables := tables[table := rows + [data]];
      persisted := persisted + [tables];
      r := data;
    }

    /** `update(table, id, newData)`: merges `newData` and a fresh `updated_at`
        into the first record holding `id` and persists; without such a record
        nothing changes and nothing is persisted. */
    method Update(table: string, id: string, newData: Record, now: Timestamp)
      modifies this
      ensures FindIndex(old(Rows(table)), id) == -1 ==> tables == old(tables) && persisted == old(persisted)
      ensures 0 <= FindIndex(old(Rows(table)), id) ==>
                tables == old(tables)[table := UpdatedRows(old(Rows(table)), id, newData, now)]
                && persisted == old(persisted) + [tables]
    {
      var rows := Rows(table);
      var index := FindIndex(rows, id);
      if index != -1 {
        tables := tables[table := rows[index := Merge(rows[index], newData, now)]];
        persisted := persisted + [tables];
      }
    }

    /** `delete(table, id)`: drops every record holding `id` (an absent table
        becomes an empty one) and persists, even when nothing was dropped. */
    method Delete(table: string, id: string)
      modifies this
      ensures tables == old(tables)[table := WithoutId(old(Rows(table)), id)]
      ensures persisted == old(persisted) + [tables]
    {
      var rows := Rows(table);
      tables := tables[table := WithoutId(rows, id)];
      persisted := persisted + [tables];
    }
  }
}
