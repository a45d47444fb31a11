/** The `Map<string, Row>` getCombinedData fills: a key-to-row table that remembers the order
    in which its keys were first set. */
module RowTables {
  import opened Wrappers
  import opened Attendance

  class RowTable {
    /** The keys in insertion order, as map.values() walks them. */
    var order: seq<string>
    var rows: map<string, Row>

    /** Each key is listed once, and exactly the keys of rows are listed. */
    ghost predicate Valid()
      reads this
    {
      && (forall i, j | 0 <= i < j < |order| :: order[i] != order[j])
      && (forall k :: k in rows <==> k in order)
    }

    /** `new Map()`. */
    constructor ()
      ensures Valid() && order == [] && rows == map[]
    {
      order := [];
      rows := map[];
    }

    /** map.get(key): the row stored under key, or None (undefined) when there is none. */
    method Get(key: string) returns (r: Option<Row>)
      requires Valid()
      ensures r.Some? <==> key in order
      ensures r.Some? ==> r.value == rows[key]
    {
      if key in rows {
        r := Some(rows[key]);
      } else {
        r := None;
      }
    }

    /** map.set(key, row): a new key goes to the end of the order; setting a key already
        present replaces its row and leaves its place in the order. */
    method Set(key: string, row: Row)
      requires Valid()
      modifies this
      ensures Valid()
      ensures rows == old(rows)[key := row]
      ensures order == if key in old(rows) then old(order) else old(order) + [key]
    {
      if key !in rows {
        order := order + [key];
      }
      rows := rows[key := row];
    }

    /** Array.from(map.values()): the rows in the insertion order of their keys. */
    method Values() returns (vs: seq<Row>)
      requires Valid()
      ensures |vs| == |order|
      ensures forall i | 0 <= i < |order| :: vs[i] == rows[order[i]]
    {
      vs := [];
      var i := 0;
      while i < |order|
        invariant 0 <= i <= |order|
        invariant |vs| == i
        invariant forall j | 0 <= j < i :: vs[j] == rows[order[j]]
      {
        vs := vs + [rows[order[i]]];
        i := i + 1;
      }
    }
  }
}
