/** The filter half of getCombinedData: a case-insensitive name search and an action filter
    applied to the grouped rows. */
module RowFilter {
  import opened Wrappers
  import opened Text
  import opened Attendance

  /** The action filter select: 'all' | 'entry' | 'exit'. */
  datatype ActionFilter = All | EntryOnly | ExitOnly

  /** JavaScript truthiness of an optional string: present and not empty. */
  predicate Truthy(s: Option<string>)
  {
    s.Some? && s.value != ""
  }

  /** The filter callback: drop the row when a non-empty name filter is not contained in the
      lower-cased name, when 'entry' is chosen and the entry is falsy, or when 'exit' is chosen
      and the exit is falsy; keep it otherwise. */
  predicate Keep(r: Row, nameFilter: string, actionFilter: ActionFilter)
  {
    if nameFilter != "" && !Includes(Lower(r.name), Lower(nameFilter)) then false
    else if actionFilter == EntryOnly && !Truthy(r.entry) then false
    else if actionFilter == ExitOnly && !Truthy(r.exit) then false
    else true
  }

  /** xs is obtained from ys by deleting elements, without reordering the rest. */
  predicate IsSubsequence(xs: seq<Row>, ys: seq<Row>)
    decreases |ys|
  {
    if xs == [] then true
    else if ys == [] then false
    else (xs[0] == ys[0] && IsSubsequence(xs[1..], ys[1..])) || IsSubsequence(xs, ys[1..])
  }

  /** rows.filter(Keep): the rows that pass, in their order. */
  function FilterRows(rows: seq<Row>, nameFilter: string, actionFilter: ActionFilter): (kept: seq<Row>)
    ensures IsSubsequence(kept, rows)
    ensures forall r :: r in kept <==> r in rows && Keep(r, nameFilter, actionFilter)
    ensures forall r :: multiset(kept)[r] == if Keep(r, nameFilter, actionFilter) then multiset(rows)[r] else 0
  {
    if rows == [] then []
    else
      var rest := FilterRows(rows[1..], nameFilter, actionFilter);
      assert rows == [rows[0]] + rows[1..];
      assert multiset(rows) == multiset([rows[0]]) + multiset(rows[1..]);
      assert forall r :: r in rows <==> r == rows[0] || r in rows[1..];
      if Keep(rows[0], nameFilter, actionFilter) then
        assert ([rows[0]] + rest)[1..] == rest;
        [rows[0]] + rest
      else rest
  }

  /** A row passes the filter exactly when all three conditions hold. */
  lemma KeepConditions(r: Row, nameFilter: string, actionFilter: ActionFilter)
    ensures Keep(r, nameFilter, actionFilter) <==>
      && (nameFilter == "" || exists i: nat :: OccursAt(Lower(r.name), Lower(nameFilter), i))
      && (actionFilter == EntryOnly ==> Truthy(r.entry))
      && (actionFilter == ExitOnly ==> Truthy(r.exit))
  {
  }

  /** The name search ignores the case of ASCII letters on both sides. */
  lemma KeepIgnoresCase(r: Row, nameFilter: string, actionFilter: ActionFilter)
    ensures Keep(r, nameFilter, actionFilter) == Keep(r.(name := Lower(r.name)), Lower(nameFilter), actionFilter)
  {
    LowerIdempotent(r.name);
    LowerIdempotent(nameFilter);
  }

  /** With an empty name filter and 'all', the filter returns the grouped rows unchanged. */
  lemma {:induction false} FilterAllIsIdentity(rows: seq<Row>)
    ensures FilterRows(rows, "", All) == rows
  {
    if rows != [] {
      FilterAllIsIdentity(rows[1..]);
      assert [rows[0]] + rows[1..] == rows;
    }
  }
}
