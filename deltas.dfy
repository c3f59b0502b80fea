/**
 * Reconciliation of the previous inventory snapshot with the current one
 * (`calculate_deltas`). Rows are matched by a composite key; previous rows come
 * first, in their order, followed by the current rows whose key is new.
 * A previous row whose key disappeared is flagged as dropped; every row that is
 * not dropped has its update date advanced to `today`.
 *
 * The specification is the function `Reconcile`; the method `CalculateDeltas`
 * performs the same steps the script performs on its tables, one column
 * update at a time, and is proved to compute `Reconcile`.
 */
module Deltas {
  import opened Wrappers
  import opened Inventory

  // ---------------------------------------------------------------- specification

  /** The composite identity of a row: its address, a bar, then its environment. */
  function Key(r: Row): string
  {
    r.netAddress + "|" + r.fwNetEnv
  }

  /** The set of keys occurring in a snapshot: every row's key, and nothing else. */
  function Keys(rows: seq<Row>): set<string>
  {
    set r | r in rows :: Key(r)
  }

  /** The rows of `rows` whose key is in `keys`, in their original order. */
  function Select(rows: seq<Row>, keys: set<string>): (sel: seq<Row>)
    ensures |sel| <= |rows|
    ensures forall k :: 0 <= k < |sel| ==> sel[k] in rows && Key(sel[k]) in keys
  {
    if rows == [] then []
    else
      var last := rows[|rows| - 1];
      Select(rows[..|rows| - 1], keys) + (if Key(last) in keys then [last] else [])
  }

  /** A previous row whose key is among the removed keys is flagged as dropped. */
  function MarkRemoved(r: Row, removedKeys: set<string>): Row
  {
    if Key(r) in removedKeys then r.(fwNetDropped := Some(Yes)) else r
  }

  /** A current row entering the inventory: not dropped, added today. */
  function AsNew(r: Row, today: string): Row
  {
    r.(fwNetDropped := Some(NotApplicable), fwNetDateAdded := today)
  }

  /** A row that is not dropped was seen today; a dropped row keeps its date. */
  function RefreshDate(r: Row, today: string): Row
  {
    if r.fwNetDropped == Some(Yes) then r else r.(netUpdDate := today)
  }

  /** A missing dropped flag reads as `N/A`. */
  function FillDropped(r: Row): Row
  {
    if r.fwNetDropped.None? then r.(fwNetDropped := Some(NotApplicable)) else r
  }

  /** The previous snapshot after flagging the removed keys. */
  function Marked(prev: seq<Row>, curr: seq<Row>): seq<Row>
  {
    var removedKeys := Keys(prev) - Keys(curr);
    seq(|prev|, i requires 0 <= i < |prev| => MarkRemoved(prev[i], removedKeys))
  }

  /** The current rows whose key is new, stamped as new, in current order. */
  function NewObjects(prev: seq<Row>, curr: seq<Row>, today: string): seq<Row>
  {
    var selected := Select(curr, Keys(curr) - Keys(prev));
    seq(|selected|, j requires 0 <= j < |selected| => AsNew(selected[j], today))
  }

  /**
   * The reconciled inventory: one row per previous row, then one per current
   * row with a new key, and no row left without a dropped flag.
   */
  function Reconcile(prev: seq<Row>, curr: seq<Row>, today: string): (out: seq<Row>)
    ensures |out| == |prev| + |Select(curr, Keys(curr) - Keys(prev))|
    ensures forall k :: 0 <= k < |out| ==> out[k].fwNetDropped.Some?
  {
    var combined := Marked(prev, curr) + NewObjects(prev, curr, today);
    seq(|combined|, k requires 0 <= k < |combined| => FillDropped(RefreshDate(combined[k], today)))
  }

  // ---------------------------------------------------------------- properties

  /** A row is selected exactly when it occurs in the rows and its key is among the keys. */
  lemma {:induction false} SelectMembership(rows: seq<Row>, keys: set<string>, r: Row)
    ensures r in Select(rows, keys) <==> r in rows && Key(r) in keys
  {
    if rows != [] {
      var init := rows[..|rows| - 1];
      SelectMembership(init, keys, r);
      assert rows == init + [rows[|rows| - 1]];
    }
  }

  /**
   * Duplicates are kept: a row occurs in the selection exactly as often as in
   * the rows when its key is among the keys, and not at all otherwise.
   */
  lemma {:induction false} SelectCount(rows: seq<Row>, keys: set<string>, r: Row)
    ensures multiset(Select(rows, keys))[r] == if Key(r) in keys then multiset(rows)[r] else 0
  {
    if rows != [] {
      var init, last := rows[..|rows| - 1], rows[|rows| - 1];
      SelectCount(init, keys, r);
      assert rows == init + [last];
      assert multiset(rows) == multiset(init) + multiset{last};
    }
  }

  /**
   * Rows that share an address and an environment share a key, and, as long as
   * addresses contain no bar, rows that share a key share both.
   */
  lemma KeyDistinguishes(a: Row, b: Row)
    requires '|' !in a.netAddress && '|' !in b.netAddress
    ensures Key(a) == Key(b) <==> a.netAddress == b.netAddress && a.fwNetEnv == b.fwNetEnv
  {
    if Key(a) == Key(b) {
      var n, m := |a.netAddress|, |b.netAddress|;
      assert Key(a)[n] == '|' && Key(b)[m] == '|';
      assert n == m;
      assert a.netAddress == Key(a)[..n] == Key(b)[..m] == b.netAddress;
      assert a.fwNetEnv == Key(a)[n + 1..] == Key(b)[m + 1..] == b.fwNetEnv;
    }
  }

  /** Selecting by an empty key set selects nothing. */
  lemma {:induction false} SelectNone(rows: seq<Row>)
    ensures Select(rows, {}) == []
  {
    if rows != [] {
      SelectNone(rows[..|rows| - 1]);
    }
  }

  /**
   * Order and provenance: the previous rows come first, in their order, each
   * keeping every column except the dropped flag and the update date (nothing is
   * copied from a matching current row); then come the current rows whose key
   * is new, in current order, each keeping every column except the dropped flag,
   * the date added and the update date.
   */
  lemma ReconcileOrder(prev: seq<Row>, curr: seq<Row>, today: string)
    ensures var out, added := Reconcile(prev, curr, today), Select(curr, Keys(curr) - Keys(prev));
      && |out| == |prev| + |added|
      && (forall i :: 0 <= i < |prev| ==>
            out[i].(fwNetDropped := prev[i].fwNetDropped, netUpdDate := prev[i].netUpdDate) == prev[i])
      && (forall j :: 0 <= j < |added| ==>
            out[|prev| + j].(fwNetDropped := added[j].fwNetDropped, fwNetDateAdded := added[j].fwNetDateAdded,
                             netUpdDate := added[j].netUpdDate) == added[j])
  {
    var out, marked, stamped := Reconcile(prev, curr, today), Marked(prev, curr), NewObjects(prev, curr, today);
    var added := Select(curr, Keys(curr) - Keys(prev));
    assert |out| == |marked| + |stamped|;
    forall i | 0 <= i < |prev|
      ensures out[i].(fwNetDropped := prev[i].fwNetDropped, netUpdDate := prev[i].netUpdDate) == prev[i]
    {
      assert (marked + stamped)[i] == marked[i];
      PreviousRowKept(prev[i], Keys(prev) - Keys(curr), today);
    }
    forall j | 0 <= j < |stamped|
      ensures out[|prev| + j].(fwNetDropped := added[j].fwNetDropped, fwNetDateAdded := added[j].fwNetDateAdded,
                               netUpdDate := added[j].netUpdDate) == added[j]
    {
      var k := |prev| + j;
      assert (marked + stamped)[k] == stamped[j];
      AddedRowKept(added[j], today);
    }
  }

  /** A previous row changes at most its dropped flag and its update date. */
  lemma PreviousRowKept(r: Row, removedKeys: set<string>, today: string)
    ensures var s := FillDropped(RefreshDate(MarkRemoved(r, removedKeys), today));
      s.(fwNetDropped := r.fwNetDropped, netUpdDate := r.netUpdDate) == r
  {
  }

  /** An appended row changes at most its dropped flag, its date added and its update date. */
  lemma AddedRowKept(r: Row, today: string)
    ensures var s := FillDropped(RefreshDate(AsNew(r, today), today));
      s.(fwNetDropped := r.fwNetDropped, fwNetDateAdded := r.fwNetDateAdded, netUpdDate := r.netUpdDate) == r
  {
  }

  /** The appended rows are exactly the current rows whose key the previous snapshot lacks. */
  lemma AddedRows(prev: seq<Row>, curr: seq<Row>, r: Row)
    ensures r in Select(curr, Keys(curr) - Keys(prev)) <==> r in curr && Key(r) !in Keys(prev)
  {
    SelectMembership(curr, Keys(curr) - Keys(prev), r);
  }

  /** Reconciliation keeps each row's key: the k-th row has the key of its origin. */
  lemma ReconcileKeyAt(prev: seq<Row>, curr: seq<Row>, today: string, k: nat)
    requires k < |prev| + |Select(curr, Keys(curr) - Keys(prev))|
    ensures |Reconcile(prev, curr, today)| == |prev| + |Select(curr, Keys(curr) - Keys(prev))|
    ensures Key(Reconcile(prev, curr, today)[k])
         == if k < |prev| then Key(prev[k]) else Key(Select(curr, Keys(curr) - Keys(prev))[k - |prev|])
  {
  }

  /** The reconciled inventory holds exactly the keys of both snapshots. */
  lemma ReconcileKeys(prev: seq<Row>, curr: seq<Row>, today: string)
    ensures Keys(Reconcile(prev, curr, today)) == Keys(prev) + Keys(curr)
  {
    var out := Reconcile(prev, curr, today);
    var added := Select(curr, Keys(curr) - Keys(prev));
    forall key | key in Keys(out)
      ensures key in Keys(prev) + Keys(curr)
    {
      var r :| r in out && Key(r) == key;
      var k :| 0 <= k < |out| && out[k] == r;
      ReconcileKeyAt(prev, curr, today, k);
      if k >= |prev| {
        assert added[k - |prev|] in curr;
      } else {
        assert prev[k] in prev;
      }
    }
    forall key | key in Keys(prev) + Keys(curr)
      ensures key in Keys(out)
    {
      if key in Keys(prev) {
        var r :| r in prev && Key(r) == key;
        var i :| 0 <= i < |prev| && prev[i] == r;
        ReconcileKeyAt(prev, curr, today, i);
        assert out[i] in out;
      } else {
        var r :| r in curr && Key(r) == key;
        SelectMembership(curr, Keys(curr) - Keys(prev), r);
        var j :| 0 <= j < |added| && added[j] == r;
        ReconcileKeyAt(prev, curr, today, |prev| + j);
        assert out[|prev| + j] in out;
      }
    }
  }

  /**
   * The dropped flags: a previous row is `YES` exactly when its key left the
   * inventory or it was already `YES`; a previous row that stays keeps its flag,
   * a missing one becoming `N/A`; every appended row is `N/A` and added today.
   */
  lemma ReconcileDropped(prev: seq<Row>, curr: seq<Row>, today: string)
    ensures var out := Reconcile(prev, curr, today);
      && (forall i :: 0 <= i < |prev| ==>
            (out[i].fwNetDropped == Some(Yes) <==> Key(prev[i]) !in Keys(curr) || prev[i].fwNetDropped == Some(Yes)))
      && (forall i :: 0 <= i < |prev| && Key(prev[i]) in Keys(curr) ==>
            out[i].fwNetDropped == (if prev[i].fwNetDropped.None? then Some(NotApplicable) else prev[i].fwNetDropped))
      && (forall k :: |prev| <= k < |out| ==>
            out[k].fwNetDropped == Some(NotApplicable) && out[k].fwNetDateAdded == today)
  {
    var out := Reconcile(prev, curr, today);
    forall i | 0 <= i < |prev|
      ensures out[i].fwNetDropped == Some(Yes) <==> Key(prev[i]) !in Keys(curr) || prev[i].fwNetDropped == Some(Yes)
    {
      assert Key(prev[i]) in Keys(prev);
    }
  }

  /**
   * The update date: a row flagged `YES` keeps the date it had, every other row
   * is dated today; and no row is left without a dropped flag.
   */
  lemma ReconcileDates(prev: seq<Row>, curr: seq<Row>, today: string)
    ensures var out := Reconcile(prev, curr, today);
      && (forall k :: 0 <= k < |out| ==> out[k].fwNetDropped.Some?)
      && (forall i :: 0 <= i < |prev| ==>
            out[i].netUpdDate == (if out[i].fwNetDropped == Some(Yes) then prev[i].netUpdDate else today))
      && (forall k :: |prev| <= k < |out| ==> out[k].netUpdDate == today)
  {
  }

  /**
   * A previous row already flagged `YES` whose key reappears stays exactly as it
   * was, and no second row with its key is appended.
   */
  lemma ReturningDroppedRow(prev: seq<Row>, curr: seq<Row>, today: string, i: nat)
    requires i < |prev| && prev[i].fwNetDropped == Some(Yes) && Key(prev[i]) in Keys(curr)
    ensures var out := Reconcile(prev, curr, today);
      && out[i] == prev[i]
      && forall k :: |prev| <= k < |out| ==> Key(out[k]) != Key(prev[i])
  {
    var out := Reconcile(prev, curr, today);
    var added := Select(curr, Keys(curr) - Keys(prev));
    assert Key(prev[i]) in Keys(prev);
    forall k | |prev| <= k < |out|
      ensures Key(out[k]) != Key(prev[i])
    {
      assert Key(out[k]) == Key(added[k - |prev|]);
    }
  }

  /**
   * Reconciling a snapshot with itself, when no row is flagged other than `N/A`
   * or not at all, adds and removes nothing: every row stays in place, flagged
   * `N/A` and dated today.
   */
  lemma SelfReconcile(rows: seq<Row>, today: string)
    requires forall k :: 0 <= k < |rows| ==> rows[k].fwNetDropped in {None, Some(NotApplicable)}
    ensures Reconcile(rows, rows, today)
         == seq(|rows|, k requires 0 <= k < |rows| => rows[k].(fwNetDropped := Some(NotApplicable), netUpdDate := today))
  {
    assert Keys(rows) - Keys(rows) == {};
    SelectNone(rows);
    var out := Reconcile(rows, rows, today);
    forall k | 0 <= k < |rows|
      ensures out[k] == rows[k].(fwNetDropped := Some(NotApplicable), netUpdDate := today)
    {
      assert Key(rows[k]) in Keys(rows);
    }
  }

  /** One row carried over and one appended: both `N/A`, dated today, the new one added today. */
  lemma ScenarioOneAdded(p: Row, c1: Row, c2: Row, today: string)
    requires Key(c1) == Key(p) && Key(c2) != Key(p)
    requires p.fwNetDropped in {None, Some(NotApplicable)}
    ensures var out := Reconcile([p], [c1, c2], today);
      && |out| == 2
      && out[0] == p.(fwNetDropped := Some(NotApplicable), netUpdDate := today)
      && out[1] == c2.(fwNetDropped := Some(NotApplicable), fwNetDateAdded := today, netUpdDate := today)
  {
    assert Keys([p]) == {Key(p)};
    assert Keys([c1, c2]) == {Key(p), Key(c2)};
    assert Keys([c1, c2]) - Keys([p]) == {Key(c2)};
    assert [c1, c2][..1] == [c1] && [c1][..0] == [];
    assert Select([c1], {Key(c2)}) == [];
    assert Select([c1, c2], {Key(c2)}) == [c2];
    assert Marked([p], [c1, c2]) == [p];
    assert NewObjects([p], [c1, c2], today) == [AsNew(c2, today)];
    assert Marked([p], [c1, c2]) + NewObjects([p], [c1, c2], today) == [p, AsNew(c2, today)];
  }

  /** A row absent from the current snapshot is flagged `YES` and keeps its update date. */
  lemma ScenarioDropped(p: Row, today: string)
    ensures Reconcile([p], [], today) == [p.(fwNetDropped := Some(Yes))]
  {
    assert Keys([p]) == {Key(p)};
    SelectNone([]);
  }

  // ---------------------------------------------------------------- the script's steps

  /** `calculate_deltas` on two loaded snapshots, with the clock reading `today`. */
  method CalculateDeltas(prev: seq<Row>, curr: seq<Row>, today: string) returns (combined: seq<Row>)
    ensures combined == Reconcile(prev, curr, today)
  {
    var previous := PreviousRows(prev, curr);
    var newObjects := NewRows(prev, curr, today);
    combined := FinishRows(previous + newObjects, today);
  }

  /** The previous snapshot with the keys that left flagged `YES`. */
  method PreviousRows(prev: seq<Row>, curr: seq<Row>) returns (rows: seq<Row>)
    ensures rows == Marked(prev, curr)
  {
    var removedKeys := Keys(prev) - Keys(curr);
    var table := new Row[|prev|](i requires 0 <= i < |prev| => prev[i]);
    FlagRemoved(table, removedKeys);
    rows := table[..];
  }

  /** The current rows whose key is new, stamped as new. */
  method NewRows(prev: seq<Row>, curr: seq<Row>, today: string) returns (rows: seq<Row>)
    ensures rows == NewObjects(prev, curr, today)
  {
    var newKeys := Keys(curr) - Keys(prev);
    var selected := SelectRows(curr, newKeys);
    var table := new Row[|selected|](j requires 0 <= j < |selected| => selected[j]);
    StampNew(table, today);
    rows := table[..];
  }

  /** The combined table after the update dates are refreshed and the missing flags filled. */
  method FinishRows(all: seq<Row>, today: string) returns (rows: seq<Row>)
    ensures rows == seq(|all|, k requires 0 <= k < |all| => FillDropped(RefreshDate(all[k], today)))
  {
    var table := new Row[|all|](k requires 0 <= k < |all| => all[k]);
    RefreshDates(table, today);
    ghost var refreshed := table[..];
    assert forall k :: 0 <= k < |all| ==> refreshed[k] == RefreshDate(all[k], today);
    FillDroppedFlags(table);
    rows := table[..];
  }

  /** Flags, in place, the rows whose key is among the removed keys. */
  method FlagRemoved(table: array<Row>, removedKeys: set<string>)
    modifies table
    ensures forall k :: 0 <= k < table.Length ==> table[k] == MarkRemoved(old(table[k]), removedKeys)
  {
    for i := 0 to table.Length
      invariant forall k :: 0 <= k < i ==> table[k] == MarkRemoved(old(table[k]), removedKeys)
      invariant forall k :: i <= k < table.Length ==> table[k] == old(table[k])
    {
      if Key(table[i]) in removedKeys {
        table[i] := table[i].(fwNetDropped := Some(Yes));
      }
    }
  }

  /** Copies out the rows whose key is in `keys`. */
  method SelectRows(rows: seq<Row>, keys: set<string>) returns (selected: seq<Row>)
    ensures selected == Select(rows, keys)
  {
    selected := [];
    for j := 0 to |rows|
      invariant selected == Select(rows[..j], keys)
    {
      assert rows[..j + 1][..j] == rows[..j];
      if Key(rows[j]) in keys {
        selected := selected + [rows[j]];
      }
    }
    assert rows[..|rows|] == rows;
  }

  /** Marks, in place, every row as not dropped and added today. */
  method StampNew(table: array<Row>, today: string)
    modifies table
    ensures forall k :: 0 <= k < table.Length ==> table[k] == AsNew(old(table[k]), today)
  {
    for j := 0 to table.Length
      invariant forall k :: 0 <= k < j ==> table[k] == AsNew(old(table[k]), today)
      invariant forall k :: j <= k < table.Length ==> table[k] == old(table[k])
    {
      table[j] := table[j].(fwNetDropped := Some(NotApplicable), fwNetDateAdded := today);
    }
  }

  /** Advances, in place, the update date of every row that is not dropped. */
  method RefreshDates(table: array<Row>, today: string)
    modifies table
    ensures forall k :: 0 <= k < table.Length ==> table[k] == RefreshDate(old(table[k]), today)
  {
    for k := 0 to table.Length
      invariant forall m :: 0 <= m < k ==> table[m] == RefreshDate(old(table[m]), today)
      invariant forall m :: k <= m < table.Length ==> table[m] == old(table[m])
    {
      if table[k].fwNetDropped != Some(Yes) {
        table[k] := table[k].(netUpdDate := today);
      }
    }
  }

  /** Replaces, in place, every missing dropped flag by `N/A`. */
  method FillDroppedFlags(table: array<Row>)
    modifies table
    ensures forall k :: 0 <= k < table.Length ==> table[k] == FillDropped(old(table[k]))
  {
    for k := 0 to table.Length
      invariant forall m :: 0 <= m < k ==> table[m] == FillDropped(old(table[m]))
      invariant forall m :: k <= m < table.Length ==> table[m] == old(table[m])
    {
      if table[k].fwNetDropped.None? {
        table[k] := table[k].(fwNetDropped := Some(NotApplicable));
      }
    }
  }
}
