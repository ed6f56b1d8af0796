/**
 The table written at shutdown: one row per distinct roster name, in the order the
 names first occur, each carrying the first roster row with that name plus the
 record's time and status; then the drop of duplicate (Name, Time) pairs.
 */
module FinalTable {
  import opened AttendanceRules

  /** One output row: the roster row followed by the Time and Status columns. */
  datatype OutRow = OutRow(row: Row, time: Option<int>, status: Status)

  /** Index of the first roster row named `name`. */
  function FirstIndex(roster: seq<Row>, name: string): (i: nat)
    requires name in Names(roster)
    ensures i < |roster| && roster[i].name == name
    ensures forall j :: 0 <= j < i ==> roster[j].name != name
  {
    if roster[0].name == name then 0
    else
      assert name in Names(roster[1..]) by {
        var k :| 0 <= k < |roster| && roster[k].name == name;
        assert roster[1..][k - 1] == roster[k];
      }
      1 + FirstIndex(roster[1..], name)
  }

  /** The roster filtered by `Name == name`: every row with that name, in roster order. */
  function Matching(roster: seq<Row>, name: string): (m: seq<Row>)
    ensures forall i :: 0 <= i < |m| ==> m[i].name == name
    ensures forall i :: 0 <= i < |m| ==> m[i] in roster
    ensures forall k :: 0 <= k < |roster| && roster[k].name == name ==> roster[k] in m
  {
    if roster == [] then []
    else
      var rest := Matching(roster[1..], name);
      assert forall k :: 1 <= k < |roster| ==> roster[k] == roster[1..][k - 1];
      if roster[0].name == name then [roster[0]] + rest else rest
  }

  /** The filtered rows are empty exactly for a name off the roster; otherwise the first of them
      is the roster's first row with that name. */
  lemma {:induction false} MatchingFirst(roster: seq<Row>, name: string)
    ensures Matching(roster, name) == [] <==> name !in Names(roster)
    ensures name in Names(roster) ==> Matching(roster, name)[0] == roster[FirstIndex(roster, name)]
  {
    if roster != [] {
      var tail := roster[1..];
      assert roster == [roster[0]] + tail;
      assert Names(roster) == {roster[0].name} + Names(tail) by {
        forall x | x in Names(roster) ensures x in {roster[0].name} + Names(tail) {
          var k :| 0 <= k < |roster| && roster[k].name == x;
          if k > 0 { assert tail[k - 1] == roster[k]; }
        }
        forall x | x in Names(tail) ensures x in Names(roster) {
          var k :| 0 <= k < |tail| && tail[k].name == x;
          assert roster[k + 1] == tail[k];
        }
      }
      MatchingFirst(tail, name);
    }
  }

  /** The lookup of the rows named `name` keeping the first (`iloc[0]` of the filtered rows);
      `None` when the filter is empty. */
  function FindRow(roster: seq<Row>, name: string): (r: Option<Row>)
    ensures r.None? <==> name !in Names(roster)
    ensures r.Some? ==> r.value == roster[FirstIndex(roster, name)]
  {
    MatchingFirst(roster, name);
    var m := Matching(roster, name);
    if m == [] then None else Some(m[0])
  }

  predicate Recorded(roster: seq<Row>, attendance: map<string, Record>)
  {
    forall k :: 0 <= k < |roster| ==> roster[k].name in attendance
  }

  /** The rows the shutdown loop appends, from roster position `k` on, with `seen` the names
      already handled. */
  function TableFrom(roster: seq<Row>, k: nat, seen: set<string>, attendance: map<string, Record>): seq<OutRow>
    requires k <= |roster| && Recorded(roster, attendance)
    decreases |roster| - k
  {
    if k == |roster| then []
    else
      var name := roster[k].name;
      if name in seen then TableFrom(roster, k + 1, seen, attendance)
      else
        var rest := TableFrom(roster, k + 1, seen + {name}, attendance);
        match FindRow(roster, name)
        case Some(row) => [OutRow(row, attendance[name].time, attendance[name].status)] + rest
        case None => rest
  }

  function Table(roster: seq<Row>, attendance: map<string, Record>): seq<OutRow>
    requires Recorded(roster, attendance)
  {
    TableFrom(roster, 0, {}, attendance)
  }

  function OutNames(table: seq<OutRow>): set<string>
  {
    set i | 0 <= i < |table| :: table[i].row.name
  }

  predicate DistinctNames(table: seq<OutRow>)
  {
    forall i, j :: 0 <= i < j < |table| ==> table[i].row.name != table[j].row.name
  }

  /** A row whose name does not occur earlier in the roster is that name's first row. */
  lemma FirstIndexAt(roster: seq<Row>, k: nat)
    requires k < |roster| && roster[k].name !in Names(roster[..k])
    ensures roster[k].name in Names(roster) && FirstIndex(roster, roster[k].name) == k
  {
    var name := roster[k].name;
    forall j | 0 <= j < k ensures roster[j].name != name {
      assert roster[..k][j] == roster[j];
    }
  }

  /** One step of the shutdown loop at a name not yet handled. */
  lemma TableFromUnfold(roster: seq<Row>, k: nat, seen: set<string>, attendance: map<string, Record>)
    requires k < |roster| && Recorded(roster, attendance)
    requires seen == Names(roster[..k]) && roster[k].name !in seen
    ensures var name := roster[k].name;
      TableFrom(roster, k, seen, attendance)
      == [OutRow(roster[k], attendance[name].time, attendance[name].status)] + TableFrom(roster, k + 1, seen + {name}, attendance)
    ensures FindRow(roster, roster[k].name) == Some(roster[k])
    ensures Names(roster[..k + 1]) == seen + {roster[k].name}
  {
    FirstIndexAt(roster, k);
    NamesSnoc(roster, k);
  }

  /** One step of the shutdown loop at a name already handled. */
  lemma TableFromSkip(roster: seq<Row>, k: nat, seen: set<string>, attendance: map<string, Record>)
    requires k < |roster| && Recorded(roster, attendance)
    requires seen == Names(roster[..k]) && roster[k].name in seen
    ensures TableFrom(roster, k, seen, attendance) == TableFrom(roster, k + 1, seen, attendance)
    ensures Names(roster[..k + 1]) == seen
  {
    NamesSnoc(roster, k);
  }

  /** Each row of the table is well formed: the first roster row with its name, at or after `k`,
      with that name's time and status. */
  ghost predicate RowOk(roster: seq<Row>, attendance: map<string, Record>, k: nat, r: OutRow)
  {
    && r.row.name in Names(roster)
    && r.row.name in attendance
    && k <= FirstIndex(roster, r.row.name)
    && r.row == roster[FirstIndex(roster, r.row.name)]
    && r.time == attendance[r.row.name].time
    && r.status == attendance[r.row.name].status
  }

  ghost predicate RowsOk(roster: seq<Row>, attendance: map<string, Record>, k: nat, t: seq<OutRow>)
  {
    forall i :: 0 <= i < |t| ==> RowOk(roster, attendance, k, t[i])
  }

  /** The rows are in the order in which their names first occur in the roster. */
  ghost predicate Ordered(roster: seq<Row>, t: seq<OutRow>)
  {
    forall i, j :: 0 <= i < j < |t| && t[i].row.name in Names(roster) && t[j].row.name in Names(roster) ==>
      FirstIndex(roster, t[i].row.name) < FirstIndex(roster, t[j].row.name)
  }

  lemma {:induction false} TableFromNames(roster: seq<Row>, k: nat, seen: set<string>, attendance: map<string, Record>)
    requires k <= |roster| && Recorded(roster, attendance)
    requires seen == Names(roster[..k])
    ensures DistinctNames(TableFrom(roster, k, seen, attendance))
    ensures OutNames(TableFrom(roster, k, seen, attendance)) == Names(roster) - seen
    decreases |roster| - k
  {
    if k == |roster| {
      assert roster[..k] == roster;
    } else {
      var name := roster[k].name;
      NamesSnoc(roster, k);
      if name in seen {
        TableFromNames(roster, k + 1, seen, attendance);
      } else {
        TableFromNames(roster, k + 1, seen + {name}, attendance);
        TableFromUnfold(roster, k, seen, attendance);
        var rest := TableFrom(roster, k + 1, seen + {name}, attendance);
        ConsNames(OutRow(roster[k], attendance[name].time, attendance[name].status), rest);
      }
    }
  }

  lemma ConsNames(r: OutRow, rest: seq<OutRow>)
    ensures OutNames([r] + rest) == {r.row.name} + OutNames(rest)
    ensures DistinctNames(rest) && r.row.name !in OutNames(rest) ==> DistinctNames([r] + rest)
  {
    ConsOutNames(r, rest);
    if DistinctNames(rest) && r.row.name !in OutNames(rest) {
      ConsDistinct(r, rest);
    }
  }

  lemma ConsOutNames(r: OutRow, rest: seq<OutRow>)
    ensures OutNames([r] + rest) == {r.row.name} + OutNames(rest)
  {
    var t := [r] + rest;
    assert t[0] == r;
    forall x | x in OutNames(t) ensures x in {r.row.name} + OutNames(rest) {
      var i :| 0 <= i < |t| && t[i].row.name == x;
      if i > 0 { assert t[i] == rest[i - 1]; }
    }
    forall x | x in OutNames(rest) ensures x in OutNames(t) {
      var i :| 0 <= i < |rest| && rest[i].row.name == x;
      assert t[i + 1] == rest[i];
    }
  }

  lemma ConsDistinct(r: OutRow, rest: seq<OutRow>)
    requires DistinctNames(rest) && r.row.name !in OutNames(rest)
    ensures DistinctNames([r] + rest)
  {
    var t := [r] + rest;
    forall i, j | 0 <= i < j < |t| ensures t[i].row.name != t[j].row.name {
      assert t[j] == rest[j - 1];
      if i == 0 {
        assert rest[j - 1].row.name in OutNames(rest);
      } else {
        assert t[i] == rest[i - 1];
      }
    }
  }

  lemma {:induction false} TableFromRows(roster: seq<Row>, k: nat, seen: set<string>, attendance: map<string, Record>)
    requires k <= |roster| && Recorded(roster, attendance)
    requires seen == Names(roster[..k])
    ensures RowsOk(roster, attendance, k, TableFrom(roster, k, seen, attendance))
    decreases |roster| - k
  {
    if k < |roster| {
      var name := roster[k].name;
      NamesSnoc(roster, k);
      var t := TableFrom(roster, k, seen, attendance);
      if name in seen {
        TableFromRows(roster, k + 1, seen, attendance);
        var t1 := TableFrom(roster, k + 1, seen, attendance);
        assert t == t1;
        forall i | 0 <= i < |t| ensures RowOk(roster, attendance, k, t[i]) {
          assert RowOk(roster, attendance, k + 1, t1[i]);
        }
      } else {
        TableFromRows(roster, k + 1, seen + {name}, attendance);
        TableFromUnfold(roster, k, seen, attendance);
        FirstIndexAt(roster, k);
        var rest := TableFrom(roster, k + 1, seen + {name}, attendance);
        forall i | 0 < i < |t| ensures RowOk(roster, attendance, k, t[i]) {
          assert t[i] == rest[i - 1];
          assert RowOk(roster, attendance, k + 1, rest[i - 1]);
        }
      }
    }
  }

  lemma {:induction false} TableFromOrdered(roster: seq<Row>, k: nat, seen: set<string>, attendance: map<string, Record>)
    requires k <= |roster| && Recorded(roster, attendance)
    requires seen == Names(roster[..k])
    ensures Ordered(roster, TableFrom(roster, k, seen, attendance))
    decreases |roster| - k
  {
    if k < |roster| {
      var name := roster[k].name;
      NamesSnoc(roster, k);
      if name in seen {
        TableFromOrdered(roster, k + 1, seen, attendance);
      } else {
        TableFromOrdered(roster, k + 1, seen + {name}, attendance);
        TableFromRows(roster, k + 1, seen + {name}, attendance);
        TableFromUnfold(roster, k, seen, attendance);
        FirstIndexAt(roster, k);
        var rest := TableFrom(roster, k + 1, seen + {name}, attendance);
        ConsOrdered(roster, attendance, k, OutRow(roster[k], attendance[name].time, attendance[name].status), rest);
      }
    }
  }

  lemma ConsOrdered(roster: seq<Row>, attendance: map<string, Record>, k: nat, r: OutRow, rest: seq<OutRow>)
    requires r.row.name in Names(roster) && FirstIndex(roster, r.row.name) == k
    requires RowsOk(roster, attendance, k + 1, rest) && Ordered(roster, rest)
    ensures Ordered(roster, [r] + rest)
  {
    var t := [r] + rest;
    forall i, j | 0 <= i < j < |t| && t[i].row.name in Names(roster) && t[j].row.name in Names(roster)
      ensures FirstIndex(roster, t[i].row.name) < FirstIndex(roster, t[j].row.name)
    {
      assert t[j] == rest[j - 1];
      assert RowOk(roster, attendance, k + 1, rest[j - 1]);
      if i > 0 {
        assert t[i] == rest[i - 1];
      }
    }
  }

  /** The shutdown table's promise: exactly one row per distinct roster name, in order of first
      occurrence, each the first roster row with that name together with its record's time and status. */
  ghost predicate WellFormedTable(roster: seq<Row>, attendance: map<string, Record>, t: seq<OutRow>)
  {
    && DistinctNames(t)
    && OutNames(t) == Names(roster)
    && |t| == |Names(roster)|
    && RowsOk(roster, attendance, 0, t)
    && Ordered(roster, t)
  }

  lemma TableSpec(roster: seq<Row>, attendance: map<string, Record>)
    requires Recorded(roster, attendance)
    ensures WellFormedTable(roster, attendance, Table(roster, attendance))
  {
    assert roster[..0] == [];
    TableFromNames(roster, 0, {}, attendance);
    TableFromRows(roster, 0, {}, attendance);
    TableFromOrdered(roster, 0, {}, attendance);
    DistinctNamesCount(Table(roster, attendance));
  }

  lemma {:induction false} DistinctNamesCount(t: seq<OutRow>)
    requires DistinctNames(t)
    ensures |OutNames(t)| == |t|
  {
    if t != [] {
      var init := t[..|t| - 1];
      assert DistinctNames(init) by {
        forall i, j | 0 <= i < j < |init| ensures init[i].row.name != init[j].row.name {
          assert init[i] == t[i] && init[j] == t[j];
        }
      }
      DistinctNamesCount(init);
      var last := t[|t| - 1].row.name;
      assert OutNames(t) == OutNames(init) + {last} by {
        forall x | x in OutNames(t) ensures x in OutNames(init) + {last} {
          var i :| 0 <= i < |t| && t[i].row.name == x;
          if i < |t| - 1 { assert init[i] == t[i]; }
        }
        forall x | x in OutNames(init) ensures x in OutNames(t) {
          var i :| 0 <= i < |init| && init[i].row.name == x;
          assert init[i] == t[i];
        }
      }
      assert last !in OutNames(init);
    }
  }

  // ---------------------------------------------------------------- dropping duplicate (Name, Time) pairs

  function Key(r: OutRow): (string, Option<int>)
  {
    (r.row.name, r.time)
  }

  function Keys(t: seq<OutRow>): set<(string, Option<int>)>
  {
    set i | 0 <= i < |t| :: Key(t[i])
  }

  predicate DistinctKeys(t: seq<OutRow>)
  {
    forall i, j :: 0 <= i < j < |t| ==> Key(t[i]) != Key(t[j])
  }

  /** Keeps the first row of every (Name, Time) pair, in order. */
  function DropDuplicates(t: seq<OutRow>): seq<OutRow>
  {
    if t == [] then []
    else
      var init := t[..|t| - 1];
      if Key(t[|t| - 1]) in Keys(init) then DropDuplicates(init)
      else DropDuplicates(init) + [t[|t| - 1]]
  }

  lemma KeysSnoc(t: seq<OutRow>, r: OutRow)
    ensures Keys(t + [r]) == Keys(t) + {Key(r)}
  {
    var u := t + [r];
    assert u[|t|] == r;
    forall x | x in Keys(u) ensures x in Keys(t) + {Key(r)} {
      var i :| 0 <= i < |u| && Key(u[i]) == x;
      if i < |t| { assert u[i] == t[i]; }
    }
    forall x | x in Keys(t) ensures x in Keys(u) {
      var i :| 0 <= i < |t| && Key(t[i]) == x;
      assert u[i] == t[i];
    }
  }

  /** The drop as pandas states it, front to back: a row is kept exactly when its (Name, Time)
      pair has not been kept before, and kept rows stay in order. */
  function KeepFirst(t: seq<OutRow>, seen: set<(string, Option<int>)>): seq<OutRow>
  {
    if t == [] then []
    else if Key(t[0]) in seen then KeepFirst(t[1..], seen)
    else [t[0]] + KeepFirst(t[1..], seen + {Key(t[0])})
  }

  lemma KeysCons(t: seq<OutRow>)
    requires t != []
    ensures Keys(t) == {Key(t[0])} + Keys(t[1..])
  {
    forall x | x in Keys(t) ensures x in {Key(t[0])} + Keys(t[1..]) {
      var i :| 0 <= i < |t| && Key(t[i]) == x;
      if i > 0 { assert t[1..][i - 1] == t[i]; }
    }
    forall x | x in Keys(t[1..]) ensures x in Keys(t) {
      var i :| 0 <= i < |t[1..]| && Key(t[1..][i]) == x;
      assert t[i + 1] == t[1..][i];
    }
  }

  /** Appending a row to the input of `KeepFirst` appends it to the output exactly when its pair
      is new. */
  lemma {:induction false} KeepFirstSnoc(t: seq<OutRow>, r: OutRow, seen: set<(string, Option<int>)>)
    ensures KeepFirst(t + [r], seen)
      == KeepFirst(t, seen) + (if Key(r) in seen || Key(r) in Keys(t) then [] else [r])
  {
    var u := t + [r];
    if t == [] {
      assert u == [r];
    } else {
      assert u[0] == t[0] && u[1..] == t[1..] + [r];
      KeysCons(t);
      if Key(t[0]) in seen {
        KeepFirstSnoc(t[1..], r, seen);
      } else {
        KeepFirstSnoc(t[1..], r, seen + {Key(t[0])});
      }
    }
  }

  /** The back-to-front `DropDuplicates` is the keep-first drop. */
  lemma {:induction false} DropDuplicatesKeepsFirst(t: seq<OutRow>)
    ensures DropDuplicates(t) == KeepFirst(t, {})
  {
    if t != [] {
      var init := t[..|t| - 1];
      var last := t[|t| - 1];
      assert t == init + [last];
      DropDuplicatesKeepsFirst(init);
      KeepFirstSnoc(init, last, {});
    }
  }

  /** The drop keeps every (Name, Time) pair and leaves each one once. */
  lemma {:induction false} DropDuplicatesKeys(t: seq<OutRow>)
    ensures Keys(DropDuplicates(t)) == Keys(t)
    ensures DistinctKeys(DropDuplicates(t))
  {
    if t != [] {
      var init := t[..|t| - 1];
      var last := t[|t| - 1];
      assert t == init + [last];
      KeysSnoc(init, last);
      DropDuplicatesKeys(init);
      if Key(last) !in Keys(init) {
        var d := DropDuplicates(init);
        KeysSnoc(d, last);
        var u := d + [last];
        forall i, j | 0 <= i < j < |u| ensures Key(u[i]) != Key(u[j]) {
          if j == |d| {
            assert u[i] == d[i];
            assert Key(d[i]) in Keys(d);
          } else {
            assert u[i] == d[i] && u[j] == d[j];
          }
        }
      }
    }
  }

  /** On a table whose (Name, Time) pairs are already distinct the drop removes nothing. */
  lemma {:induction false} DropDuplicatesNoOp(t: seq<OutRow>)
    requires DistinctKeys(t)
    ensures DropDuplicates(t) == t
  {
    if t != [] {
      var init := t[..|t| - 1];
      var last := t[|t| - 1];
      assert DistinctKeys(init) by {
        forall i, j | 0 <= i < j < |init| ensures Key(init[i]) != Key(init[j]) {
          assert init[i] == t[i] && init[j] == t[j];
        }
      }
      DropDuplicatesNoOp(init);
      assert Key(last) !in Keys(init);
      assert t == init + [last];
    }
  }

  /** Dropping duplicates twice is the same as dropping them once. */
  lemma DropDuplicatesIdempotent(t: seq<OutRow>)
    ensures DropDuplicates(DropDuplicates(t)) == DropDuplicates(t)
  {
    DropDuplicatesKeys(t);
    DropDuplicatesNoOp(DropDuplicates(t));
  }

  /** Distinct names give distinct (Name, Time) pairs, so the drop after the shutdown loop removes nothing. */
  lemma DropDuplicatesOfTable(roster: seq<Row>, attendance: map<string, Record>)
    requires Recorded(roster, attendance)
    ensures DropDuplicates(Table(roster, attendance)) == Table(roster, attendance)
  {
    TableSpec(roster, attendance);
    DropDuplicatesNoOp(Table(roster, attendance));
  }
}
