/**
 The attendance tracker as the recognition loop runs it: records, last detection
 times and the absent set are fields updated in place, frame by frame, and the
 shutdown table is built by a loop over the roster. Each method is proved to
 produce the state or table that the specification modules define.
 */
module AttendanceTracker {
  import opened AttendanceRules
  import opened FinalTable

  class Tracker {
    const roster: seq<Row>
    const startTime: int
    var attendance: map<string, Record>
    var lastSeen: map<string, int>
    var markedAbsent: set<string>

    ghost function Snapshot(): State
      reads this
    {
      State(attendance, lastSeen, markedAbsent)
    }

    /** The absent set mirrors the Absent records of the roster names. */
    ghost predicate Valid()
      reads this
    {
      Consistent(Snapshot(), Names(roster))
    }

    /** Every roster name starts Absent with no time and in the absent set; a repeated name
        gives one record. */
    constructor (roster: seq<Row>, start: int)
      ensures this.roster == roster && startTime == start
      ensures Snapshot() == InitState(roster)
      ensures Valid()
    {
      var att: map<string, Record> := map[];
      var marked: set<string> := {};
      for k := 0 to |roster|
        invariant att == map n | n in Names(roster[..k]) :: Record(Absent, None)
        invariant marked == Names(roster[..k])
      {
        NamesSnoc(roster, k);
        att := att[roster[k].name := Record(Absent, None)];
        marked := marked + {roster[k].name};
      }
      assert roster[..|roster|] == roster;
      this.roster := roster;
      startTime := start;
      attendance := att;
      lastSeen := map[];
      markedAbsent := marked;
      new;
      InitConsistent(roster, start);
    }

    /** One pass of the recognition loop. `tDetect` is the clock reading taken before matching
        faces, `tRules` the one taken before the no-show and departure rules. */
    method ProcessFrame(recognized: seq<string>, tDetect: int, tRules: int)
      requires Valid()
      requires startTime <= tDetect <= tRules
      requires forall n :: n in recognized ==> n in Names(roster)
      modifies this
      ensures Valid()
      ensures Snapshot() == Frame(old(Snapshot()), Names(roster), FrameInput(recognized, tDetect, tRules), startTime)
    {
      ghost var s0 := Snapshot();
      FramePreservesConsistent(s0, Names(roster), FrameInput(recognized, tDetect, tRules), startTime);
      var current := DetectFaces(recognized, tDetect);
      NoShowIsDead(Snapshot(), Names(roster), startTime, tRules);
      ApplyNoShow(tRules);
      ApplyDepartures(current, tRules);
    }

    /** The detection phase: each recognised name joins `current`, gets `lastSeen := tDetect` and
        the arrival rule. */
    method DetectFaces(recognized: seq<string>, tDetect: int) returns (current: set<string>)
      requires Valid()
      requires Known(Snapshot(), recognized)
      modifies this
      ensures Valid()
      ensures current == Current(recognized)
      ensures Snapshot() == Detect(old(Snapshot()), recognized, startTime, tDetect)
    {
      ghost var s0 := Snapshot();
      current := {};
      for i := 0 to |recognized|
        invariant current == Current(recognized[..i])
        invariant Snapshot() == Detect(s0, recognized[..i], startTime, tDetect)
      {
        var name := recognized[i];
        DetectKeepsAbsentMarked(s0, Names(roster), recognized[..i], startTime, tDetect, name);
        DetectSnoc(s0, recognized, i, startTime, tDetect);
        CurrentSnoc(recognized, i);
        current := current + {name};
        SeeFace(name, tDetect);
      }
      assert recognized[..|recognized|] == recognized;
      DetectPreservesConsistent(s0, Names(roster), recognized, startTime, tDetect);
    }

    /** One recognised face: its last-seen time, then the arrival rule. */
    method SeeFace(name: string, tDetect: int)
      requires name in attendance
      requires Promotes(attendance[name], tDetect - startTime) ==> name in markedAbsent
      modifies this
      ensures Snapshot() == DetectOne(old(Snapshot()), name, startTime, tDetect)
    {
      var sessionDuration := tDetect - startTime;
      lastSeen := lastSeen[name := tDetect];
      var record := attendance[name];
      if record.status == Absent {
        if sessionDuration > LateThreshold {
          record := record.(time := Some(tDetect));
        } else {
          record := Record(Present, Some(tDetect));
          markedAbsent := markedAbsent - {name};
        }
        attendance := attendance[name := record];
      }
    }

    /** The ten-minute no-show rule over the roster. */
    method ApplyNoShow(tRules: int)
      requires Names(roster) <= attendance.Keys
      modifies this
      ensures Snapshot() == NoShowOn(old(Snapshot()), Names(roster), startTime, tRules)
    {
      ghost var s1 := Snapshot();
      if tRules - startTime <= NoShowWindow {
        NoShowOutsideWindow(s1, Names(roster), startTime, tRules);
      } else {
        assert roster[..0] == [];
        NoShowNone(s1, startTime, tRules);
        for j := 0 to |roster|
          invariant Snapshot() == NoShowOn(s1, Names(roster[..j]), startTime, tRules)
        {
          var name := roster[j].name;
          NamesSnoc(roster, j);
          NoShowSnoc(s1, Names(roster[..j]), name, startTime, tRules);
          MarkNoShow(name, tRules);
        }
        assert roster[..|roster|] == roster;
      }
    }

    /** The thirty-second early-departure rule over the roster. */
    method ApplyDepartures(current: set<string>, tRules: int)
      requires Valid()
      modifies this
      ensures Valid()
      ensures Snapshot() == DepartOn(old(Snapshot()), Names(roster), current, tRules)
    {
      ghost var s2 := Snapshot();
      assert roster[..0] == [];
      DepartNone(s2, current, tRules);
      for j := 0 to |roster|
        invariant Snapshot() == DepartOn(s2, Names(roster[..j]), current, tRules)
      {
        var name := roster[j].name;
        NamesSnoc(roster, j);
        DepartSnoc(s2, Names(roster[..j]), current, name, tRules);
        CheckDeparture(name, current, tRules);
      }
      assert roster[..|roster|] == roster;
      DepartPreservesConsistent(s2, Names(roster), current, tRules);
    }

    /** The no-show check for one roster name. */
    method MarkNoShow(name: string, tRules: int)
      requires name in attendance
      modifies this
      ensures Snapshot() == NoShowOne(old(Snapshot()), name, tRules)
    {
      if attendance[name].status == Unset {
        attendance := attendance[name := Record(Absent, Some(tRules))];
        markedAbsent := markedAbsent + {name};
      }
    }

    /** The early-departure check for one roster name. */
    method CheckDeparture(name: string, current: set<string>, tRules: int)
      requires name in attendance
      modifies this
      ensures Snapshot() == DepartOne(old(Snapshot()), name, current, tRules)
    {
      if name in lastSeen && name !in current {
        var delta := tRules - lastSeen[name];
        if delta > DepartureWindow && attendance[name].status == Present {
          attendance := attendance[name := Record(Absent, Some(tRules))];
          markedAbsent := markedAbsent + {name};
        }
      }
    }

    /** The shutdown table: one row per distinct roster name in first-occurrence order, each the
        first roster row with that name plus its record's time and status; the drop of duplicate
        (Name, Time) pairs removes nothing. */
    method Finalize() returns (table: seq<OutRow>)
      requires Recorded(roster, attendance)
      ensures table == Table(roster, attendance)
      ensures WellFormedTable(roster, attendance, table)
    {
      var rows, records := roster, attendance;
      var finalData: seq<OutRow> := [];
      var uniqueNames: set<string> := {};
      assert rows[..0] == [];
      for k := 0 to |rows|
        invariant uniqueNames == Names(rows[..k])
        invariant finalData + TableFrom(rows, k, uniqueNames, records) == Table(rows, records)
      {
        var name := rows[k].name;
        if name in uniqueNames {
          TableFromSkip(rows, k, uniqueNames, records);
          continue;
        }
        TableFromUnfold(rows, k, uniqueNames, records);
        ghost var rest := TableFrom(rows, k + 1, uniqueNames + {name}, records);
        uniqueNames := uniqueNames + {name};
        var studentRow := FindRow(rows, name);
        if studentRow.Some? {
          var row := OutRow(studentRow.value, records[name].time, records[name].status);
          assert (finalData + [row]) + rest == finalData + ([row] + rest);
          finalData := finalData + [row];
        }
      }
      assert finalData == Table(rows, records);
      DropDuplicatesOfTable(rows, records);
      TableSpec(rows, records);
      table := DropDuplicates(finalData);
    }
  }
}

