/**
 The per-frame rules of the attendance tracker, stated name by name as pure
 functions over a snapshot of the tracker's state. The class in tracker.dfy
 applies them with loops and is proved to produce exactly these snapshots.
 */
module AttendanceRules {

  datatype Option<T> = None | Some(value: T)

  /** `Unset` stands for the empty status string that the no-show rule tests for;
      no rule ever produces it. */
  datatype Status = Unset | Absent | Present

  /** One attendance record; `time` is `None` while the source's time string is empty.
      Times are whole seconds on the same clock as the session start. */
  datatype Record = Record(status: Status, time: Option<int>)

  /** One roster row: the name and the remaining profile columns, carried through unchanged. */
  datatype Row = Row(name: string, fields: seq<string>)

  /** The tracker's mutable state: records, last detection times and the absent set. */
  datatype State = State(attendance: map<string, Record>, lastSeen: map<string, int>, markedAbsent: set<string>)

  /** One frame as the loop sees it: the names recognised and the two clock readings. */
  datatype FrameInput = FrameInput(recognized: seq<string>, tDetect: int, tRules: int)

  const LateThreshold := 30
  const NoShowWindow := 600
  const DepartureWindow := 30

  function Names(roster: seq<Row>): set<string>
  {
    set k | 0 <= k < |roster| :: roster[k].name
  }

  // ---------------------------------------------------------------- initial state

  function InitState(roster: seq<Row>): State
  {
    State(map n | n in Names(roster) :: Record(Absent, None), map[], Names(roster))
  }

  // ---------------------------------------------------------------- single-record rules

  /** The arrival rule for one recognised person, `elapsed` seconds into the session at time `t`. */
  function Arrive(r: Record, elapsed: int, t: int): Record
  {
    if r.status == Absent then
      if elapsed > LateThreshold then Record(Absent, Some(t)) else Record(Present, Some(t))
    else r
  }

  /** Whether the arrival rule turns this record Present (and so takes the name out of the absent set). */
  predicate Promotes(r: Record, elapsed: int)
  {
    r.status == Absent && elapsed <= LateThreshold
  }

  /** Whether the no-show rule fires for a record `secs` seconds into the session. */
  predicate NoShowFires(r: Record, secs: int)
  {
    secs > NoShowWindow && r.status == Unset
  }

  /** Whether the early-departure rule fires for name `n` at time `t`. */
  predicate Departs(s: State, n: string, current: set<string>, t: int)
  {
    n in s.attendance && n in s.lastSeen && n !in current
    && t - s.lastSeen[n] > DepartureWindow && s.attendance[n].status == Present
  }

  // ---------------------------------------------------------------- the three phases of a frame

  predicate Known(s: State, recognized: seq<string>)
  {
    forall n :: n in recognized ==> n in s.attendance
  }

  /** Detection phase: every recognised name gets `lastSeen := t` and the arrival rule. */
  function Detect(s: State, recognized: seq<string>, start: int, t: int): State
  {
    State(
      map n | n in s.attendance :: if n in recognized then Arrive(s.attendance[n], t - start, t) else s.attendance[n],
      s.lastSeen + map n | n in recognized :: t,
      s.markedAbsent - set n | n in recognized && n in s.attendance && Promotes(s.attendance[n], t - start))
  }

  /** No-show phase over the roster names `names`, at rules time `t`. */
  function NoShowOn(s: State, names: set<string>, start: int, t: int): State
  {
    State(
      map n | n in s.attendance :: if n in names && NoShowFires(s.attendance[n], t - start) then Record(Absent, Some(t)) else s.attendance[n],
      s.lastSeen,
      s.markedAbsent + set n | n in names && n in s.attendance && NoShowFires(s.attendance[n], t - start))
  }

  /** Early-departure phase over the roster names `names`, at rules time `t`. */
  function DepartOn(s: State, names: set<string>, current: set<string>, t: int): State
  {
    State(
      map n | n in s.attendance :: if n in names && Departs(s, n, current, t) then Record(Absent, Some(t)) else s.attendance[n],
      s.lastSeen,
      s.markedAbsent + set n | n in names && Departs(s, n, current, t))
  }

  function Current(recognized: seq<string>): set<string>
  {
    set n | n in recognized
  }

  /** One whole iteration of the frame loop. */
  function Frame(s: State, names: set<string>, f: FrameInput, start: int): State
    requires Known(s, f.recognized)
  {
    var d := Detect(s, f.recognized, start, f.tDetect);
    DepartOn(NoShowOn(d, names, start, f.tRules), names, Current(f.recognized), f.tRules)
  }

  // ---------------------------------------------------------------- invariants

  /** The bookkeeping invariant: one record per roster name, never the empty status,
      and the absent set holds exactly the Absent names. */
  ghost predicate Consistent(s: State, names: set<string>)
  {
    && s.attendance.Keys == names
    && s.lastSeen.Keys <= names
    && s.markedAbsent <= names
    && (forall n :: n in s.attendance ==> s.attendance[n].status != Unset)
    && (forall n :: n in s.attendance ==> (n in s.markedAbsent <==> s.attendance[n].status == Absent))
  }

  /** Every Present record carries the time of an arrival within the late threshold. */
  ghost predicate PresentOnTime(s: State, start: int)
  {
    forall n :: n in s.attendance && s.attendance[n].status == Present ==>
      s.attendance[n].time.Some? && s.attendance[n].time.value - start <= LateThreshold
  }

  lemma InitConsistent(roster: seq<Row>, start: int)
    ensures Consistent(InitState(roster), Names(roster))
    ensures PresentOnTime(InitState(roster), start)
    ensures forall n :: n in Names(roster) ==> InitState(roster).attendance[n] == Record(Absent, None)
    ensures forall k :: 0 <= k < |roster| ==> roster[k].name in InitState(roster).markedAbsent
  {
  }

  lemma FramePreservesConsistent(s: State, names: set<string>, f: FrameInput, start: int)
    requires Consistent(s, names) && Known(s, f.recognized)
    ensures Consistent(Frame(s, names, f, start), names)
  {
    var d := Detect(s, f.recognized, start, f.tDetect);
    DetectPreservesConsistent(s, names, f.recognized, start, f.tDetect);
    NoShowIsDead(d, names, start, f.tRules);
    DepartPreservesConsistent(d, names, Current(f.recognized), f.tRules);
  }

  lemma NamesSnoc(roster: seq<Row>, k: nat)
    requires k < |roster|
    ensures Names(roster[..k + 1]) == Names(roster[..k]) + {roster[k].name}
  {
    assert roster[..k + 1][k] == roster[k];
    forall n | n in Names(roster[..k]) ensures n in Names(roster[..k + 1]) {
      var j :| 0 <= j < k && roster[..k][j].name == n;
      assert roster[..k + 1][j] == roster[..k][j];
    }
  }

  // ---------------------------------------------------------------- one frame, name by name

  /** The no-show rule never fires: no record ever has the empty status it tests for. */
  lemma NoShowIsDead(s: State, names: set<string>, start: int, t: int)
    requires Consistent(s, names)
    ensures NoShowOn(s, names, start, t) == s
  {
    var r := NoShowOn(s, names, start, t);
    assert r.attendance == s.attendance;
    assert r.markedAbsent == s.markedAbsent;
  }

  /** Since the no-show rule never fires, a frame is detection followed by departures. */
  lemma FrameWithoutNoShow(s: State, names: set<string>, f: FrameInput, start: int)
    requires Consistent(s, names) && Known(s, f.recognized)
    ensures Frame(s, names, f, start)
      == DepartOn(Detect(s, f.recognized, start, f.tDetect), names, Current(f.recognized), f.tRules)
  {
    DetectPreservesConsistent(s, names, f.recognized, start, f.tDetect);
    NoShowIsDead(Detect(s, f.recognized, start, f.tDetect), names, start, f.tRules);
  }

  /** A recognised name is stamped with the detection time, whatever its status, and the
      departure phase of the same frame leaves its record and absent-set membership alone. */
  lemma RecognizedIsSeen(s: State, names: set<string>, f: FrameInput, start: int, n: string)
    requires Known(s, f.recognized) && n in f.recognized
    ensures n in Frame(s, names, f, start).lastSeen && Frame(s, names, f, start).lastSeen[n] == f.tDetect
    ensures var e := NoShowOn(Detect(s, f.recognized, start, f.tDetect), names, start, f.tRules);
      n in e.attendance && Frame(s, names, f, start).attendance[n] == e.attendance[n]
      && (n in Frame(s, names, f, start).markedAbsent <==> n in e.markedAbsent)
  {
  }

  /** An Absent person recognised within the late threshold becomes Present at the detection time
      and leaves the absent set. */
  lemma OnTimeArrival(s: State, names: set<string>, f: FrameInput, start: int, n: string)
    requires Consistent(s, names) && Known(s, f.recognized)
    requires n in f.recognized && s.attendance[n].status == Absent && f.tDetect - start <= LateThreshold
    ensures Frame(s, names, f, start).attendance[n] == Record(Present, Some(f.tDetect))
    ensures n !in Frame(s, names, f, start).markedAbsent
  {
    FrameWithoutNoShow(s, names, f, start);
    var d := Detect(s, f.recognized, start, f.tDetect);
    assert d.attendance[n] == Record(Present, Some(f.tDetect));
    assert n !in d.markedAbsent;
  }

  /** An Absent person recognised after the late threshold stays Absent; only the time becomes
      the detection time. */
  lemma LateArrival(s: State, names: set<string>, f: FrameInput, start: int, n: string)
    requires Consistent(s, names) && Known(s, f.recognized)
    requires n in f.recognized && s.attendance[n].status == Absent && f.tDetect - start > LateThreshold
    ensures Frame(s, names, f, start).attendance[n] == Record(Absent, Some(f.tDetect))
    ensures n in Frame(s, names, f, start).markedAbsent
  {
    FrameWithoutNoShow(s, names, f, start);
    var d := Detect(s, f.recognized, start, f.tDetect);
    assert d.attendance[n] == Record(Absent, Some(f.tDetect));
    assert n in d.markedAbsent;
  }

  /** A Present person recognised again keeps status and first-arrival time. */
  lemma PresentSeenAgain(s: State, names: set<string>, f: FrameInput, start: int, n: string)
    requires Consistent(s, names) && Known(s, f.recognized)
    requires n in f.recognized && s.attendance[n].status == Present
    ensures Frame(s, names, f, start).attendance[n] == s.attendance[n]
    ensures n !in Frame(s, names, f, start).markedAbsent
  {
    FrameWithoutNoShow(s, names, f, start);
    var d := Detect(s, f.recognized, start, f.tDetect);
    assert d.attendance[n] == s.attendance[n];
    assert n !in d.markedAbsent;
  }

  /** A roster name not recognised in this frame changes exactly when the early-departure rule
      fires, and then becomes Absent at the rules time and joins the absent set. */
  lemma EarlyDeparture(s: State, names: set<string>, f: FrameInput, start: int, n: string)
    requires Consistent(s, names) && Known(s, f.recognized)
    requires n in names && n !in f.recognized
    ensures var r := Frame(s, names, f, start);
      if n in s.lastSeen && f.tRules - s.lastSeen[n] > DepartureWindow && s.attendance[n].status == Present
      then r.attendance[n] == Record(Absent, Some(f.tRules)) && n in r.markedAbsent
      else r.attendance[n] == s.attendance[n] && (n in r.markedAbsent <==> n in s.markedAbsent)
    ensures var r := Frame(s, names, f, start);
      (n in r.lastSeen <==> n in s.lastSeen) && (n in s.lastSeen ==> r.lastSeen[n] == s.lastSeen[n])
  {
    FrameWithoutNoShow(s, names, f, start);
    var d := Detect(s, f.recognized, start, f.tDetect);
    assert d.attendance[n] == s.attendance[n];
    assert n in d.markedAbsent <==> n in s.markedAbsent;
    assert n in d.lastSeen <==> n in s.lastSeen;
    assert n in s.lastSeen ==> d.lastSeen[n] == s.lastSeen[n];
  }

  /** After the late threshold no one becomes Present: every Present record after the frame was
      already Present, with the same time, before it. */
  lemma NoLatePromotion(s: State, names: set<string>, f: FrameInput, start: int)
    requires Consistent(s, names) && Known(s, f.recognized)
    requires f.tDetect - start > LateThreshold
    ensures NoNewPresent(s, Frame(s, names, f, start))
  {
    FrameWithoutNoShow(s, names, f, start);
    var d := Detect(s, f.recognized, start, f.tDetect);
    assert NoNewPresent(s, d);
  }

  /** Every Present record of `r` is a record `s` already had, unchanged. */
  ghost predicate NoNewPresent(s: State, r: State)
  {
    forall n :: n in r.attendance && r.attendance[n].status == Present ==>
      n in s.attendance && r.attendance[n] == s.attendance[n]
  }

  lemma FramePreservesPresentOnTime(s: State, names: set<string>, f: FrameInput, start: int)
    requires Consistent(s, names) && Known(s, f.recognized) && PresentOnTime(s, start)
    ensures PresentOnTime(Frame(s, names, f, start), start)
  {
    FrameWithoutNoShow(s, names, f, start);
    var d := Detect(s, f.recognized, start, f.tDetect);
    assert PresentOnTime(d, start);
  }

  // ---------------------------------------------------------------- a whole session

  predicate RosterOnly(frames: seq<FrameInput>, names: set<string>)
  {
    forall i, n :: 0 <= i < |frames| && n in frames[i].recognized ==> n in names
  }

  /** The state after running the frame loop over `frames`; the bookkeeping invariant holds throughout. */
  function Run(s: State, names: set<string>, frames: seq<FrameInput>, start: int): (r: State)
    requires Consistent(s, names) && RosterOnly(frames, names)
    ensures Consistent(r, names)
    decreases |frames|
  {
    if frames == [] then s
    else
      FramePreservesConsistent(s, names, frames[0], start);
      Run(Frame(s, names, frames[0], start), names, frames[1..], start)
  }

  lemma {:induction false} RunPreservesPresentOnTime(s: State, names: set<string>, frames: seq<FrameInput>, start: int)
    requires Consistent(s, names) && RosterOnly(frames, names) && PresentOnTime(s, start)
    ensures PresentOnTime(Run(s, names, frames, start), start)
    decreases |frames|
  {
    if frames != [] {
      FramePreservesPresentOnTime(s, names, frames[0], start);
      FramePreservesConsistent(s, names, frames[0], start);
      RunPreservesPresentOnTime(Frame(s, names, frames[0], start), names, frames[1..], start);
    }
  }

  /** Once every detection falls after the late threshold, the Present records can only be those
      that were already Present, unchanged. */
  lemma {:induction false} RunNoLatePromotion(s: State, names: set<string>, frames: seq<FrameInput>, start: int)
    requires Consistent(s, names) && RosterOnly(frames, names)
    requires forall i :: 0 <= i < |frames| ==> frames[i].tDetect - start > LateThreshold
    ensures NoNewPresent(s, Run(s, names, frames, start))
    decreases |frames|
  {
    if frames != [] {
      var s' := Frame(s, names, frames[0], start);
      NoLatePromotion(s, names, frames[0], start);
      FramePreservesConsistent(s, names, frames[0], start);
      RunNoLatePromotion(s', names, frames[1..], start);
      NoNewPresentTrans(s, s', Run(s', names, frames[1..], start));
    }
  }

  lemma NoNewPresentTrans(s: State, s': State, s'': State)
    requires NoNewPresent(s, s') && NoNewPresent(s', s'')
    ensures NoNewPresent(s, s'')
  {
  }

  /** A person never recognised keeps the initial record for the whole session, however long it
      runs: the no-show rule never gives them a time. */
  lemma {:induction false} NeverSeenStaysUnmarked(s: State, names: set<string>, frames: seq<FrameInput>, start: int, n: string)
    requires Consistent(s, names) && RosterOnly(frames, names)
    requires n in names && n !in s.lastSeen
    requires forall i :: 0 <= i < |frames| ==> n !in frames[i].recognized
    ensures Run(s, names, frames, start).attendance[n] == s.attendance[n]
    ensures n !in Run(s, names, frames, start).lastSeen
    decreases |frames|
  {
    if frames != [] {
      FramePreservesConsistent(s, names, frames[0], start);
      EarlyDeparture(s, names, frames[0], start, n);
      NeverSeenStaysUnmarked(Frame(s, names, frames[0], start), names, frames[1..], start, n);
    }
  }

  // ---------------------------------------------------------------- the phases one name at a time

  lemma ArriveTwice(r: Record, elapsed: int, t: int)
    ensures Arrive(Arrive(r, elapsed, t), elapsed, t) == Arrive(r, elapsed, t)
    ensures !Promotes(Arrive(r, elapsed, t), elapsed)
  {
  }

  lemma DetectPreservesConsistent(s: State, names: set<string>, recognized: seq<string>, start: int, t: int)
    requires Consistent(s, names) && Known(s, recognized)
    ensures Consistent(Detect(s, recognized, start, t), names)
  {
  }

  /** The detection step for one recognised face. */
  function DetectOne(s: State, name: string, start: int, t: int): State
    requires name in s.attendance
  {
    var r := s.attendance[name];
    State(
      s.attendance[name := Arrive(r, t - start, t)],
      s.lastSeen[name := t],
      if Promotes(r, t - start) then s.markedAbsent - {name} else s.markedAbsent)
  }

  /** Detecting one more name is one detection step. */
  lemma DetectSnoc(s: State, recognized: seq<string>, i: nat, start: int, t: int)
    requires i < |recognized| && recognized[i] in s.attendance
    ensures Detect(s, recognized[..i + 1], start, t) == DetectOne(Detect(s, recognized[..i], start, t), recognized[i], start, t)
  {
    var name := recognized[i];
    var pre, post := recognized[..i], recognized[..i + 1];
    assert post == pre + [name];
    DetectSnocAttendance(s, pre, name, start, t);
    DetectSnocMarked(s, pre, name, start, t);
    DetectSnocLastSeen(s, pre, name, start, t);
  }

  lemma DetectSnocLastSeen(s: State, pre: seq<string>, name: string, start: int, t: int)
    ensures Detect(s, pre + [name], start, t).lastSeen == Detect(s, pre, start, t).lastSeen[name := t]
  {
    var m := map n | n in pre :: t;
    var m' := map n | n in pre + [name] :: t;
    assert m'.Keys == m.Keys + {name};
    assert m' == m[name := t];
  }

  lemma DetectSnocAttendance(s: State, pre: seq<string>, name: string, start: int, t: int)
    requires name in s.attendance
    ensures var d := Detect(s, pre, start, t);
      Detect(s, pre + [name], start, t).attendance == d.attendance[name := Arrive(d.attendance[name], t - start, t)]
  {
    ArriveTwice(s.attendance[name], t - start, t);
  }

  lemma DetectSnocMarked(s: State, pre: seq<string>, name: string, start: int, t: int)
    requires name in s.attendance
    ensures var d := Detect(s, pre, start, t);
      Detect(s, pre + [name], start, t).markedAbsent
      == if Promotes(d.attendance[name], t - start) then d.markedAbsent - {name} else d.markedAbsent
  {
    var post := pre + [name];
    var promoted := set n | n in pre && n in s.attendance && Promotes(s.attendance[n], t - start);
    var promoted' := set n | n in post && n in s.attendance && Promotes(s.attendance[n], t - start);
    if name in pre {
      ArriveTwice(s.attendance[name], t - start, t);
      assert promoted' == promoted;
    } else {
      assert promoted' == if Promotes(s.attendance[name], t - start) then promoted + {name} else promoted;
    }
  }

  /** The no-show step for one roster name inside the window. */
  function NoShowOne(s: State, name: string, t: int): State
    requires name in s.attendance
  {
    if s.attendance[name].status == Unset
    then s.(attendance := s.attendance[name := Record(Absent, Some(t))], markedAbsent := s.markedAbsent + {name})
    else s
  }

  /** Applying the no-show rule to one more name inside the window. */
  lemma NoShowSnoc(s: State, names: set<string>, name: string, start: int, t: int)
    requires name in s.attendance && t - start > NoShowWindow
    ensures NoShowOn(s, names + {name}, start, t) == NoShowOne(NoShowOn(s, names, start, t), name, t)
  {
    var d := NoShowOn(s, names, start, t);
    var e := NoShowOn(s, names + {name}, start, t);
    if d.attendance[name].status == Unset {
      assert e.attendance == d.attendance[name := Record(Absent, Some(t))];
      assert e.markedAbsent == d.markedAbsent + {name};
    } else {
      assert e.attendance == d.attendance;
      assert e.markedAbsent == d.markedAbsent;
    }
  }

  /** The departure step for one roster name. */
  function DepartOne(s: State, name: string, current: set<string>, t: int): State
    requires name in s.attendance
  {
    if Departs(s, name, current, t)
    then s.(attendance := s.attendance[name := Record(Absent, Some(t))], markedAbsent := s.markedAbsent + {name})
    else s
  }

  /** Applying the departure rule to one more name. */
  lemma DepartSnoc(s: State, names: set<string>, current: set<string>, name: string, t: int)
    requires name in s.attendance
    ensures DepartOn(s, names + {name}, current, t) == DepartOne(DepartOn(s, names, current, t), name, current, t)
  {
    var d := DepartOn(s, names, current, t);
    var e := DepartOn(s, names + {name}, current, t);
    if name in d.lastSeen && name !in current && t - d.lastSeen[name] > DepartureWindow && d.attendance[name].status == Present {
      assert e.attendance == d.attendance[name := Record(Absent, Some(t))];
      assert e.markedAbsent == d.markedAbsent + {name};
    } else {
      assert e.attendance == d.attendance;
      assert e.markedAbsent == d.markedAbsent;
    }
  }

  lemma DepartNone(s: State, current: set<string>, t: int)
    ensures DepartOn(s, {}, current, t) == s
  {
    assert DepartOn(s, {}, current, t).attendance == s.attendance;
    assert DepartOn(s, {}, current, t).markedAbsent == s.markedAbsent;
  }

  lemma DepartPreservesConsistent(s: State, names: set<string>, current: set<string>, t: int)
    requires Consistent(s, names)
    ensures Consistent(DepartOn(s, names, current, t), names)
  {
  }

  lemma NoShowNone(s: State, start: int, t: int)
    ensures NoShowOn(s, {}, start, t) == s
  {
    assert NoShowOn(s, {}, start, t).attendance == s.attendance;
    assert NoShowOn(s, {}, start, t).markedAbsent == s.markedAbsent;
  }

  lemma NoShowOutsideWindow(s: State, names: set<string>, start: int, t: int)
    requires t - start <= NoShowWindow
    ensures NoShowOn(s, names, start, t) == s
  {
    assert NoShowOn(s, names, start, t).attendance == s.attendance;
    assert NoShowOn(s, names, start, t).markedAbsent == s.markedAbsent;
  }

  lemma CurrentSnoc(recognized: seq<string>, i: nat)
    requires i < |recognized|
    ensures Current(recognized[..i + 1]) == Current(recognized[..i]) + {recognized[i]}
  {
    assert recognized[..i + 1] == recognized[..i] + [recognized[i]];
  }

  /** Under the invariant, a name still Absent part-way through the detection phase is in the absent set. */
  lemma DetectKeepsAbsentMarked(s: State, names: set<string>, recognized: seq<string>, start: int, t: int, name: string)
    requires Consistent(s, names) && name in names
    ensures name in Detect(s, recognized, start, t).attendance
    ensures Detect(s, recognized, start, t).attendance[name].status == Absent ==> name in Detect(s, recognized, start, t).markedAbsent
  {
  }
}
