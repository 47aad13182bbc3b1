/** Reads of `vsem_fms/app/storage/local.py` that report a file as missing while savers and deleters are at work. */
module LocalMisses {
  import opened Common
  import opened Parts
  import opened Paging
  import opened LocalProtocol
  import opened Presence

  /** What a logical name stands for: its current entry, else its legacy entry. */
  function Lookup(c: Config, s: State, name: string): Option<nat> {
    if name in s.dir then Some(s.dir[name])
    else if c.legacy(name) in s.dir then Some(s.dir[c.legacy(name)])
    else None
  }

  // ---- Which events give and take a name ----

  /** The event puts an entry under this name: a commit of that name, or a temporary file of that name. */
  predicate Installs(s: State, e: Event, name: string) {
    match e
    case Replace(pid) => pid in s.savers && s.savers[pid].name == name
    case Link(pid) => pid in s.savers && s.savers[pid].name == name
    case Open(_, temp, _) => temp == name
    case _ => false
  }

  /** The event takes this name away: unlinked, renamed, or dropped as a temporary or a legacy name. */
  predicate Removes(c: Config, s: State, e: Event, name: string) {
    match e
    case Unlink(n) => n == name
    case RemoveTemp(pid) => pid in s.savers && s.savers[pid].temp == name
    case CleanUp(pid) => pid in s.savers && s.savers[pid].temp == name
    case DropLegacy(pid) =>
      pid in s.savers && c.legacy(s.savers[pid].name) == name && s.savers[pid].name != name
    case Replace(pid) =>
      pid in s.savers && s.savers[pid].temp == name && s.savers[pid].temp in s.dir
      && !(s.savers[pid].name in s.dir && s.dir[s.savers[pid].name] == s.dir[name])
    case _ => false
  }

  lemma DirStepEffect(c: Config, s: State, e: Event, t: State, name: string)
    requires DirStep(c, s, e, t)
    ensures name in t.dir <==> Installs(s, e, name) || (name in s.dir && !Removes(c, s, e, name))
  {
  }

  lemma OtherStepEffect(c: Config, s: State, e: Event, t: State, name: string)
    requires SaverStep(c, s, e, t) || WriteStep(c, s, e, t) || ReadStep(c, s, e, t)
    ensures t.dir == s.dir && !Installs(s, e, name) && !Removes(c, s, e, name)
  {
  }

  /** A name is there after a step exactly when the step installs it, or it was there and is not removed. */
  lemma StepEffect(c: Config, s: State, e: Event, t: State, name: string)
    requires Step(c, s, e, t)
    ensures name in t.dir <==> Installs(s, e, name) || (name in s.dir && !Removes(c, s, e, name))
  {
    if DirStep(c, s, e, t) {
      DirStepEffect(c, s, e, t, name);
    } else if !OpenStep(s, e, t) {
      OtherStepEffect(c, s, e, t, name);
    }
  }

  /** Some event strictly between `k` and `j` takes the name away. */
  ghost predicate RemovedIn(c: Config, states: seq<State>, events: seq<Event>, k: int, j: nat, name: string)
    requires -1 <= k && j <= |events| < |states|
  {
    exists l :: k < l < j && Removes(c, states[l], events[l], name)
  }

  /** Every installation of the name from `i` on is taken back before `j`. */
  ghost predicate AllUndone(c: Config, states: seq<State>, events: seq<Event>, i: nat, j: nat, name: string)
    requires j <= |events| < |states|
  {
    forall k :: i <= k < j && Installs(states[k], events[k], name) ==> RemovedIn(c, states, events, k, j, name)
  }

  /** A name is absent at `j` exactly when all installations since `i` were undone and what was there at `i` is gone. */
  lemma AbsentIff(c: Config, states: seq<State>, events: seq<Event>, i: nat, j: nat, name: string)
    requires IsRun(c, states, events) && i <= j <= |events|
    ensures name !in states[j].dir <==>
            AllUndone(c, states, events, i, j, name)
            && (name in states[i].dir ==> RemovedIn(c, states, events, i - 1, j, name))
  {
    var present := seq(|states|, k requires 0 <= k < |states| => name in states[k].dir);
    var installed := seq(|events|, k requires 0 <= k < |events| => Installs(states[k], events[k], name));
    var removed := seq(|events|, k requires 0 <= k < |events| => Removes(c, states[k], events[k], name));
    forall k | 0 <= k < |events|
      ensures present[k + 1] <==> installed[k] || (present[k] && !removed[k])
    {
      StepEffect(c, states[k], events[k], states[k + 1], name);
    }
    PresentIff(present, installed, removed, i, j);
    AbsentFromMarks(c, states, events, installed, removed, i, j, name);
  }

  // The marks of `PresentIff`, read as events.
  lemma AbsentFromMarks(c: Config, states: seq<State>, events: seq<Event>, installed: seq<bool>, removed: seq<bool>,
                        i: nat, j: nat, name: string)
    requires i <= j <= |events| < |states| && |installed| == |removed| == |events|
    requires forall k :: 0 <= k < |events| ==> installed[k] == Installs(states[k], events[k], name)
    requires forall k :: 0 <= k < |events| ==> removed[k] == Removes(c, states[k], events[k], name)
    ensures AllUndone(c, states, events, i, j, name) <==>
            !exists k :: i <= k < j && installed[k] && NoneIn(removed, k + 1, j)
    ensures RemovedIn(c, states, events, i - 1, j, name) <==> !NoneIn(removed, i, j)
  {
    forall k | -1 <= k < j
      ensures RemovedIn(c, states, events, k, j, name) <==> !NoneIn(removed, k + 1, j)
    {
      if RemovedIn(c, states, events, k, j, name) {
        var l :| k < l < j && Removes(c, states[l], events[l], name);
        assert removed[l];
      }
      if !NoneIn(removed, k + 1, j) {
        var l :| k + 1 <= l < j && removed[l];
        assert Removes(c, states[l], events[l], name);
      }
    }
  }

  // ---- When a reported miss is right ----

  /** The read found no current entry at `i`, and at `j` no legacy entry, by looking or by opening what it had found. */
  predicate MissedLegacy(c: Config, states: seq<State>, events: seq<Event>, i: nat, j: nat, pid: nat, name: string)
    requires i < j < |events| < |states|
  {
    events[i] == MissRead(pid) && pid in states[i].readers && states[i].readers[pid] == Reader(name, LookCurrent)
    && pid in states[j].readers
    && ((events[j] == MissRead(pid) && states[j].readers[pid] == Reader(name, LookLegacy))
        || (events[j] == OpenMisses(pid) && states[j].readers[pid] == Reader(name, Resolved(c.legacy(name)))))
  }

  /** The read found the current entry at `i`, but could not open it at `j`. */
  predicate MissedCurrent(states: seq<State>, events: seq<Event>, i: nat, j: nat, pid: nat, name: string)
    requires i < j < |events| < |states|
  {
    events[i] == FindRead(pid) && pid in states[i].readers && states[i].readers[pid] == Reader(name, LookCurrent)
    && pid in states[j].readers && events[j] == OpenMisses(pid)
    && states[j].readers[pid] == Reader(name, Resolved(name))
  }

  lemma LookFailed(c: Config, s: State, e: Event, t: State)
    requires Step(c, s, e, t) && (e.MissRead? || e.OpenMisses?)
    ensures e.pid in s.readers
    ensures var r := s.readers[e.pid];
            match r.look
            case LookCurrent => r.name !in s.dir
            case LookLegacy => c.legacy(r.name) !in s.dir
            case Resolved(source) => source !in s.dir
            case _ => false
  {
  }

  /**
   * A read that found no current entry and then no legacy entry is right, in every run, exactly when every
   * commit of the name since its first look was undone before its last.
   */
  lemma LegacyMissIsRightIff(c: Config, states: seq<State>, events: seq<Event>, i: nat, j: nat, pid: nat, name: string)
    requires IsRun(c, states, events) && i < j < |events| && MissedLegacy(c, states, events, i, j, pid, name)
    ensures Lookup(c, states[j], name) == None <==> AllUndone(c, states, events, i, j, name)
  {
    LookFailed(c, states[i], events[i], states[i + 1]);
    LookFailed(c, states[j], events[j], states[j + 1]);
    AbsentIff(c, states, events, i, j, name);
  }

  /**
   * A read that found the current entry and could not open it is right exactly when the legacy entry was
   * gone as well: none was there at the first look or it was removed, and none was installed for good.
   */
  lemma CurrentMissIsRightIff(c: Config, states: seq<State>, events: seq<Event>, i: nat, j: nat, pid: nat, name: string)
    requires IsRun(c, states, events) && i < j < |events| && MissedCurrent(states, events, i, j, pid, name)
    ensures Lookup(c, states[j], name) == None <==>
            AllUndone(c, states, events, i, j, c.legacy(name))
            && (c.legacy(name) in states[i].dir ==> RemovedIn(c, states, events, i - 1, j, c.legacy(name)))
  {
    LookFailed(c, states[j], events[j], states[j + 1]);
    AbsentIff(c, states, events, i, j, c.legacy(name));
  }

  // What a reader between its first look and its last has behind it.
  predicate LookedSince(c: Config, states: seq<State>, events: seq<Event>, i: nat, pid: nat, r: Reader)
    requires i < |events| < |states|
  {
    pid in states[i].readers && states[i].readers[pid] == Reader(r.name, LookCurrent)
    && if events[i] == FindRead(pid) then r.look == Resolved(r.name)
       else events[i] == MissRead(pid) && (r.look == LookLegacy || r.look == Resolved(c.legacy(r.name)))
  }

  lemma LookStep(c: Config, s: State, e: Event, t: State, pid: nat)
    requires Step(c, s, e, t) && pid in t.readers && (t.readers[pid].look.LookLegacy? || t.readers[pid].look.Resolved?)
    ensures pid in s.readers && s.readers[pid].name == t.readers[pid].name
    ensures var a, b := s.readers[pid].look, t.readers[pid].look;
            a == b
            || (a == LookCurrent && e == MissRead(pid) && b == LookLegacy)
            || (a == LookCurrent && e == FindRead(pid) && b == Resolved(t.readers[pid].name))
            || (a == LookLegacy && e == FindRead(pid) && b == Resolved(c.legacy(t.readers[pid].name)))
  {
    OnlyReadStepsMoveReaders(c, s, e, t);
  }

  lemma {:induction false} HasLooked(c: Config, states: seq<State>, events: seq<Event>, j: nat, pid: nat)
    returns (i: nat)
    requires IsRun(c, states, events) && j <= |events| && states[0].readers == map[] && pid in states[j].readers
    requires states[j].readers[pid].look.LookLegacy? || states[j].readers[pid].look.Resolved?
    ensures i < j && LookedSince(c, states, events, i, pid, states[j].readers[pid])
  {
    LookStep(c, states[j - 1], events[j - 1], states[j], pid);
    if states[j - 1].readers[pid].look == LookCurrent {
      i := j - 1;
    } else {
      i := HasLooked(c, states, events, j - 1, pid);
    }
  }

  /** Every miss of every run is of one of the two kinds, so the two conditions above cover all of them. */
  lemma EveryMissIsCovered(c: Config, states: seq<State>, events: seq<Event>, j: nat, pid: nat) returns (i: nat)
    requires IsRun(c, states, events) && j < |events| && states[0].readers == map[]
    requires pid in states[j + 1].readers && states[j + 1].readers[pid].look == Missed
    requires pid in states[j].readers && states[j].readers[pid].look != Missed
    ensures i < j
    ensures var name := states[j].readers[pid].name;
            MissedLegacy(c, states, events, i, j, pid, name) || MissedCurrent(states, events, i, j, pid, name)
  {
    MissStep(c, states[j], events[j], states[j + 1], pid);
    i := HasLooked(c, states, events, j, pid);
  }

  lemma MissStep(c: Config, s: State, e: Event, t: State, pid: nat)
    requires Step(c, s, e, t) && pid in t.readers && t.readers[pid].look == Missed
    requires pid in s.readers && s.readers[pid].look != Missed
    ensures (e == MissRead(pid) && s.readers[pid].look.LookLegacy?)
            || (e == OpenMisses(pid) && s.readers[pid].look.Resolved?)
  {
    OnlyReadStepsMoveReaders(c, s, e, t);
  }

  // ---- Each way to miss can be wrong ----

  // A saver replaces the legacy file by a current one while a reader stands still.
  function MissSaver(name: string, temp: string, phase: Phase): Saver {
    if phase.Opening? then Saver(name, true, [], Opening, false, "", 0, 0, false)
    else Saver(name, true, [], phase, true, temp, 1, 0, !phase.Writing?)
  }

  function MissState(c: Config, name: string, temp: string, bytes: Bytes, entries: map<string, nat>, phase: Phase,
                     look: Look): State
  {
    var before := phase.Opening?;
    State(entries, if before then map[0 := bytes] else map[0 := bytes, 1 := []], if before then map[] else map[1 := 1],
          if before then {c.legacy(name)} else {c.legacy(name), temp},
          map[1 := MissSaver(name, temp, phase)], map[9 := Reader(name, look)])
  }

  function MissStart(c: Config, name: string, bytes: Bytes, readers: map<nat, Reader>): State {
    State(map[c.legacy(name) := 0], map[0 := bytes], map[], {c.legacy(name)}, map[], readers)
  }

  function MissMiddle(c: Config, name: string, temp: string, bytes: Bytes, look: Look): seq<State> {
    var l := c.legacy(name);
    [MissStart(c, name, bytes, map[9 := Reader(name, look)]),
     MissState(c, name, temp, bytes, map[l := 0], Opening, look),
     MissState(c, name, temp, bytes, map[l := 0, temp := 1], Writing, look),
     MissState(c, name, temp, bytes, map[l := 0, temp := 1], Committing, look),
     MissState(c, name, temp, bytes, map[l := 0, name := 1], DroppingLegacy, look),
     MissState(c, name, temp, bytes, map[name := 1], Finished(true), look)]
  }

  // The names of the run are different.
  predicate MissNames(c: Config, name: string, temp: string) {
    Hidden(temp) && temp != name && c.legacy(name) != name && c.legacy(name) != temp
  }

  lemma MiddleBegins(c: Config, name: string, temp: string, bytes: Bytes, look: Look)
    requires MissNames(c, name, temp)
    ensures var s := MissMiddle(c, name, temp, bytes, look);
            SaverStep(c, s[0], BeginSave(1, name, true, []), s[1]) && OpenStep(s[1], Open(1, temp, 1), s[2])
  {
  }

  lemma MiddleEnds(c: Config, name: string, temp: string, bytes: Bytes, look: Look)
    requires MissNames(c, name, temp)
    ensures var s := MissMiddle(c, name, temp, bytes, look);
            SaverStep(c, s[2], EndOfFile(1), s[3])
  {
  }

  lemma MiddleReplaces(c: Config, name: string, temp: string, bytes: Bytes, look: Look)
    requires MissNames(c, name, temp)
    ensures var s := MissMiddle(c, name, temp, bytes, look);
            DirStep(c, s[3], Replace(1), s[4])
  {
    var l := c.legacy(name);
    assert Renamed(map[l := 0, temp := 1], temp, name) == map[l := 0, name := 1];
  }

  lemma MiddleDrops(c: Config, name: string, temp: string, bytes: Bytes, look: Look)
    requires MissNames(c, name, temp)
    ensures var s := MissMiddle(c, name, temp, bytes, look);
            DirStep(c, s[4], DropLegacy(1), s[5])
  {
    var l := c.legacy(name);
    assert map[l := 0, name := 1] - {l} == map[name := 1];
  }

  lemma MiddleLookups(c: Config, name: string, temp: string, bytes: Bytes, look: Look)
    requires MissNames(c, name, temp)
    ensures forall i :: 0 <= i < 6 ==> Lookup(c, MissMiddle(c, name, temp, bytes, look)[i], name).Some?
  {
  }

  /** A run in which the file is there in every state. */
  ghost predicate PresentRun(c: Config, states: seq<State>, events: seq<Event>, name: string) {
    IsRun(c, states, events) && forall i :: 0 <= i < |states| ==> Lookup(c, states[i], name).Some?
  }

  lemma MiddleRun(c: Config, name: string, temp: string, bytes: Bytes, look: Look)
    returns (states: seq<State>, events: seq<Event>)
    requires MissNames(c, name, temp)
    ensures |states| == 6 && PresentRun(c, states, events, name)
    ensures states[0] == MissStart(c, name, bytes, map[9 := Reader(name, look)])
    ensures states[5] == MissState(c, name, temp, bytes, map[name := 1], Finished(true), look)
  {
    MiddleBegins(c, name, temp, bytes, look);
    MiddleEnds(c, name, temp, bytes, look);
    MiddleReplaces(c, name, temp, bytes, look);
    MiddleDrops(c, name, temp, bytes, look);
    MiddleLookups(c, name, temp, bytes, look);
    states := MissMiddle(c, name, temp, bytes, look);
    events := [BeginSave(1, name, true, []), Open(1, temp, 1), EndOfFile(1), Replace(1), DropLegacy(1)];
  }

  lemma StepsAfter(c: Config, first: seq<State>, before: seq<Event>, s2: seq<State>, e2: seq<Event>, k: nat)
    requires IsRun(c, s2, e2) && |before| == |first| && k < |e2|
    ensures Step(c, (first + s2)[|first| + k], (before + e2)[|first| + k], (first + s2)[|first| + k + 1])
  {
    var s, e, t := s2[k], e2[k], s2[k + 1];
    assert Step(c, s, e, t);
    assert (first + s2)[|first| + k] == s && (before + e2)[|first| + k] == e && (first + s2)[|first| + k + 1] == t;
  }

  lemma StepsBefore(c: Config, s1: seq<State>, e1: seq<Event>, s2: seq<State>, after: seq<Event>, k: nat)
    requires IsRun(c, s1, e1) && k < |e1|
    ensures Step(c, (s1 + s2)[k], (e1 + after)[k], (s1 + s2)[k + 1])
  {
    var s, e, t := s1[k], e1[k], s1[k + 1];
    assert Step(c, s, e, t);
    assert (s1 + s2)[k] == s && (e1 + after)[k] == e && (s1 + s2)[k + 1] == t;
  }

  lemma JoinRuns(c: Config, s1: seq<State>, e1: seq<Event>, e: Event, s2: seq<State>, e2: seq<Event>, name: string)
    requires PresentRun(c, s1, e1, name) && PresentRun(c, s2, e2, name) && Step(c, s1[|e1|], e, s2[0])
    ensures PresentRun(c, s1 + s2, e1 + [e] + e2, name)
  {
    var states, events := s1 + s2, e1 + [e] + e2;
    forall i | 0 <= i < |events|
      ensures Step(c, states[i], events[i], states[i + 1])
    {
      if i < |e1| {
        StepsBefore(c, s1, e1, s2, [e] + e2, i);
        assert e1 + ([e] + e2) == events;
      } else if i > |e1| {
        StepsAfter(c, s1, e1 + [e], s2, e2, i - |s1|);
      }
    }
  }

  lemma OneMoreState(c: Config, states: seq<State>, events: seq<Event>, e: Event, t: State, name: string)
    requires PresentRun(c, states, events, name) && Step(c, states[|events|], e, t) && Lookup(c, t, name).Some?
    ensures PresentRun(c, states + [t], events + [e], name)
  {
    assert PresentRun(c, [t], [], name);
    JoinRuns(c, states, events, e, [t], [], name);
    assert events + [e] + [] == events + [e];
  }

  // The reader has looked for the current name of a file that has only its legacy entry.
  lemma FirstLookMisses(c: Config, name: string, bytes: Bytes) returns (states: seq<State>, events: seq<Event>)
    requires c.legacy(name) != name
    ensures |states| == 3 && PresentRun(c, states, events, name) && Initial(states[0])
    ensures states[2] == MissStart(c, name, bytes, map[9 := Reader(name, LookLegacy)])
  {
    var s0 := MissStart(c, name, bytes, map[]);
    var s1 := MissStart(c, name, bytes, map[9 := Reader(name, LookCurrent)]);
    var s2 := MissStart(c, name, bytes, map[9 := Reader(name, LookLegacy)]);
    assert ReadStep(c, s0, BeginRead(9, name), s1);
    assert ReadStep(c, s1, MissRead(9), s2);
    states, events := [s0, s1, s2], [BeginRead(9, name), MissRead(9)];
  }

  lemma FoundLegacy(c: Config, name: string, bytes: Bytes)
    ensures ReadStep(c, MissStart(c, name, bytes, map[9 := Reader(name, LookLegacy)]), FindRead(9),
                     MissStart(c, name, bytes, map[9 := Reader(name, Resolved(c.legacy(name)))]))
  {
  }

  lemma LastLookMisses(c: Config, name: string, temp: string, bytes: Bytes)
    requires MissNames(c, name, temp)
    ensures var end := (look: Look) => MissState(c, name, temp, bytes, map[name := 1], Finished(true), look);
            ReadStep(c, end(LookLegacy), MissRead(9), end(Missed))
            && ReadStep(c, end(Resolved(c.legacy(name))), OpenMisses(9), end(Missed))
  {
  }

  // The last state of a run, joined to the next run that starts there.
  lemma SameEnd(c: Config, s1: seq<State>, e1: seq<Event>, s2: seq<State>, e2: seq<Event>, name: string)
    requires PresentRun(c, s1, e1, name) && PresentRun(c, s2, e2, name) && |e2| > 0 && s1[|e1|] == s2[0]
    ensures PresentRun(c, s1 + s2[1..], e1 + e2, name)
  {
    assert Step(c, s2[0], e2[0], s2[1]);
    assert PresentRun(c, s2[1..], e2[1..], name) by {
      forall i | 0 <= i < |e2[1..]| ensures Step(c, s2[1..][i], e2[1..][i], s2[1..][i + 1]) {
        assert Step(c, s2[i + 1], e2[i + 1], s2[i + 2]);
      }
    }
    JoinRuns(c, s1, e1, e2[0], s2[1..], e2[1..], name);
    assert e1 + [e2[0]] + e2[1..] == e1 + e2;
  }

  /** The run ends with this reader told that the file is missing, though it was there in every state. */
  ghost predicate WronglyMissed(c: Config, states: seq<State>, events: seq<Event>, name: string, last: Event) {
    PresentRun(c, states, events, name) && |events| > 0 && Initial(states[0]) && events[|events| - 1] == last
    && 9 in states[|events|].readers && states[|events|].readers[9] == Reader(name, Missed)
  }

  /**
   * A reader finds no current entry, a saver replaces the legacy file by a current one, and the reader finds no
   * legacy entry, although the file was there in every state.
   */
  lemma LookCanMiss(c: Config, name: string, temp: string, bytes: Bytes)
    returns (states: seq<State>, events: seq<Event>)
    requires MissNames(c, name, temp)
    ensures WronglyMissed(c, states, events, name, MissRead(9))
  {
    states, events := FirstLookMisses(c, name, bytes);
    var m, save := MiddleRun(c, name, temp, bytes, LookLegacy);
    SameEnd(c, states, events, m, save, name);
    states, events := states + m[1..], events + save;
    LastLookMisses(c, name, temp, bytes);
    var last := MissState(c, name, temp, bytes, map[name := 1], Finished(true), Missed);
    OneMoreState(c, states, events, MissRead(9), last, name);
    states, events := states + [last], events + [MissRead(9)];
  }

  /** The same with the saver at work after the reader has found the legacy entry: opening it fails. */
  lemma OpenCanMissLegacy(c: Config, name: string, temp: string, bytes: Bytes)
    returns (states: seq<State>, events: seq<Event>)
    requires MissNames(c, name, temp)
    ensures WronglyMissed(c, states, events, name, OpenMisses(9))
  {
    states, events := FirstLookMisses(c, name, bytes);
    FoundLegacy(c, name, bytes);
    var m, save := MiddleRun(c, name, temp, bytes, Resolved(c.legacy(name)));
    JoinRuns(c, states, events, FindRead(9), m, save, name);
    states, events := states + m, events + [FindRead(9)] + save;
    LastLookMisses(c, name, temp, bytes);
    var last := MissState(c, name, temp, bytes, map[name := 1], Finished(true), Missed);
    OneMoreState(c, states, events, OpenMisses(9), last, name);
    states, events := states + [last], events + [OpenMisses(9)];
  }

  // A reader that finds the current entry, which then goes while the legacy entry stays.
  function BothStart(c: Config, name: string, bytes: Bytes, readers: map<nat, Reader>): State {
    State(map[name := 0, c.legacy(name) := 1], map[0 := bytes, 1 := bytes], map[], {name, c.legacy(name)}, map[],
          readers)
  }

  function BothEnd(c: Config, name: string, bytes: Bytes, look: Look): State {
    State(map[c.legacy(name) := 1], map[0 := bytes, 1 := bytes], map[], {name, c.legacy(name)}, map[],
          map[9 := Reader(name, look)])
  }

  lemma BothFound(c: Config, name: string, bytes: Bytes)
    ensures ReadStep(c, BothStart(c, name, bytes, map[]), BeginRead(9, name),
                     BothStart(c, name, bytes, map[9 := Reader(name, LookCurrent)]))
    ensures ReadStep(c, BothStart(c, name, bytes, map[9 := Reader(name, LookCurrent)]), FindRead(9),
                     BothStart(c, name, bytes, map[9 := Reader(name, Resolved(name))]))
  {
  }

  lemma BothLost(c: Config, name: string, bytes: Bytes)
    requires c.legacy(name) != name
    ensures DirStep(c, BothStart(c, name, bytes, map[9 := Reader(name, Resolved(name))]), Unlink(name),
                    BothEnd(c, name, bytes, Resolved(name)))
    ensures ReadStep(c, BothEnd(c, name, bytes, Resolved(name)), OpenMisses(9), BothEnd(c, name, bytes, Missed))
  {
    assert map[name := 0, c.legacy(name) := 1] - {name} == map[c.legacy(name) := 1];
  }

  /** With both entries there, a deleter that has taken only the current one so far makes opening it fail. */
  lemma OpenCanMissCurrent(c: Config, name: string, bytes: Bytes) returns (states: seq<State>, events: seq<Event>)
    requires c.legacy(name) != name
    ensures WronglyMissed(c, states, events, name, OpenMisses(9))
  {
    BothFound(c, name, bytes);
    BothLost(c, name, bytes);
    states := [BothStart(c, name, bytes, map[]), BothStart(c, name, bytes, map[9 := Reader(name, LookCurrent)]),
               BothStart(c, name, bytes, map[9 := Reader(name, Resolved(name))]),
               BothEnd(c, name, bytes, Resolved(name)), BothEnd(c, name, bytes, Missed)];
    events := [BeginRead(9, name), FindRead(9), Unlink(name), OpenMisses(9)];
  }
}
