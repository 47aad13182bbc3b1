/**
 * Savers, deleters and the cleaner of the S3 backend at work at the same time: each client call is one
 * atomic step, and the steps of different processes interleave freely.
 */
module S3Protocol {
  import opened Common
  import opened Parts
  import opened S3Keys
  import opened Exclusive
  import opened Presence

  /** A stored body and the digest its tag claims. */
  datatype Stored = Stored(body: Bytes, tag: Option<string>)

  datatype Phase = Checking | Sending | Tagging | Finished(ok: bool)

  datatype Saver = Saver(key: string, content: Bytes, overwrite: bool, multipart: bool, phase: Phase)

  datatype State = State(objects: map<string, Stored>, savers: map<nat, Saver>)

  datatype Event =
    | Begin(pid: nat, key: string, content: Bytes, overwrite: bool, multipart: bool)
    | Check(pid: nat)
    | Put(pid: nat)
    | Complete(pid: nat)
    | Refuse(pid: nat)
    | SetTag(pid: nat)
    | TagFails(pid: nat)
    | Fail(pid: nat)
    | Delete(key: string)

  predicate InPhase(s: State, pid: nat, phase: Phase) {
    pid in s.savers && s.savers[pid].phase == phase
  }

  function Moved(s: State, pid: nat, phase: Phase): map<nat, Saver>
    requires pid in s.savers
  {
    s.savers[pid := s.savers[pid].(phase := phase)]
  }

  /** `IfNoneMatch="*"` holds, or was not asked for. */
  predicate MayCommit(s: State, pid: nat)
    requires pid in s.savers
  {
    s.savers[pid].overwrite || s.savers[pid].key !in s.objects
  }

  /** One atomic step of some process. */
  predicate Step(hash: Hash, s: State, e: Event, t: State) {
    match e
    case Begin(pid, key, content, overwrite, multipart) =>
      pid !in s.savers
      && var first := if overwrite then Sending else Checking;
      t == s.(savers := s.savers[pid := Saver(key, content, overwrite, multipart, first)])
    case Check(pid) =>
      InPhase(s, pid, Checking)
      && t == s.(savers := Moved(s, pid, if s.savers[pid].key in s.objects then Finished(false) else Sending))
    case Put(pid) =>
      InPhase(s, pid, Sending) && !s.savers[pid].multipart && MayCommit(s, pid)
      && var p := s.savers[pid];
      t == State(s.objects[p.key := Stored(p.content, Some(hash(p.content)))], Moved(s, pid, Finished(true)))
    case Complete(pid) =>
      InPhase(s, pid, Sending) && s.savers[pid].multipart && MayCommit(s, pid)
      && var p := s.savers[pid];
      t == State(s.objects[p.key := Stored(p.content, None)], Moved(s, pid, Tagging))
    case Refuse(pid) =>
      InPhase(s, pid, Sending) && !MayCommit(s, pid) && t == s.(savers := Moved(s, pid, Finished(false)))
    case SetTag(pid) =>
      InPhase(s, pid, Tagging)
      && var p := s.savers[pid];
      t == State(if p.key in s.objects then s.objects[p.key := s.objects[p.key].(tag := Some(hash(p.content)))]
                 else s.objects,
                 Moved(s, pid, Finished(true)))
    case TagFails(pid) =>
      InPhase(s, pid, Tagging) && t == s.(savers := Moved(s, pid, Finished(true)))
    case Fail(pid) =>
      (InPhase(s, pid, Checking) || InPhase(s, pid, Sending)) && t == s.(savers := Moved(s, pid, Finished(false)))
    case Delete(key) =>
      t == s.(objects := s.objects - {key})
  }

  /** A run: any number of steps, interleaved in any way. */
  ghost predicate IsRun(hash: Hash, states: seq<State>, events: seq<Event>) {
    |states| == |events| + 1 && forall i :: 0 <= i < |events| ==> Step(hash, states[i], events[i], states[i + 1])
  }

  // ---- Truthful checksums ----

  /** What the metadata endpoint reports: the tag, else the digest of the streamed body. */
  function Reported(hash: Hash, o: Stored): string {
    if o.tag.Some? then o.tag.value else hash(o.body)
  }

  ghost predicate Truthful(hash: Hash, s: State) {
    forall k :: k in s.objects ==> Reported(hash, s.objects[k]) == hash(s.objects[k].body)
  }

  /** Between a completed multipart save and its tagging call, the key holds that save's content or nothing. */
  ghost predicate TagsPending(s: State) {
    forall p :: InPhase(s, p, Tagging) && s.savers[p].key in s.objects ==>
      s.objects[s.savers[p].key].body == s.savers[p].content
  }

  predicate Commits(e: Event) {
    e.Put? || e.Complete?
  }

  /** No save commits to a key while the tagging call of another save of that key is outstanding. */
  ghost predicate Undisturbed(s: State, e: Event) {
    Commits(e) && e.pid in s.savers ==>
      forall q :: q != e.pid && InPhase(s, q, Tagging) ==> s.savers[q].key != s.savers[e.pid].key
  }

  lemma StepKeepsTruth(hash: Hash, s: State, e: Event, t: State)
    requires Step(hash, s, e, t) && Undisturbed(s, e) && Truthful(hash, s) && TagsPending(s)
    ensures Truthful(hash, t) && TagsPending(t)
  {
    forall p | InPhase(t, p, Tagging) && t.savers[p].key in t.objects
      ensures t.objects[t.savers[p].key].body == t.savers[p].content
    {
      if InPhase(s, p, Tagging) && t.savers[p].key in s.objects {
        assert s.objects[s.savers[p].key].body == s.savers[p].content;
      }
    }
  }

  /**
   * As long as no save commits to a key whose tagging call is outstanding, every reachable state reports the
   * digest of the body it stores: also between completion and tagging, and after a failed tagging call.
   */
  lemma {:induction false} ChecksumsTruthful(hash: Hash, states: seq<State>, events: seq<Event>, i: nat)
    requires IsRun(hash, states, events) && i < |states|
    requires forall j :: 0 <= j < |events| ==> Undisturbed(states[j], events[j])
    requires Truthful(hash, states[0]) && TagsPending(states[0])
    ensures Truthful(hash, states[i]) && TagsPending(states[i])
  {
    if i > 0 {
      ChecksumsTruthful(hash, states, events, i - 1);
      StepKeepsTruth(hash, states[i - 1], events[i - 1], states[i]);
    }
  }

  /** A tagging call keeps the reports truthful exactly when the key is gone or its body has the saver's digest. */
  lemma TaggingTruthfulIff(hash: Hash, s: State, pid: nat, t: State)
    requires Truthful(hash, s) && Step(hash, s, SetTag(pid), t)
    ensures var p := s.savers[pid];
            Truthful(hash, t) <==> p.key !in s.objects || hash(s.objects[p.key].body) == hash(p.content)
  {
    var p := s.savers[pid];
    if p.key in s.objects {
      assert t.objects[p.key] == Stored(s.objects[p.key].body, Some(hash(p.content)));
    }
  }

  /** The condition of one tagging call: the key is gone, or its body has the digest that the call sets. */
  ghost predicate TagFits(hash: Hash, s: State, pid: nat) {
    pid in s.savers
    && (s.savers[pid].key !in s.objects || hash(s.objects[s.savers[pid].key].body) == hash(s.savers[pid].content))
  }

  lemma UntaggedStepsKeepTruth(hash: Hash, s: State, e: Event, t: State)
    requires Step(hash, s, e, t) && Truthful(hash, s) && !e.SetTag?
    ensures Truthful(hash, t)
  {
  }

  lemma {:induction false} TruthfulUpTo(hash: Hash, states: seq<State>, events: seq<Event>, i: nat)
    requires IsRun(hash, states, events) && i < |states| && Truthful(hash, states[0])
    requires forall j :: 0 <= j < |events| && events[j].SetTag? ==> TagFits(hash, states[j], events[j].pid)
    ensures Truthful(hash, states[i])
  {
    if i > 0 {
      TruthfulUpTo(hash, states, events, i - 1);
      if events[i - 1].SetTag? {
        TaggingTruthfulIff(hash, states[i - 1], events[i - 1].pid, states[i]);
      } else {
        UntaggedStepsKeepTruth(hash, states[i - 1], events[i - 1], states[i]);
      }
    }
  }

  /** The exact condition for whole runs: every state reports truthfully exactly when every tagging call fits. */
  lemma ChecksumsTruthfulIff(hash: Hash, states: seq<State>, events: seq<Event>)
    requires IsRun(hash, states, events) && Truthful(hash, states[0])
    ensures (forall i :: 0 <= i < |states| ==> Truthful(hash, states[i]))
            <==> forall j :: 0 <= j < |events| && events[j].SetTag? ==> TagFits(hash, states[j], events[j].pid)
  {
    if forall i :: 0 <= i < |states| ==> Truthful(hash, states[i]) {
      forall j | 0 <= j < |events| && events[j].SetTag?
        ensures TagFits(hash, states[j], events[j].pid)
      {
        assert Truthful(hash, states[j]) && Truthful(hash, states[j + 1]);
        TaggingTruthfulIff(hash, states[j], events[j].pid, states[j + 1]);
      }
    }
    if forall j :: 0 <= j < |events| && events[j].SetTag? ==> TagFits(hash, states[j], events[j].pid) {
      forall i | 0 <= i < |states|
        ensures Truthful(hash, states[i])
      {
        TruthfulUpTo(hash, states, events, i);
      }
    }
  }

  // ---- The same in terms of events alone ----

  /** The event decides what the key holds: a commit to it, or its deletion. */
  predicate Touches(s: State, e: Event, key: string) {
    (e.Delete? && e.key == key) || (Commits(e) && e.pid in s.savers && s.savers[e.pid].key == key)
  }

  /** Event `k` is the last before `j` to decide what the key holds. */
  ghost predicate LastTouch(states: seq<State>, events: seq<Event>, k: nat, j: nat, key: string)
    requires k < j <= |events| < |states|
  {
    Touches(states[k], events[k], key) && forall l :: k < l < j ==> !Touches(states[l], events[l], key)
  }

  lemma TouchStep(hash: Hash, s: State, e: Event, t: State, key: string)
    requires Step(hash, s, e, t)
    ensures !Touches(s, e, key) ==>
              (key in t.objects <==> key in s.objects)
              && (key in s.objects ==> t.objects[key].body == s.objects[key].body)
    ensures Touches(s, e, key) && e.Delete? ==> key !in t.objects
    ensures Touches(s, e, key) && Commits(e) ==> key in t.objects && t.objects[key].body == s.savers[e.pid].content
  {
  }

  lemma {:induction false} LastTouchStands(hash: Hash, states: seq<State>, events: seq<Event>, k: nat, j: nat,
                                           key: string)
    requires IsRun(hash, states, events) && k < j <= |events| && LastTouch(states, events, k, j, key)
    ensures events[k].Delete? ==> key !in states[j].objects
    ensures Commits(events[k]) ==>
              key in states[j].objects && states[j].objects[key].body == states[k].savers[events[k].pid].content
  {
    TouchStep(hash, states[j - 1], events[j - 1], states[j], key);
    if k < j - 1 { LastTouchStands(hash, states, events, k, j - 1, key); }
  }

  lemma TaggingStep(hash: Hash, s: State, e: Event, t: State, pid: nat)
    requires Step(hash, s, e, t) && InPhase(t, pid, Tagging)
    ensures pid in s.savers && s.savers[pid].key == t.savers[pid].key
    ensures InPhase(s, pid, Tagging) || e == Complete(pid)
  {
  }

  lemma {:induction false} TaggedAfterCommit(hash: Hash, states: seq<State>, events: seq<Event>, j: nat, pid: nat)
    returns (k: nat)
    requires IsRun(hash, states, events) && j <= |events| && states[0].savers == map[]
    requires InPhase(states[j], pid, Tagging)
    ensures k < j && Touches(states[k], events[k], states[j].savers[pid].key)
  {
    TaggingStep(hash, states[j - 1], events[j - 1], states[j], pid);
    if events[j - 1] == Complete(pid) {
      k := j - 1;
    } else {
      k := TaggedAfterCommit(hash, states, events, j - 1, pid);
    }
  }

  /** If the last event on the key before this tagging call was a commit, it stored content of the digest set. */
  ghost predicate TagsLastCommit(hash: Hash, states: seq<State>, events: seq<Event>, j: nat)
    requires j < |events| < |states| && events[j].SetTag? && events[j].pid in states[j].savers
  {
    var p := states[j].savers[events[j].pid];
    forall k :: 0 <= k < j && LastTouch(states, events, k, j, p.key) && Commits(events[k]) ==>
      hash(states[k].savers[events[k].pid].content) == hash(p.content)
  }

  lemma TagFitsIff(hash: Hash, states: seq<State>, events: seq<Event>, j: nat)
    requires IsRun(hash, states, events) && states[0].savers == map[]
    requires j < |events| && events[j].SetTag? && InPhase(states[j], events[j].pid, Tagging)
    ensures TagFits(hash, states[j], events[j].pid) <==> TagsLastCommit(hash, states, events, j)
  {
    var key := states[j].savers[events[j].pid].key;
    var m := TaggedAfterCommit(hash, states, events, j, events[j].pid);
    var marks := seq(|events|, k requires 0 <= k < |events| => Touches(states[k], events[k], key));
    assert marks[m];
    var last := LastMark(marks, j);
    forall l | last < l < j
      ensures !Touches(states[l], events[l], key)
    {
      assert !marks[l];
    }
    LastTouchStands(hash, states, events, last, j, key);
    if TagFits(hash, states[j], events[j].pid) {
      forall k | 0 <= k < j && LastTouch(states, events, k, j, key) && Commits(events[k])
        ensures hash(states[k].savers[events[k].pid].content) == hash(states[j].savers[events[j].pid].content)
      {
        LastTouchStands(hash, states, events, k, j, key);
      }
    }
  }

  lemma SetTagIsTagging(hash: Hash, s: State, e: Event, t: State)
    requires Step(hash, s, e, t) && e.SetTag?
    ensures InPhase(s, e.pid, Tagging)
  {
  }

  /**
   * Every state of a run reports truthfully exactly when each tagging call that does reach S3 sets the digest of
   * what the last commit to its key stored, unless the key was deleted since.
   */
  lemma TruthfulIffTagsFollowCommits(hash: Hash, states: seq<State>, events: seq<Event>)
    requires IsRun(hash, states, events) && Truthful(hash, states[0]) && states[0].savers == map[]
    ensures forall j :: 0 <= j < |events| && events[j].SetTag? ==> events[j].pid in states[j].savers
    ensures (forall i :: 0 <= i < |states| ==> Truthful(hash, states[i]))
            <==> forall j :: 0 <= j < |events| && events[j].SetTag? ==> TagsLastCommit(hash, states, events, j)
  {
    forall j | 0 <= j < |events| && events[j].SetTag?
      ensures events[j].pid in states[j].savers
      ensures TagFits(hash, states[j], events[j].pid) <==> TagsLastCommit(hash, states, events, j)
    {
      SetTagIsTagging(hash, states[j], events[j], states[j + 1]);
      TagFitsIff(hash, states, events, j);
    }
    ChecksumsTruthfulIff(hash, states, events);
  }

  /** It can fail: two overlapping multipart saves of one key leave a stale tag. */
  lemma OverlappingSavesLeaveStaleTag(hash: Hash, key: string, a: Bytes, b: Bytes)
    returns (states: seq<State>, events: seq<Event>)
    requires hash(a) != hash(b)
    ensures IsRun(hash, states, events) && states[0] == State(map[], map[])
    ensures !Truthful(hash, states[|events|])
  {
    var one, two := Saver(key, a, true, true, Sending), Saver(key, b, true, true, Sending);
    var s0 := State(map[], map[]);
    var s1 := State(map[], map[1 := one]);
    var s2 := State(map[], map[1 := one, 2 := two]);
    var s3 := State(map[key := Stored(a, None)], map[1 := one.(phase := Tagging), 2 := two]);
    var s4 := State(map[key := Stored(b, None)], map[1 := one.(phase := Tagging), 2 := two.(phase := Tagging)]);
    var s5 := State(map[key := Stored(b, Some(hash(a)))],
                    map[1 := one.(phase := Finished(true)), 2 := two.(phase := Tagging)]);
    events := [Begin(1, key, a, true, true), Begin(2, key, b, true, true), Complete(1), Complete(2), SetTag(1)];
    states := [s0, s1, s2, s3, s4, s5];
    assert Step(hash, s0, events[0], s1);
    assert Step(hash, s1, events[1], s2);
    assert Step(hash, s2, events[2], s3);
    assert Step(hash, s3, events[3], s4);
    assert Step(hash, s4, events[4], s5);
    assert Reported(hash, s5.objects[key]) != hash(s5.objects[key].body);
  }

  // ---- Exclusive creation ----

  /** A step as the key sees it: committed by a non-overwriting save, removed, or neither. */
  function ChangeOf(s: State, e: Event, t: State, key: string): Change {
    if Commits(e) && e.pid in s.savers && s.savers[e.pid].key == key && !s.savers[e.pid].overwrite then Created
    else if key in s.objects && key !in t.objects then Removed
    else Other
  }

  function Changes(states: seq<State>, events: seq<Event>, key: string): (c: seq<Change>)
    requires |states| == |events| + 1
    ensures |c| == |events|
  {
    seq(|events|, i requires 0 <= i < |events| => ChangeOf(states[i], events[i], states[i + 1], key))
  }

  // A conditional commit succeeds only on an absent key, and nothing but a deletion takes a key away.
  lemma StepPresence(hash: Hash, s: State, e: Event, t: State, key: string)
    requires Step(hash, s, e, t)
    ensures ChangeOf(s, e, t, key) == Created ==> key !in s.objects && key in t.objects
  {
  }

  /**
   * Under every interleaving, starting with the key absent, the saves with `overwrite=False` that committed
   * to it number at most one more than its removals, and not even that while it is absent.
   */
  lemma CreatesBounded(hash: Hash, states: seq<State>, events: seq<Event>, key: string)
    requires IsRun(hash, states, events) && key !in states[0].objects
    ensures var c := Changes(states, events, key);
            Count(c, Created) <= Count(c, Removed) + (if key in states[|events|].objects then 1 else 0)
  {
    forall i | 0 <= i < |events| && ChangeOf(states[i], events[i], states[i + 1], key) == Created
      ensures key !in states[i].objects && key in states[i + 1].objects
    {
      StepPresence(hash, states[i], events[i], states[i + 1], key);
    }
    CountedCreates(states, events, key);
  }

  lemma CountedCreates(states: seq<State>, events: seq<Event>, key: string)
    requires |states| == |events| + 1 && key !in states[0].objects
    requires forall i :: 0 <= i < |events| && ChangeOf(states[i], events[i], states[i + 1], key) == Created ==>
                           key !in states[i].objects && key in states[i + 1].objects
    ensures var c := Changes(states, events, key);
            Count(c, Created) <= Count(c, Removed) + (if key in states[|events|].objects then 1 else 0)
  {
    var present := seq(|states|, i requires 0 <= i < |states| => key in states[i].objects);
    CreationsBounded(present, Changes(states, events, key));
  }

  /** The saves with `overwrite=False` of this key that have succeeded or can no longer fail. */
  ghost function Winners(s: State, key: string): set<nat> {
    set p | p in s.savers && s.savers[p].key == key && !s.savers[p].overwrite
            && (s.savers[p].phase.Tagging? || s.savers[p].phase == Finished(true))
  }

  lemma WinnersStep(hash: Hash, s: State, e: Event, t: State, key: string)
    requires Step(hash, s, e, t)
    ensures |Winners(t, key)| <= |Winners(s, key)| + (if ChangeOf(s, e, t, key) == Created then 1 else 0)
  {
    if ChangeOf(s, e, t, key) == Created {
      SubsetSize(Winners(t, key), Winners(s, key) + {e.pid});
    } else {
      SubsetSize(Winners(t, key), Winners(s, key));
    }
  }

  /**
   * Successful saves with `overwrite=False` of a key that was absent, under every interleaving: at most one
   * more than the removals of the key.
   */
  lemma SuccessesBounded(hash: Hash, states: seq<State>, events: seq<Event>, key: string)
    requires IsRun(hash, states, events) && key !in states[0].objects && Winners(states[0], key) == {}
    ensures |Winners(states[|events|], key)| <= Count(Changes(states, events, key), Removed) + 1
  {
    forall i | 0 <= i < |events|
      ensures |Winners(states[i + 1], key)| <= |Winners(states[i], key)|
              + (if ChangeOf(states[i], events[i], states[i + 1], key) == Created then 1 else 0)
    {
      WinnersStep(hash, states[i], events[i], states[i + 1], key);
    }
    CountedWinners(states, events, key);
    CreatesBounded(hash, states, events, key);
  }

  lemma CountedWinners(states: seq<State>, events: seq<Event>, key: string)
    requires |states| == |events| + 1 && Winners(states[0], key) == {}
    requires forall i :: 0 <= i < |events| ==>
               |Winners(states[i + 1], key)| <= |Winners(states[i], key)|
               + (if ChangeOf(states[i], events[i], states[i + 1], key) == Created then 1 else 0)
    ensures |Winners(states[|events|], key)| <= Count(Changes(states, events, key), Created)
  {
    WinnersBounded(seq(|states|, i requires 0 <= i < |states| => |Winners(states[i], key)|),
                   Changes(states, events, key));
  }
}
