/**
 * The local storage protocol of `vsem_fms/app/storage/local.py` with many savers, readers, deleters and a
 * cleaner at work in one folder's directory.  Each filesystem call is one atomic step; steps of different
 * processes interleave freely, any process may stop at any point, and any entry may be unlinked at any time.
 *
 * A directory maps names to inodes; inodes hold bytes and outlive their names.
 */
module LocalProtocol {
  import opened Common
  import opened Parts
  import opened Paging
  import opened Exclusive

  /** Where `save_file` is; `temp`, `inode` and `written` of the saver mean something once the file is open. */
  datatype Phase =
    | CheckCurrent
    | CheckLegacy
    | Opening
    | Writing
    | Committing
    | Linked
    | DroppingLegacy
    | CleaningUp
    | Finished(ok: bool)

  datatype Saver = Saver(name: string, overwrite: bool, content: Bytes, phase: Phase,
                         started: bool, temp: string, inode: nat, written: nat, whole: bool)

  /** Where a read is: looking for the two names in turn, about to open the one it found, reading, or failed. */
  datatype Look =
    | LookCurrent
    | LookLegacy
    | Resolved(source: string)
    | Reading(source: string, inode: nat, got: Bytes)
    | Missed

  datatype Reader = Reader(name: string, look: Look)

  datatype State = State(dir: map<string, nat>, data: map<nat, Bytes>, owner: map<nat, nat>, usedTemps: set<string>,
                         savers: map<nat, Saver>, readers: map<nat, Reader>)

  datatype Event =
    | BeginSave(pid: nat, name: string, overwrite: bool, content: Bytes)
    | Exists(pid: nat)
    | LegacyExists(pid: nat)
    | Open(pid: nat, temp: string, inode: nat)
    | Write(pid: nat, count: nat)
    | EndOfFile(pid: nat)
    | Replace(pid: nat)
    | Link(pid: nat)
    | RemoveTemp(pid: nat)
    | DropLegacy(pid: nat)
    | GiveUp(pid: nat)
    | CleanUp(pid: nat)
    | Stop(pid: nat)
    | Unlink(name: string)
    | BeginRead(pid: nat, name: string)
    | FindRead(pid: nat)
    | MissRead(pid: nat)
    | OpenRead(pid: nat)
    | OpenMisses(pid: nat)
    | ReadChunk(pid: nat, count: nat)

  /** The fixed parameters: the size limit and the legacy hashed name of each name. */
  datatype Config = Config(maxSize: nat, legacy: string -> string)

  predicate At(s: State, pid: nat, phase: Phase) {
    pid in s.savers && s.savers[pid].phase == phase
  }

  function Set(s: State, pid: nat, saver: Saver): State {
    s.(savers := s.savers[pid := saver])
  }

  function Goto(s: State, pid: nat, phase: Phase): State
    requires pid in s.savers
  {
    Set(s, pid, s.savers[pid].(phase := phase))
  }

  /** `os.replace(a, b)`: renaming onto another link of the same file does nothing. */
  function Renamed(dir: map<string, nat>, a: string, b: string): map<string, nat>
    requires a in dir
  {
    if b in dir && dir[b] == dir[a] then dir else (dir - {a})[b := dir[a]]
  }

  /** Steps that only move one saver on: checks, the end of the stream, giving up, stopping at any point. */
  predicate SaverStep(c: Config, s: State, e: Event, t: State) {
    match e
    case BeginSave(pid, name, overwrite, content) =>
      pid !in s.savers
      && var first := if overwrite then Opening else CheckCurrent;
      t == Set(s, pid, Saver(name, overwrite, content, first, false, "", 0, 0, false))
    case Exists(pid) =>
      At(s, pid, CheckCurrent)
      && t == Goto(s, pid, if s.savers[pid].name in s.dir then Finished(false) else CheckLegacy)
    case LegacyExists(pid) =>
      At(s, pid, CheckLegacy)
      && t == Goto(s, pid, if c.legacy(s.savers[pid].name) in s.dir then Finished(false) else Opening)
    case EndOfFile(pid) =>
      At(s, pid, Writing)
      && var p := s.savers[pid];
      p.written == |p.content| && t == Set(s, pid, p.(phase := Committing, whole := true))
    case GiveUp(pid) =>
      (At(s, pid, Writing) || At(s, pid, Committing) || At(s, pid, Linked)) && t == Goto(s, pid, CleaningUp)
    case Stop(pid) =>
      pid in s.savers && !s.savers[pid].phase.Finished? && t == Goto(s, pid, Finished(false))
    case _ => false
  }

  /** `open_file(temp_path, "xb")`: a new inode under a fresh temporary name. */
  predicate OpenStep(s: State, e: Event, t: State) {
    e.Open? && At(s, e.pid, Opening) && Hidden(e.temp) && e.temp !in s.usedTemps && e.temp !in s.dir
    && e.inode !in s.data
    && t == s.(dir := s.dir[e.temp := e.inode], data := s.data[e.inode := []], owner := s.owner[e.inode := e.pid],
               usedTemps := s.usedTemps + {e.temp},
               savers := s.savers[e.pid := s.savers[e.pid].(phase := Writing, started := true, temp := e.temp,
                                                            inode := e.inode)])
  }

  /** One chunk is appended through the open file, after the size check. */
  predicate WriteStep(c: Config, s: State, e: Event, t: State) {
    e.Write? && At(s, e.pid, Writing)
    && var p := s.savers[e.pid];
    p.inode in s.data && 0 < e.count && p.written + e.count <= |p.content| && p.written + e.count <= c.maxSize
    && t == s.(data := s.data[p.inode := s.data[p.inode] + p.content[p.written..p.written + e.count]],
               savers := s.savers[e.pid := p.(written := p.written + e.count)])
  }

  /** The directory after a commit, a removal or a clean-up, and where its saver goes next. */
  predicate DirStep(c: Config, s: State, e: Event, t: State) {
    match e
    case Replace(pid) =>
      At(s, pid, Committing)
      && var p := s.savers[pid];
      p.overwrite && p.temp in s.dir
      && t == Goto(s.(dir := Renamed(s.dir, p.temp, p.name)), pid, DroppingLegacy)
    case Link(pid) =>
      At(s, pid, Committing)
      && var p := s.savers[pid];
      !p.overwrite && p.temp in s.dir && p.name !in s.dir
      && t == Goto(s.(dir := s.dir[p.name := s.dir[p.temp]]), pid, Linked)
    case RemoveTemp(pid) =>
      At(s, pid, Linked) && t == Goto(s.(dir := s.dir - {s.savers[pid].temp}), pid, DroppingLegacy)
    case DropLegacy(pid) =>
      At(s, pid, DroppingLegacy)
      && var p := s.savers[pid];
      var legacy := c.legacy(p.name);
      t == Goto(s.(dir := if legacy != p.name then s.dir - {legacy} else s.dir), pid, Finished(true))
    case CleanUp(pid) =>
      At(s, pid, CleaningUp) && t == Goto(s.(dir := s.dir - {s.savers[pid].temp}), pid, Finished(false))
    case Unlink(name) =>
      name in s.dir && t == s.(dir := s.dir - {name})
    case _ => false
  }

  /** The name a reader looks for next. */
  function Sought(c: Config, r: Reader): string {
    if r.look.LookLegacy? then c.legacy(r.name) else r.name
  }

  predicate Looking(s: State, pid: nat) {
    pid in s.readers && (s.readers[pid].look.LookCurrent? || s.readers[pid].look.LookLegacy?)
  }

  function Turned(s: State, pid: nat, look: Look): State
    requires pid in s.readers
  {
    s.(readers := s.readers[pid := s.readers[pid].(look := look)])
  }

  /** `_resolve_file_path` looks for the current and then the legacy name; opening what it found is a later step. */
  predicate ReadStep(c: Config, s: State, e: Event, t: State) {
    match e
    case BeginRead(pid, name) =>
      pid !in s.readers && t == s.(readers := s.readers[pid := Reader(name, LookCurrent)])
    case FindRead(pid) =>
      Looking(s, pid) && Sought(c, s.readers[pid]) in s.dir
      && t == Turned(s, pid, Resolved(Sought(c, s.readers[pid])))
    case MissRead(pid) =>
      Looking(s, pid) && Sought(c, s.readers[pid]) !in s.dir
      && t == Turned(s, pid, if s.readers[pid].look.LookCurrent? then LookLegacy else Missed)
    case OpenRead(pid) =>
      pid in s.readers && s.readers[pid].look.Resolved?
      && var source := s.readers[pid].look.source;
      source in s.dir && t == Turned(s, pid, Reading(source, s.dir[source], []))
    case OpenMisses(pid) =>
      pid in s.readers && s.readers[pid].look.Resolved? && s.readers[pid].look.source !in s.dir
      && t == Turned(s, pid, Missed)
    case ReadChunk(pid, count) =>
      pid in s.readers && s.readers[pid].look.Reading?
      && var look := s.readers[pid].look;
      look.inode in s.data && 0 < count && |look.got| + count <= |s.data[look.inode]|
      && t == Turned(s, pid, look.(got := look.got + s.data[look.inode][|look.got|..|look.got| + count]))
    case _ => false
  }

  predicate Step(c: Config, s: State, e: Event, t: State) {
    SaverStep(c, s, e, t) || OpenStep(s, e, t) || WriteStep(c, s, e, t) || DirStep(c, s, e, t) || ReadStep(c, s, e, t)
  }

  ghost predicate IsRun(c: Config, states: seq<State>, events: seq<Event>) {
    |states| == |events| + 1 && forall i :: 0 <= i < |events| ==> Step(c, states[i], events[i], states[i + 1])
  }

  /** At the start nobody is at work and every entry is a file of its own standing. */
  predicate Initial(s: State) {
    s.owner == map[] && s.savers == map[] && s.readers == map[]
    && (forall n :: n in s.dir ==> s.dir[n] in s.data && n in s.usedTemps)
  }

  // ---- The invariant ----

  /** The inode holds one upload in full, size-checked, or a file that was there before. */
  predicate Complete(c: Config, base: map<nat, Bytes>, s: State, inode: nat) {
    inode in s.data
    && if inode in s.owner
       then s.owner[inode] in s.savers
            && var p := s.savers[s.owner[inode]];
            p.whole && s.data[inode] == p.content && |p.content| <= c.maxSize
       else inode in base && s.data[inode] == base[inode]
  }

  /** A saver that has opened its file owns that inode, under a temporary name of its own. */
  ghost predicate SaverOk(c: Config, s: State, pid: nat)
    requires pid in s.savers
  {
    var p := s.savers[pid];
    (p.started ==>
       p.inode in s.data && p.inode in s.owner && s.owner[p.inode] == pid && Hidden(p.temp) && p.temp in s.usedTemps
       && p.written <= |p.content| && p.written <= c.maxSize && s.data[p.inode] == p.content[..p.written]
       && (p.whole ==> p.written == |p.content|))
    && (!p.started ==> p.written == 0 && !p.whole)
    && PhaseOk(p)
  }

  predicate PhaseOk(p: Saver) {
    match p.phase
    case CheckCurrent => !p.started
    case CheckLegacy => !p.started
    case Opening => !p.started
    case Writing => p.started && !p.whole
    case Committing => p.started && p.whole
    case Linked => p.started && p.whole
    case CleaningUp => p.started
    case _ => true
  }

  /** An entry names a complete file, or it is the temporary name under which a saver writes. */
  predicate EntryOk(c: Config, base: map<nat, Bytes>, s: State, name: string)
    requires name in s.dir
  {
    Complete(c, base, s, s.dir[name])
    || (s.dir[name] in s.owner && s.owner[s.dir[name]] in s.savers
        && var p := s.savers[s.owner[s.dir[name]]];
        p.started && p.inode == s.dir[name] && p.temp == name)
  }

  /** No saver has used this name for its temporary file. */
  ghost predicate NotTemp(s: State, name: string) {
    forall p :: p in s.savers && s.savers[p].started ==> s.savers[p].temp != name
  }

  /** What a reader of a name that is not temporary has read so far is the front of a complete file. */
  ghost predicate ReaderOk(c: Config, base: map<nat, Bytes>, s: State, pid: nat)
    requires pid in s.readers
  {
    var r := s.readers[pid];
    r.look.Reading? && NotTemp(s, r.look.source) ==>
      Complete(c, base, s, r.look.inode) && r.look.got <= s.data[r.look.inode]
  }

  ghost predicate Inv(c: Config, base: map<nat, Bytes>, s: State) {
    (forall p :: p in s.savers ==> SaverOk(c, s, p))
    && (forall p, q :: p in s.savers && q in s.savers && p != q && s.savers[p].started && s.savers[q].started ==>
          s.savers[p].temp != s.savers[q].temp)
    && (forall i :: i in s.owner ==> i in s.data && s.owner[i] in s.savers && s.savers[s.owner[i]].started
                                     && s.savers[s.owner[i]].inode == i)
    && (forall n :: n in s.dir ==> EntryOk(c, base, s, n))
    && (forall r :: r in s.readers ==> ReaderOk(c, base, s, r))
  }

  lemma InitialInv(c: Config, s: State)
    requires Initial(s)
    ensures Inv(c, s.data, s)
  {
  }

  // ---- What one step can change ----

  /** A saver keeps its request, its file and its temporary name. */
  predicate Continues(a: Saver, b: Saver) {
    b.name == a.name && b.content == a.content && b.overwrite == a.overwrite
    && (a.started ==> b.started && b.temp == a.temp && b.inode == a.inode) && (a.whole ==> b.whole)
  }

  ghost predicate SaverFrame(s: State, e: Event, t: State) {
    (forall p :: p in s.savers ==> p in t.savers && Continues(s.savers[p], t.savers[p]))
    && (forall p :: p in t.savers && t.savers[p].started && !(p in s.savers && s.savers[p].started) ==>
          e.Open? && e.pid == p && t.savers[p].temp == e.temp && t.savers[p].inode == e.inode
          && e.temp !in s.usedTemps && e.temp !in s.dir)
  }

  ghost predicate DataFrame(s: State, e: Event, t: State) {
    (forall i :: i in s.data ==>
       i in t.data && (t.data[i] == s.data[i] || (e.Write? && At(s, e.pid, Writing) && i == s.savers[e.pid].inode)))
    && (forall i :: i in s.owner ==> i in t.owner && t.owner[i] == s.owner[i])
    && (forall i :: i in t.owner && i !in s.owner ==>
          e.Open? && i == e.inode && t.owner[i] == e.pid && i in t.data && i !in s.data && e.pid in t.savers
          && t.savers[e.pid].started && t.savers[e.pid].inode == i && t.savers[e.pid].temp == e.temp)
  }

  ghost predicate DirFrame(s: State, e: Event, t: State) {
    forall n :: n in t.dir ==>
      (n in s.dir && t.dir[n] == s.dir[n])
      || (e.Open? && n == e.temp && t.dir[n] == e.inode && e.inode in t.owner && e.inode !in s.owner)
      || ((e.Replace? || e.Link?) && At(s, e.pid, Committing) && s.savers[e.pid].temp in s.dir
          && n == s.savers[e.pid].name && t.dir[n] == s.dir[s.savers[e.pid].temp])
  }

  ghost predicate Framed(s: State, e: Event, t: State) {
    SaverFrame(s, e, t) && DataFrame(s, e, t) && DirFrame(s, e, t)
  }

  // Only the saver itself moves, and none opens a file.
  lemma SaverStepMoves(c: Config, s: State, e: Event, t: State)
    requires SaverStep(c, s, e, t)
    ensures t == s.(savers := t.savers)
    ensures forall p :: p in s.savers ==> p in t.savers && Continues(s.savers[p], t.savers[p])
    ensures forall p :: p in t.savers && t.savers[p].started ==> p in s.savers && s.savers[p].started
  {
  }

  lemma SaverStepFrames(c: Config, s: State, e: Event, t: State)
    requires SaverStep(c, s, e, t)
    ensures Framed(s, e, t)
  {
    SaverStepMoves(c, s, e, t);
    FramedBySavers(s, e, t);
  }

  lemma FramedBySavers(s: State, e: Event, t: State)
    requires t == s.(savers := t.savers)
    requires forall p :: p in s.savers ==> p in t.savers && Continues(s.savers[p], t.savers[p])
    requires forall p :: p in t.savers && t.savers[p].started ==> p in s.savers && s.savers[p].started
    ensures Framed(s, e, t)
  {
  }

  lemma OpenStepFrames(s: State, e: Event, t: State)
    requires OpenStep(s, e, t) && !s.savers[e.pid].started && forall i :: i in s.owner ==> i in s.data
    ensures Framed(s, e, t)
  {
  }

  lemma WriteStepFrames(c: Config, s: State, e: Event, t: State)
    requires WriteStep(c, s, e, t)
    ensures Framed(s, e, t)
  {
  }

  lemma CommitFrames(c: Config, s: State, e: Event, t: State)
    requires DirStep(c, s, e, t) && (e.Replace? || e.Link?)
    ensures Framed(s, e, t)
  {
  }

  lemma RemovalFrames(c: Config, s: State, e: Event, t: State)
    requires DirStep(c, s, e, t) && !e.Replace? && !e.Link?
    ensures Framed(s, e, t)
  {
  }

  lemma ReadStepFrames(c: Config, s: State, e: Event, t: State)
    requires ReadStep(c, s, e, t)
    ensures Framed(s, e, t)
  {
  }

  lemma StepFrames(c: Config, base: map<nat, Bytes>, s: State, e: Event, t: State)
    requires Step(c, s, e, t) && Inv(c, base, s)
    ensures Framed(s, e, t)
  {
    if SaverStep(c, s, e, t) {
      SaverStepFrames(c, s, e, t);
    } else if OpenStep(s, e, t) {
      assert SaverOk(c, s, e.pid);
      OpenStepFrames(s, e, t);
    } else if WriteStep(c, s, e, t) {
      WriteStepFrames(c, s, e, t);
    } else if DirStep(c, s, e, t) {
      if e.Replace? || e.Link? { CommitFrames(c, s, e, t); } else { RemovalFrames(c, s, e, t); }
    } else {
      ReadStepFrames(c, s, e, t);
    }
  }

  // ---- Every step keeps the invariant ----

  lemma WriterHoldsTheName(c: Config, base: map<nat, Bytes>, s: State, e: Event, t: State, name: string)
    requires Inv(c, base, s) && DataFrame(s, e, t)
    requires name in s.dir && s.dir[name] in s.data && s.dir[name] in t.data
    requires t.data[s.dir[name]] != s.data[s.dir[name]]
    ensures e.Write? && e.pid in s.savers && name == s.savers[e.pid].temp && Hidden(name)
  {
    assert SaverOk(c, s, e.pid) && EntryOk(c, base, s, name);
  }

  /** Bytes are written only while the file's one name is the writer's temporary name. */
  lemma WritesStayTemporary(c: Config, base: map<nat, Bytes>, s: State, e: Event, t: State, name: string)
    requires name in s.dir && s.dir[name] in s.data && s.dir[name] in t.data
    requires t.data[s.dir[name]] != s.data[s.dir[name]]
    requires Inv(c, base, s) && Step(c, s, e, t)
    ensures e.Write? && e.pid in s.savers && name == s.savers[e.pid].temp && Hidden(name)
  {
    StepFrames(c, base, s, e, t);
    WriterHoldsTheName(c, base, s, e, t, name);
  }

  /** A complete file stays complete and keeps its bytes, whatever happens to its names. */
  lemma CompleteIsStable(c: Config, base: map<nat, Bytes>, s: State, e: Event, t: State, inode: nat)
    requires Inv(c, base, s) && SaverFrame(s, e, t) && DataFrame(s, e, t) && Complete(c, base, s, inode)
    ensures Complete(c, base, t, inode) && t.data[inode] == s.data[inode]
  {
    if e.Write? && At(s, e.pid, Writing) { assert SaverOk(c, s, e.pid); }
    if inode in s.owner { assert Continues(s.savers[s.owner[inode]], t.savers[s.owner[inode]]); }
  }

  /** What a saver commits is complete: its own upload, or a complete file that took its temporary name. */
  lemma CommittedIsComplete(c: Config, base: map<nat, Bytes>, s: State, pid: nat)
    requires Inv(c, base, s) && At(s, pid, Committing) && s.savers[pid].temp in s.dir
    ensures Complete(c, base, s, s.dir[s.savers[pid].temp])
  {
    var p := s.savers[pid];
    assert SaverOk(c, s, pid) && EntryOk(c, base, s, p.temp);
    assert p.content[..p.written] == p.content;
    var i := s.dir[p.temp];
    if i in s.owner && s.owner[i] != pid { assert SaverOk(c, s, s.owner[i]); }
  }

  /** An entry under a name that is not temporary is complete. */
  lemma VisibleIsComplete(c: Config, base: map<nat, Bytes>, s: State, name: string)
    requires Inv(c, base, s) && name in s.dir && NotTemp(s, name)
    ensures Complete(c, base, s, s.dir[name])
  {
    assert EntryOk(c, base, s, name);
  }

  // A name once used for a temporary file stays so marked.
  lemma StaysTemp(s: State, e: Event, t: State, name: string)
    requires SaverFrame(s, e, t) && NotTemp(t, name)
    ensures NotTemp(s, name)
  {
    forall p | p in s.savers && s.savers[p].started
      ensures s.savers[p].temp != name
    {
      assert Continues(s.savers[p], t.savers[p]);
    }
  }

  lemma WriteKeepsSaver(c: Config, base: map<nat, Bytes>, s: State, e: Event, t: State, pid: nat)
    requires Inv(c, base, s) && WriteStep(c, s, e, t) && pid in t.savers
    ensures SaverOk(c, t, pid)
  {
    assert SaverOk(c, s, pid) && SaverOk(c, s, e.pid);
    var p := s.savers[e.pid];
    assert p.content[..p.written] + p.content[p.written..p.written + e.count] == p.content[..p.written + e.count];
    assert pid != e.pid && s.savers[pid].started ==> s.savers[pid].inode != p.inode;
  }

  lemma OpenKeepsSaver(c: Config, base: map<nat, Bytes>, s: State, e: Event, t: State, pid: nat)
    requires Inv(c, base, s) && OpenStep(s, e, t) && pid in t.savers
    ensures SaverOk(c, t, pid)
  {
    assert SaverOk(c, s, pid);
  }

  lemma BeginKeepsSaver(c: Config, base: map<nat, Bytes>, s: State, e: Event, t: State, pid: nat)
    requires Inv(c, base, s) && SaverStep(c, s, e, t) && e.BeginSave? && pid in t.savers
    ensures SaverOk(c, t, pid)
  {
    if pid in s.savers { assert SaverOk(c, s, pid); }
  }

  lemma CheckKeepsSaver(c: Config, base: map<nat, Bytes>, s: State, e: Event, t: State, pid: nat)
    requires Inv(c, base, s) && SaverStep(c, s, e, t) && (e.Exists? || e.LegacyExists?) && pid in t.savers
    ensures SaverOk(c, t, pid)
  {
    assert SaverOk(c, s, pid);
  }

  lemma EndKeepsSaver(c: Config, base: map<nat, Bytes>, s: State, e: Event, t: State, pid: nat)
    requires Inv(c, base, s) && SaverStep(c, s, e, t) && e.EndOfFile? && pid in t.savers
    ensures SaverOk(c, t, pid)
  {
    assert SaverOk(c, s, pid);
  }

  lemma LeavingKeepsSaver(c: Config, base: map<nat, Bytes>, s: State, e: Event, t: State, pid: nat)
    requires Inv(c, base, s) && SaverStep(c, s, e, t) && (e.GiveUp? || e.Stop?) && pid in t.savers
    ensures SaverOk(c, t, pid)
  {
    assert SaverOk(c, s, pid);
  }

  lemma SaverStepKeepsSaver(c: Config, base: map<nat, Bytes>, s: State, e: Event, t: State, pid: nat)
    requires Inv(c, base, s) && SaverStep(c, s, e, t) && pid in t.savers
    ensures SaverOk(c, t, pid)
  {
    match e
    case BeginSave(_, _, _, _) => BeginKeepsSaver(c, base, s, e, t, pid);
    case Exists(_) => CheckKeepsSaver(c, base, s, e, t, pid);
    case LegacyExists(_) => CheckKeepsSaver(c, base, s, e, t, pid);
    case EndOfFile(_) => EndKeepsSaver(c, base, s, e, t, pid);
    case GiveUp(_) => LeavingKeepsSaver(c, base, s, e, t, pid);
    case Stop(_) => LeavingKeepsSaver(c, base, s, e, t, pid);
    case _ =>
  }

  lemma DirStepKeepsSaver(c: Config, base: map<nat, Bytes>, s: State, e: Event, t: State, pid: nat)
    requires Inv(c, base, s) && DirStep(c, s, e, t) && pid in t.savers
    ensures SaverOk(c, t, pid)
  {
    assert SaverOk(c, s, pid);
    DirStepMoves(c, s, e, t, pid);
  }

  lemma DirStepMoves(c: Config, s: State, e: Event, t: State, pid: nat)
    requires DirStep(c, s, e, t) && pid in t.savers
    ensures pid in s.savers && t.data == s.data && t.owner == s.owner && t.usedTemps == s.usedTemps
    ensures var p, q := s.savers[pid], t.savers[pid];
            q == p.(phase := q.phase) && (q.phase == p.phase || (q.phase.Linked? && p.phase.Committing?)
                                          || q.phase.DroppingLegacy? || q.phase.Finished?)
  {
  }

  lemma KeepsSavers(c: Config, base: map<nat, Bytes>, s: State, e: Event, t: State, pid: nat)
    requires Inv(c, base, s) && Step(c, s, e, t) && pid in t.savers
    ensures SaverOk(c, t, pid)
  {
    if SaverStep(c, s, e, t) {
      SaverStepKeepsSaver(c, base, s, e, t, pid);
    } else if OpenStep(s, e, t) {
      OpenKeepsSaver(c, base, s, e, t, pid);
    } else if WriteStep(c, s, e, t) {
      WriteKeepsSaver(c, base, s, e, t, pid);
    } else if DirStep(c, s, e, t) {
      DirStepKeepsSaver(c, base, s, e, t, pid);
    } else {
      assert t.savers == s.savers && t.data == s.data && t.owner == s.owner && t.usedTemps == s.usedTemps;
      assert SaverOk(c, s, pid);
    }
  }

  lemma KeepsTemps(c: Config, base: map<nat, Bytes>, s: State, e: Event, t: State, p: nat, q: nat)
    requires Inv(c, base, s) && SaverFrame(s, e, t) && p in t.savers && q in t.savers && p != q
    requires t.savers[p].started && t.savers[q].started
    ensures t.savers[p].temp != t.savers[q].temp
  {
    if p in s.savers && s.savers[p].started { assert SaverOk(c, s, p); }
    if q in s.savers && s.savers[q].started { assert SaverOk(c, s, q); }
  }

  lemma KeepsOwners(c: Config, base: map<nat, Bytes>, s: State, e: Event, t: State, i: nat)
    requires Inv(c, base, s) && SaverFrame(s, e, t) && DataFrame(s, e, t) && i in t.owner
    ensures i in t.data && t.owner[i] in t.savers && t.savers[t.owner[i]].started && t.savers[t.owner[i]].inode == i
  {
    if i in s.owner { assert Continues(s.savers[s.owner[i]], t.savers[s.owner[i]]); }
  }

  lemma KeepsEntries(c: Config, base: map<nat, Bytes>, s: State, e: Event, t: State, name: string)
    requires Inv(c, base, s) && Framed(s, e, t) && name in t.dir
    ensures EntryOk(c, base, t, name)
  {
    if name in s.dir && t.dir[name] == s.dir[name] {
      assert EntryOk(c, base, s, name);
      if Complete(c, base, s, s.dir[name]) {
        CompleteIsStable(c, base, s, e, t, s.dir[name]);
      } else {
        var q := s.owner[s.dir[name]];
        assert Continues(s.savers[q], t.savers[q]);
      }
    } else if !e.Open? {
      CommittedIsComplete(c, base, s, e.pid);
      CompleteIsStable(c, base, s, e, t, s.dir[s.savers[e.pid].temp]);
    }
  }

  lemma DirStepKeepsReaders(c: Config, s: State, e: Event, t: State)
    requires DirStep(c, s, e, t)
    ensures t.readers == s.readers
  {
  }

  lemma ReadStepKeepsFiles(c: Config, s: State, e: Event, t: State)
    requires ReadStep(c, s, e, t)
    ensures t.dir == s.dir && t.data == s.data
  {
  }

  lemma OnlyReadStepsMoveReaders(c: Config, s: State, e: Event, t: State)
    requires Step(c, s, e, t)
    ensures t.readers == s.readers || (ReadStep(c, s, e, t) && t.dir == s.dir && t.data == s.data)
  {
    if SaverStep(c, s, e, t) {
      SaverStepMoves(c, s, e, t);
    } else if DirStep(c, s, e, t) {
      DirStepKeepsReaders(c, s, e, t);
    } else if ReadStep(c, s, e, t) {
      ReadStepKeepsFiles(c, s, e, t);
    }
  }

  lemma ReadKeepsReader(c: Config, base: map<nat, Bytes>, s: State, e: Event, t: State, pid: nat)
    requires Inv(c, base, s) && ReadStep(c, s, e, t) && pid in t.readers
    ensures ReaderOk(c, base, t, pid)
  {
    var r := t.readers[pid];
    ReadStepFrames(c, s, e, t);
    assert t.savers == s.savers;
    if r.look.Reading? && NotTemp(t, r.look.source) {
      assert NotTemp(s, r.look.source);
      if e.OpenRead? && e.pid == pid {
        VisibleIsComplete(c, base, s, r.look.source);
      } else {
        assert ReaderOk(c, base, s, pid);
      }
      CompleteIsStable(c, base, s, e, t, r.look.inode);
    }
  }

  lemma KeepsReaders(c: Config, base: map<nat, Bytes>, s: State, e: Event, t: State, pid: nat)
    requires Inv(c, base, s) && Framed(s, e, t) && t.readers == s.readers && pid in t.readers
    ensures ReaderOk(c, base, t, pid)
  {
    assert ReaderOk(c, base, s, pid);
    var look := s.readers[pid].look;
    if look.Reading? && NotTemp(t, look.source) {
      StaysTemp(s, e, t, look.source);
      CompleteIsStable(c, base, s, e, t, look.inode);
    }
  }

  lemma StepKeepsInv(c: Config, base: map<nat, Bytes>, s: State, e: Event, t: State)
    requires Inv(c, base, s) && Step(c, s, e, t)
    ensures Inv(c, base, t)
  {
    StepFrames(c, base, s, e, t);
    forall p | p in t.savers ensures SaverOk(c, t, p) { KeepsSavers(c, base, s, e, t, p); }
    forall p, q | p in t.savers && q in t.savers && p != q && t.savers[p].started && t.savers[q].started
      ensures t.savers[p].temp != t.savers[q].temp
    {
      KeepsTemps(c, base, s, e, t, p, q);
    }
    forall i | i in t.owner
      ensures i in t.data && t.owner[i] in t.savers && t.savers[t.owner[i]].started && t.savers[t.owner[i]].inode == i
    {
      KeepsOwners(c, base, s, e, t, i);
    }
    forall n | n in t.dir ensures EntryOk(c, base, t, n) { KeepsEntries(c, base, s, e, t, n); }
    OnlyReadStepsMoveReaders(c, s, e, t);
    forall r | r in t.readers
      ensures ReaderOk(c, base, t, r)
    {
      if t.readers == s.readers { KeepsReaders(c, base, s, e, t, r); } else { ReadKeepsReader(c, base, s, e, t, r); }
    }
  }

  lemma {:induction false} RunKeepsInv(c: Config, states: seq<State>, events: seq<Event>, i: nat)
    requires IsRun(c, states, events) && i < |states| && Initial(states[0])
    ensures Inv(c, states[0].data, states[i])
  {
    if i == 0 {
      InitialInv(c, states[0]);
    } else {
      RunKeepsInv(c, states, events, i - 1);
      StepKeepsInv(c, states[0].data, states[i - 1], events[i - 1], states[i]);
    }
  }

  // ---- What every run guarantees ----

  /** Bytes that were in the directory's files from the start, or one upload in full that passed the size check. */
  ghost predicate WholeFile(c: Config, base: map<nat, Bytes>, s: State, bytes: Bytes) {
    (exists i :: i in base && base[i] == bytes)
    || exists p :: p in s.savers && s.savers[p].content == bytes && |bytes| <= c.maxSize
  }

  lemma CompleteIsWhole(c: Config, base: map<nat, Bytes>, s: State, inode: nat)
    requires Complete(c, base, s, inode)
    ensures WholeFile(c, base, s, s.data[inode])
  {
  }

  /** In every reachable state of any interleaving, a name that is not a temporary name holds a whole file. */
  lemma NamesHoldWholeFiles(c: Config, states: seq<State>, events: seq<Event>, i: nat, name: string)
    requires IsRun(c, states, events) && i < |states| && Initial(states[0])
    requires name in states[i].dir && NotTemp(states[i], name)
    ensures states[i].dir[name] in states[i].data
    ensures WholeFile(c, states[0].data, states[i], states[i].data[states[i].dir[name]])
  {
    RunKeepsInv(c, states, events, i);
    var s := states[i];
    VisibleIsComplete(c, states[0].data, s, name);
    CompleteIsWhole(c, states[0].data, s, s.dir[name]);
  }

  /** A read of such a name sees the front of one whole file, and all of it once it reaches the end. */
  lemma ReadsAreWhole(c: Config, states: seq<State>, events: seq<Event>, i: nat, pid: nat)
    requires IsRun(c, states, events) && i < |states| && Initial(states[0])
    requires pid in states[i].readers && states[i].readers[pid].look.Reading?
    requires NotTemp(states[i], states[i].readers[pid].look.source)
    ensures var look := states[i].readers[pid].look;
            look.inode in states[i].data && look.got <= states[i].data[look.inode]
            && WholeFile(c, states[0].data, states[i], states[i].data[look.inode])
  {
    RunKeepsInv(c, states, events, i);
    assert ReaderOk(c, states[0].data, states[i], pid);
    CompleteIsWhole(c, states[0].data, states[i], states[i].readers[pid].look.inode);
  }

  // ---- Whose file a name holds ----

  /** The hypothesis that no save is asked for a name that some save uses for its temporary file. */
  ghost predicate NoTempTarget(s: State) {
    forall p :: p in s.savers ==> NotTemp(s, s.savers[p].name)
  }

  /** The inode was uploaded by a save of this name, or is the one this name had at the start. */
  predicate Belongs(start: map<string, nat>, s: State, name: string, inode: nat) {
    if inode in s.owner then s.owner[inode] in s.savers && s.savers[s.owner[inode]].name == name
    else name in start && start[name] == inode
  }

  ghost predicate EntryOwned(start: map<string, nat>, s: State, name: string)
    requires name in s.dir
  {
    (NotTemp(s, name) ==> Belongs(start, s, name, s.dir[name]))
    && forall p :: p in s.savers && s.savers[p].started && s.savers[p].temp == name ==> s.dir[name] == s.savers[p].inode
  }

  ghost predicate ReaderOwned(start: map<string, nat>, s: State, pid: nat)
    requires pid in s.readers
  {
    var look := s.readers[pid].look;
    look.Reading? && NotTemp(s, look.source) ==> Belongs(start, s, look.source, look.inode)
  }

  ghost predicate Owned(start: map<string, nat>, s: State) {
    (forall n :: n in s.dir ==> EntryOwned(start, s, n)) && (forall r :: r in s.readers ==> ReaderOwned(start, s, r))
  }

  lemma BelongsStays(start: map<string, nat>, s: State, e: Event, t: State, name: string, inode: nat)
    requires SaverFrame(s, e, t) && DataFrame(s, e, t) && inode in s.data && Belongs(start, s, name, inode)
    ensures Belongs(start, t, name, inode)
  {
    if inode in s.owner { assert Continues(s.savers[s.owner[inode]], t.savers[s.owner[inode]]); }
  }

  lemma TempTargetsStay(s: State, e: Event, t: State)
    requires SaverFrame(s, e, t) && NoTempTarget(t)
    ensures NoTempTarget(s)
  {
    forall p | p in s.savers
      ensures NotTemp(s, s.savers[p].name)
    {
      assert Continues(s.savers[p], t.savers[p]);
      StaysTemp(s, e, t, s.savers[p].name);
    }
  }

  // An entry that was there before.
  lemma OldEntryOwned(c: Config, base: map<nat, Bytes>, start: map<string, nat>, s: State, e: Event, t: State,
                      name: string)
    requires Inv(c, base, s) && Owned(start, s) && SaverFrame(s, e, t) && DataFrame(s, e, t)
    requires name in s.dir && name in t.dir && t.dir[name] == s.dir[name]
    ensures EntryOwned(start, t, name)
  {
    assert EntryOwned(start, s, name) && EntryOk(c, base, s, name);
    if NotTemp(t, name) {
      StaysTemp(s, e, t, name);
      BelongsStays(start, s, e, t, name, s.dir[name]);
    }
    forall p | p in t.savers && t.savers[p].started && t.savers[p].temp == name
      ensures t.dir[name] == t.savers[p].inode
    {
      assert p in s.savers && s.savers[p].started && Continues(s.savers[p], t.savers[p]);
    }
  }

  // The temporary entry a saver has just created.
  lemma OpenedEntryOwned(c: Config, base: map<nat, Bytes>, start: map<string, nat>, s: State, e: Event, t: State)
    requires Inv(c, base, t) && DataFrame(s, e, t) && e.Open? && e.inode in t.owner && e.inode !in s.owner
    requires e.temp in t.dir && t.dir[e.temp] == e.inode
    ensures EntryOwned(start, t, e.temp)
  {
    assert !NotTemp(t, e.temp);
  }

  // What stands under the temporary name of a saver about to commit is its own upload.
  lemma TempEntryIsOwn(c: Config, base: map<nat, Bytes>, start: map<string, nat>, s: State, pid: nat)
    requires Inv(c, base, s) && Owned(start, s) && At(s, pid, Committing) && s.savers[pid].temp in s.dir
    ensures var inode := s.dir[s.savers[pid].temp]; inode in s.owner && s.owner[inode] == pid
  {
    assert SaverOk(c, s, pid) && EntryOwned(start, s, s.savers[pid].temp);
  }

  // The entry a saver has just committed.
  lemma CommittedEntryOwned(start: map<string, nat>, s: State, e: Event, t: State)
    requires SaverFrame(s, e, t) && DataFrame(s, e, t) && NoTempTarget(t) && (e.Replace? || e.Link?)
    requires e.pid in s.savers && s.savers[e.pid].temp in s.dir
    requires var inode := s.dir[s.savers[e.pid].temp]; inode in s.owner && s.owner[inode] == e.pid
    requires var n := s.savers[e.pid].name; n in t.dir && t.dir[n] == s.dir[s.savers[e.pid].temp]
    ensures EntryOwned(start, t, s.savers[e.pid].name)
  {
    assert Continues(s.savers[e.pid], t.savers[e.pid]) && NotTemp(t, t.savers[e.pid].name);
  }

  lemma ReaderStaysOwned(c: Config, base: map<nat, Bytes>, start: map<string, nat>, s: State, e: Event, t: State,
                         pid: nat)
    requires Inv(c, base, s) && Owned(start, s) && SaverFrame(s, e, t) && DataFrame(s, e, t)
    requires pid in s.readers && pid in t.readers && s.readers[pid].look.Reading? && t.readers[pid].look.Reading?
    requires t.readers[pid].look.source == s.readers[pid].look.source
    requires t.readers[pid].look.inode == s.readers[pid].look.inode
    ensures ReaderOwned(start, t, pid)
  {
    var look := t.readers[pid].look;
    assert ReaderOwned(start, s, pid) && ReaderOk(c, base, s, pid);
    if NotTemp(t, look.source) {
      StaysTemp(s, e, t, look.source);
      BelongsStays(start, s, e, t, look.source, look.inode);
    }
  }

  // A reader that reads has read that file before, or has just opened it under its name.
  lemma ReadingStarts(c: Config, s: State, e: Event, t: State, pid: nat)
    requires Step(c, s, e, t) && pid in t.readers && t.readers[pid].look.Reading?
    ensures (pid in s.readers && s.readers[pid].look.Reading?
             && t.readers[pid].look.source == s.readers[pid].look.source
             && t.readers[pid].look.inode == s.readers[pid].look.inode)
            || (t.readers[pid].look.source in s.dir && t.readers[pid].look.inode == s.dir[t.readers[pid].look.source]
                && t.dir == s.dir)
  {
    OnlyReadStepsMoveReaders(c, s, e, t);
  }

  lemma EntryKeepsOwned(c: Config, base: map<nat, Bytes>, start: map<string, nat>, s: State, e: Event, t: State,
                        name: string)
    requires Inv(c, base, s) && Inv(c, base, t) && Framed(s, e, t) && Owned(start, s) && NoTempTarget(t)
    requires name in t.dir
    ensures EntryOwned(start, t, name)
  {
    if name in s.dir && t.dir[name] == s.dir[name] {
      OldEntryOwned(c, base, start, s, e, t, name);
    } else if e.Open? {
      OpenedEntryOwned(c, base, start, s, e, t);
    } else {
      TempEntryIsOwn(c, base, start, s, e.pid);
      CommittedEntryOwned(start, s, e, t);
    }
  }

  lemma ReaderKeepsOwned(c: Config, base: map<nat, Bytes>, start: map<string, nat>, s: State, e: Event, t: State,
                         pid: nat)
    requires Inv(c, base, s) && Step(c, s, e, t) && Framed(s, e, t) && Owned(start, s) && pid in t.readers
    requires forall n :: n in t.dir ==> EntryOwned(start, t, n)
    ensures ReaderOwned(start, t, pid)
  {
    if t.readers[pid].look.Reading? {
      ReadingStarts(c, s, e, t, pid);
      if pid in s.readers && s.readers[pid].look.Reading? && t.readers[pid].look.source == s.readers[pid].look.source
         && t.readers[pid].look.inode == s.readers[pid].look.inode {
        ReaderStaysOwned(c, base, start, s, e, t, pid);
      } else {
        assert EntryOwned(start, t, t.readers[pid].look.source);
      }
    }
  }

  /** Every step keeps files with the names they belong to. */
  lemma StepKeepsOwned(c: Config, base: map<nat, Bytes>, start: map<string, nat>, s: State, e: Event, t: State)
    requires Inv(c, base, s) && Step(c, s, e, t) && Owned(start, s) && NoTempTarget(t)
    ensures Owned(start, t)
  {
    StepFrames(c, base, s, e, t);
    StepKeepsInv(c, base, s, e, t);
    forall n | n in t.dir ensures EntryOwned(start, t, n) { EntryKeepsOwned(c, base, start, s, e, t, n); }
    forall r | r in t.readers ensures ReaderOwned(start, t, r) { ReaderKeepsOwned(c, base, start, s, e, t, r); }
  }

  lemma StepBackTargets(c: Config, base: map<nat, Bytes>, s: State, e: Event, t: State)
    requires Inv(c, base, s) && Step(c, s, e, t) && NoTempTarget(t)
    ensures NoTempTarget(s)
  {
    StepFrames(c, base, s, e, t);
    TempTargetsStay(s, e, t);
  }

  lemma InitialOwned(s: State)
    requires Initial(s)
    ensures Owned(s.dir, s)
  {
  }

  lemma {:induction false} RunKeepsOwned(c: Config, states: seq<State>, events: seq<Event>, i: nat)
    requires IsRun(c, states, events) && i < |states| && Initial(states[0]) && NoTempTarget(states[i])
    ensures Owned(states[0].dir, states[i])
  {
    if i == 0 {
      InitialOwned(states[0]);
    } else {
      RunKeepsInv(c, states, events, i - 1);
      StepBackTargets(c, states[0].data, states[i - 1], events[i - 1], states[i]);
      RunKeepsOwned(c, states, events, i - 1);
      StepKeepsOwned(c, states[0].data, states[0].dir, states[i - 1], events[i - 1], states[i]);
    }
  }

  /** What this name held at the start, or one upload of this very name in full that passed the size check. */
  ghost predicate OwnFile(c: Config, start: State, s: State, name: string, bytes: Bytes) {
    (name in start.dir && start.dir[name] in start.data && start.data[start.dir[name]] == bytes)
    || exists p :: p in s.savers && s.savers[p].name == name && s.savers[p].content == bytes && |bytes| <= c.maxSize
  }

  lemma BelongingIsOwn(c: Config, start: State, s: State, name: string, inode: nat)
    requires Complete(c, start.data, s, inode) && Belongs(start.dir, s, name, inode)
    ensures OwnFile(c, start, s, name, s.data[inode])
  {
  }

  /**
   * In every reachable state of any interleaving in which no save targets a temporary name, a name that is
   * not temporary holds its own file: the one it had at the start, or a whole upload of that very name.
   */
  lemma NamesHoldOwnFiles(c: Config, states: seq<State>, events: seq<Event>, i: nat, name: string)
    requires IsRun(c, states, events) && i < |states| && Initial(states[0]) && NoTempTarget(states[i])
    requires name in states[i].dir && NotTemp(states[i], name)
    ensures states[i].dir[name] in states[i].data
    ensures OwnFile(c, states[0], states[i], name, states[i].data[states[i].dir[name]])
  {
    RunKeepsInv(c, states, events, i);
    RunKeepsOwned(c, states, events, i);
    assert EntryOwned(states[0].dir, states[i], name);
    VisibleIsComplete(c, states[0].data, states[i], name);
    BelongingIsOwn(c, states[0], states[i], name, states[i].dir[name]);
  }

  /** And a read of such a name sees the front of that name's own file. */
  lemma ReadsAreOwn(c: Config, states: seq<State>, events: seq<Event>, i: nat, pid: nat)
    requires IsRun(c, states, events) && i < |states| && Initial(states[0]) && NoTempTarget(states[i])
    requires pid in states[i].readers && states[i].readers[pid].look.Reading?
    requires NotTemp(states[i], states[i].readers[pid].look.source)
    ensures var look := states[i].readers[pid].look;
            look.inode in states[i].data && look.got <= states[i].data[look.inode]
            && OwnFile(c, states[0], states[i], look.source, states[i].data[look.inode])
  {
    RunKeepsInv(c, states, events, i);
    RunKeepsOwned(c, states, events, i);
    var look := states[i].readers[pid].look;
    assert ReaderOk(c, states[0].data, states[i], pid) && ReaderOwned(states[0].dir, states[i], pid);
    BelongingIsOwn(c, states[0], states[i], look.source, look.inode);
  }

  // ---- Exclusive creation ----

  function ChangeOf(s: State, e: Event, t: State, name: string): Change {
    if e.Link? && e.pid in s.savers && s.savers[e.pid].name == name then Created
    else if name in s.dir && name !in t.dir then Removed
    else Other
  }

  // `os.link` succeeds only on an absent name.
  lemma StepPresence(c: Config, s: State, e: Event, t: State, name: string)
    requires Step(c, s, e, t) && ChangeOf(s, e, t, name) == Created
    ensures name !in s.dir && name in t.dir
  {
  }

  function Changes(states: seq<State>, events: seq<Event>, name: string): (c: seq<Change>)
    requires |states| == |events| + 1
    ensures |c| == |events|
  {
    seq(|events|, i requires 0 <= i < |events| => ChangeOf(states[i], events[i], states[i + 1], name))
  }

  /**
   * Under every interleaving, starting with the name absent, the saves with `overwrite=False` that committed
   * it number at most one more than its removals, and not even that while it is absent.
   */
  lemma CreatesBounded(c: Config, states: seq<State>, events: seq<Event>, name: string)
    requires IsRun(c, states, events) && name !in states[0].dir
    ensures var changes := Changes(states, events, name);
            Count(changes, Created) <= Count(changes, Removed) + (if name in states[|events|].dir then 1 else 0)
  {
    forall i | 0 <= i < |events| && ChangeOf(states[i], events[i], states[i + 1], name) == Created
      ensures name !in states[i].dir && name in states[i + 1].dir
    {
      StepPresence(c, states[i], events[i], states[i + 1], name);
    }
    CountedCreates(states, events, name);
  }

  lemma CountedCreates(states: seq<State>, events: seq<Event>, name: string)
    requires |states| == |events| + 1 && name !in states[0].dir
    requires forall i :: 0 <= i < |events| && ChangeOf(states[i], events[i], states[i + 1], name) == Created ==>
                           name !in states[i].dir && name in states[i + 1].dir
    ensures var changes := Changes(states, events, name);
            Count(changes, Created) <= Count(changes, Removed) + (if name in states[|events|].dir then 1 else 0)
  {
    var present := seq(|states|, i requires 0 <= i < |states| => name in states[i].dir);
    CreationsBounded(present, Changes(states, events, name));
  }

  /** The saves with `overwrite=False` of this name that have linked it and not failed since. */
  ghost function Winners(s: State, name: string): set<nat> {
    set p | p in s.savers && s.savers[p].name == name && !s.savers[p].overwrite && Won(s.savers[p].phase)
  }

  predicate Won(phase: Phase) {
    phase.Linked? || phase.DroppingLegacy? || phase == Finished(true)
  }

  // Nothing but a step through the directory makes a saver win.
  lemma OtherStepsWinNothing(c: Config, s: State, e: Event, t: State, pid: nat)
    requires SaverStep(c, s, e, t) || OpenStep(s, e, t) || WriteStep(c, s, e, t) || ReadStep(c, s, e, t)
    requires pid in t.savers && Won(t.savers[pid].phase)
    ensures pid in s.savers && s.savers[pid] == t.savers[pid]
  {
  }

  lemma DirStepWins(c: Config, s: State, e: Event, t: State, pid: nat)
    requires DirStep(c, s, e, t) && pid in t.savers && Won(t.savers[pid].phase)
    ensures pid in s.savers && s.savers[pid].name == t.savers[pid].name
    ensures Won(s.savers[pid].phase) || ((e.Link? || (e.Replace? && s.savers[pid].overwrite)) && e.pid == pid)
  {
  }

  lemma WinnersOnlyByLink(c: Config, s: State, e: Event, t: State, name: string, pid: nat)
    requires Step(c, s, e, t) && pid in Winners(t, name)
    ensures pid in Winners(s, name)
            || (e.Link? && e.pid == pid && pid in s.savers && s.savers[pid].name == name)
  {
    if DirStep(c, s, e, t) {
      DirStepWins(c, s, e, t, pid);
      DirStepMoves(c, s, e, t, pid);
    } else {
      OtherStepsWinNothing(c, s, e, t, pid);
    }
  }

  lemma WinnersStep(c: Config, s: State, e: Event, t: State, name: string)
    requires Step(c, s, e, t)
    ensures |Winners(t, name)| <= |Winners(s, name)| + (if ChangeOf(s, e, t, name) == Created then 1 else 0)
  {
    forall p | p in Winners(t, name)
      ensures p in Winners(s, name) || (ChangeOf(s, e, t, name) == Created && e.pid == p)
    {
      WinnersOnlyByLink(c, s, e, t, name, p);
    }
    WinnersSize(Winners(t, name), Winners(s, name), ChangeOf(s, e, t, name) == Created, if e.Link? then e.pid else 0);
  }

  lemma WinnersSize(now: set<nat>, before: set<nat>, created: bool, pid: nat)
    requires forall p :: p in now ==> p in before || (created && p == pid)
    ensures |now| <= |before| + (if created then 1 else 0)
  {
    SubsetSize(now, if created then before + {pid} else before);
  }

  /**
   * Successful saves with `overwrite=False` of a name that was absent, under every interleaving: at most one
   * more than the removals of the name.
   */
  lemma SuccessesBounded(c: Config, states: seq<State>, events: seq<Event>, name: string)
    requires IsRun(c, states, events) && name !in states[0].dir && states[0].savers == map[]
    ensures |Winners(states[|events|], name)| <= Count(Changes(states, events, name), Removed) + 1
  {
    forall i | 0 <= i < |events|
      ensures |Winners(states[i + 1], name)| <= |Winners(states[i], name)|
              + (if ChangeOf(states[i], events[i], states[i + 1], name) == Created then 1 else 0)
    {
      WinnersStep(c, states[i], events[i], states[i + 1], name);
    }
    CountedWinners(states, events, name);
    CreatesBounded(c, states, events, name);
  }

  lemma CountedWinners(states: seq<State>, events: seq<Event>, name: string)
    requires |states| == |events| + 1 && states[0].savers == map[]
    requires forall i :: 0 <= i < |events| ==>
               |Winners(states[i + 1], name)| <= |Winners(states[i], name)|
               + (if ChangeOf(states[i], events[i], states[i + 1], name) == Created then 1 else 0)
    ensures |Winners(states[|events|], name)| <= Count(Changes(states, events, name), Created)
  {
    assert Winners(states[0], name) == {};
    WinnersBounded(seq(|states|, i requires 0 <= i < |states| => |Winners(states[i], name)|),
                   Changes(states, events, name));
  }
}
