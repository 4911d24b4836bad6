/**
 The asynchronous JSON calls as a protocol (code/gsc_json.cpp, 954-1588): the script
 thread and any number of workers, interleaved at the sections of json_async_mutex.

 A worker lives between a successful spawn and the section that finishes its job. The
 stamps, the set of reported saves and the set of claimed ids are bookkeeping of the model.
 */
module AsyncProtocol {
  import opened AsyncJobs

  /** A worker reads or writes outside the mutex; a save worker then knows how its write went. */
  datatype Phase = Busy | Settled(ok: bool)

  /** Where the script thread is in a submit. */
  datatype Script = Idle | Admitted(kind: Kind, path: string, text: seq<char>, bytes: nat) | Spawning(id: nat)

  /** A save that told its caller it succeeded. */
  datatype Report = Report(path: string, content: Content)

  datatype State = State(
    jobs: seq<Job>, nextId: nat, files: Files, workers: map<nat, Phase>, script: Script,
    clock: nat, reported: set<Report>, claimed: set<nat>)

  datatype Event =
    | Admit(kind: Kind, path: string, text: seq<char>, bytes: nat)
    | Append
    | Spawn(works: bool)
    | SaveNow(path: string, text: seq<char>, works: bool)
    | TrimSaves
    | NewLevel
    | Claim(id: nat)
    | WriteFails(id: nat)
    | Installs(id: nat, works: bool)
    | SaveFinishes(id: nat)
    | LoadFinishes(id: nat, parsed: bool)

  const START: State := State([], 1, map[], map[], Idle, 0, {}, {})

  predicate Running(s: State, id: nat, kind: Kind, phase: Phase) {
    && id in s.workers && s.workers[id] == phase
    && var i := Find(s.jobs, id);
    && i < |s.jobs| && s.jobs[i].kind == kind
  }

  predicate Enabled(settings: Settings, s: State, e: Event) {
    match e
    case Admit(kind, path, text, bytes) =>
      s.script == Idle && (kind == Save ==> bytes == 0) && !Full(s.jobs, settings, if kind == Load then bytes else -1)
    case Append => s.script.Admitted?
    case Spawn(works) => s.script.Spawning?
    case SaveNow(_, _, _) => s.script == Idle
    case TrimSaves => s.script == Idle
    case NewLevel => s.script == Idle
    case Claim(id) => s.script == Idle && Find(s.jobs, id) < |s.jobs| && s.jobs[Find(s.jobs, id)].status != Pending
    case WriteFails(id) => Running(s, id, Save, Busy)
    case Installs(id, works) => Running(s, id, Save, Busy)
    case SaveFinishes(id) => Running(s, id, Save, Settled(true)) || Running(s, id, Save, Settled(false))
    case LoadFinishes(id, parsed) => Running(s, id, Load, Busy)
  }

  function NewJob(s: State): Job
    requires s.script.Admitted?
  {
    Job(s.nextId, s.script.kind, Pending, s.script.path, Content(s.clock, s.script.text), false, false, false,
        s.script.bytes)
  }

  function Next(settings: Settings, s: State, e: Event): State
    requires Enabled(settings, s, e)
  {
    match e
    case Admit(kind, path, text, bytes) => s.(script := Admitted(kind, path, text, bytes))
    case Append =>
      s.(jobs := [NewJob(s)] + s.jobs, nextId := s.nextId + 1, clock := s.clock + 1, script := Spawning(s.nextId))
    case Spawn(works) =>
      if works then s.(workers := s.workers[s.script.id := Busy], script := Idle)
      else
        s.(jobs := if s.jobs != [] && s.jobs[0].id == s.script.id then s.jobs[1..] else s.jobs, script := Idle)
    case SaveNow(path, text, works) =>
      var content := Content(s.clock, text);
      var r := Rename(s.jobs, s.files, path, content, SYNC_ID, works);
      s.(jobs := r.jobs, files := r.files, clock := s.clock + 1,
         reported := if r.ok then s.reported + {Report(path, content)} else s.reported)
    case TrimSaves => s.(jobs := Trim(s.jobs, KEEP_SAVES))
    case NewLevel => s.(jobs := Cleanup(s.jobs))
    case Claim(id) => s.(jobs := Without(s.jobs, Find(s.jobs, id)), claimed := s.claimed + {id})
    case WriteFails(id) => s.(workers := s.workers[id := Settled(false)])
    case Installs(id, works) =>
      var j := s.jobs[Find(s.jobs, id)];
      var r := Rename(s.jobs, s.files, j.path, j.content, id, works);
      s.(jobs := r.jobs, files := r.files, workers := s.workers[id := Settled(r.ok)])
    case SaveFinishes(id) =>
      var i := Find(s.jobs, id);
      var ok := s.workers[id].ok;
      s.(jobs := s.jobs[i := SaveDone(s.jobs[i], ok)], workers := s.workers - {id},
         reported := if ok then s.reported + {Report(s.jobs[i].path, s.jobs[i].content)} else s.reported)
    case LoadFinishes(id, parsed) =>
      var i := Find(s.jobs, id);
      s.(jobs := s.jobs[i := LoadDone(s.jobs[i], parsed)], workers := s.workers - {id})
  }

  // ---- what always holds ----------------------------------------------------------

  ghost predicate Above(a: Job, b: Job) {
    a.id > b.id && a.content.stamp > b.content.stamp
  }

  /** Newest first. */
  ghost predicate Descending(jobs: seq<Job>) {
    forall i, k {:trigger Above(jobs[i], jobs[k])} :: 0 <= i < k < |jobs| ==> Above(jobs[i], jobs[k])
  }

  ghost predicate Issued(j: Job, nextId: nat, clock: nat) {
    1 <= j.id < nextId && j.content.stamp < clock
  }

  ghost predicate Listed(jobs: seq<Job>, nextId: nat, clock: nat) {
    Descending(jobs) && forall j {:trigger Issued(j, nextId, clock)} | j in jobs :: Issued(j, nextId, clock)
  }

  /** The memory a worker uses is on the list, and still marked as running. */
  ghost predicate HasJob(jobs: seq<Job>, id: nat, phase: Phase) {
    exists j :: j in jobs && j.id == id && j.status == Pending && (phase.Settled? ==> j.kind == Save)
  }

  ghost predicate WorkersHaveJobs(jobs: seq<Job>, workers: map<nat, Phase>) {
    forall id {:trigger id in workers} | id in workers :: HasJob(jobs, id, workers[id])
  }

  ghost predicate Owned(j: Job, workers: map<nat, Phase>, script: Script) {
    j.status == Pending ==> j.id in workers || script == Spawning(j.id)
  }

  ghost predicate RunningAreOwned(jobs: seq<Job>, workers: map<nat, Phase>, script: Script) {
    forall j {:trigger Owned(j, workers, script)} | j in jobs :: Owned(j, workers, script)
  }

  ghost predicate ScriptOk(jobs: seq<Job>, workers: map<nat, Phase>, script: Script) {
    script.Spawning? ==> jobs != [] && jobs[0].id == script.id && jobs[0].status == Pending && script.id !in workers
  }

  ghost predicate Newer(files: Files, path: string, stamp: nat) {
    path in files && files[path].stamp > stamp
  }

  /**
   An unfinished save is superseded exactly when newer data is at its path; one that
   has settled well has its own or newer data there.
   */
  ghost predicate FileAgrees(j: Job, files: Files, workers: map<nat, Phase>) {
    j.kind == Save && j.status == Pending ==>
      if j.id in workers && workers[j.id].Settled? then
        workers[j.id].ok ==> j.path in files && files[j.path].stamp >= j.content.stamp
      else
        (j.superseded <==> Newer(files, j.path, j.content.stamp))
            && (j.path in files ==> files[j.path].stamp != j.content.stamp)
  }

  ghost predicate FilesAgree(jobs: seq<Job>, files: Files, workers: map<nat, Phase>) {
    forall j {:trigger FileAgrees(j, files, workers)} | j in jobs :: FileAgrees(j, files, workers)
  }

  /** The job has put this content in place and is about to say so. */
  ghost predicate Installed(j: Job, path: string, content: Content, workers: map<nat, Phase>) {
    j.kind == Save && j.status == Pending && j.path == path && j.content == content && j.id in workers
        && workers[j.id] == Settled(true)
  }

  ghost predicate SomeInstalled(jobs: seq<Job>, path: string, content: Content, workers: map<nat, Phase>) {
    exists j :: j in jobs && Installed(j, path, content, workers)
  }

  ghost predicate Accounted(s: State, path: string)
    requires path in s.files
  {
    s.files[path].stamp < s.clock
    && (Report(path, s.files[path]) in s.reported || SomeInstalled(s.jobs, path, s.files[path], s.workers))
  }

  ghost predicate FilesAccounted(s: State) {
    forall path {:trigger path in s.files} | path in s.files :: Accounted(s, path)
  }

  /** A save that reported success has its data, or data submitted later, at its path. */
  ghost predicate Kept(r: Report, files: Files) {
    r.path in files && files[r.path].stamp >= r.content.stamp
  }

  ghost predicate ReportsKept(reported: set<Report>, files: Files) {
    forall r {:trigger Kept(r, files)} | r in reported :: Kept(r, files)
  }

  ghost predicate ResultTrue(j: Job, reported: set<Report>) {
    && (j.kind == Save && j.status != Pending && j.saveOk ==> Report(j.path, j.content) in reported)
    && (j.status == Pending ==> !j.holdsDoc)
  }

  ghost predicate ResultsTrue(jobs: seq<Job>, reported: set<Report>) {
    forall j {:trigger ResultTrue(j, reported)} | j in jobs :: ResultTrue(j, reported)
  }

  function AtLeast0(n: int): nat {
    if n < 0 then 0 else n
  }

  /** What the script thread has been promised room for. */
  function Promised(script: Script): nat {
    if script.Admitted? then 1 else 0
  }

  function PromisedBytes(script: Script): nat {
    if script.Admitted? then script.bytes else 0
  }

  ghost predicate WithinCaps(settings: Settings, jobs: seq<Job>, script: Script) {
    && ActiveJobs(jobs) + Promised(script) <= AtLeast0(settings.maxJobs)
    && HeldBytes(jobs) + PromisedBytes(script) <= AtLeast0(HELD_LOADS * settings.maxLoadBytes)
  }

  ghost predicate ClaimedAreGone(jobs: seq<Job>, claimed: set<nat>, nextId: nat) {
    && (forall id | id in claimed :: id < nextId)
    && forall j | j in jobs :: j.id !in claimed
  }

  ghost predicate Invariant(settings: Settings, s: State) {
    && Listed(s.jobs, s.nextId, s.clock)
    && WorkersHaveJobs(s.jobs, s.workers)
    && RunningAreOwned(s.jobs, s.workers, s.script)
    && ScriptOk(s.jobs, s.workers, s.script)
    && FilesAgree(s.jobs, s.files, s.workers)
    && FilesAccounted(s)
    && ReportsKept(s.reported, s.files)
    && ResultsTrue(s.jobs, s.reported)
    && WithinCaps(settings, s.jobs, s.script)
    && ClaimedAreGone(s.jobs, s.claimed, s.nextId)
    && s.nextId >= 1
  }

  // ---- lists that lose finished jobs ---------------------------------------------------

  /** b is a without some jobs that have finished. */
  ghost predicate Thinned(a: seq<Job>, b: seq<Job>) {
    && (forall j {:trigger j in b} | j in b :: j in a)
    && (forall j {:trigger j in a} | j in a :: j.status == Pending ==> j in b)
    && Descending(b)
    && ActiveJobs(b) <= ActiveJobs(a) && HeldBytes(b) <= HeldBytes(a)
  }

  lemma DescendingTail(jobs: seq<Job>)
    requires jobs != [] && Descending(jobs)
    ensures Descending(jobs[1..])
    ensures forall j | j in jobs[1..] :: Above(jobs[0], j)
  {
    var rest := jobs[1..];
    forall i, k {:trigger Above(rest[i], rest[k])} | 0 <= i < k < |rest| ensures Above(rest[i], rest[k]) {
      assert Above(jobs[i + 1], jobs[k + 1]);
    }
    forall j | j in rest ensures Above(jobs[0], j) {
      var k :| 0 <= k < |rest| && rest[k] == j;
      assert Above(jobs[0], jobs[k + 1]);
    }
  }

  lemma DescendingPut(j: Job, jobs: seq<Job>)
    requires Descending(jobs) && forall b | b in jobs :: Above(j, b)
    ensures Descending([j] + jobs)
  {
    var all := [j] + jobs;
    forall i, k {:trigger Above(all[i], all[k])} | 0 <= i < k < |all| ensures Above(all[i], all[k]) {
      if i > 0 {
        assert Above(jobs[i - 1], jobs[k - 1]);
      } else {
        assert jobs[k - 1] in jobs;
      }
    }
  }

  lemma KeepHead(a: seq<Job>, b: seq<Job>)
    requires a != [] && Descending(a) && Thinned(a[1..], b)
    ensures Thinned(a, [a[0]] + b)
  {
    var r := [a[0]] + b;
    assert r[0] == a[0] && r[1..] == b;
    DescendingTail(a);
    DescendingPut(a[0], b);
    assert a == [a[0]] + a[1..];
  }

  lemma DropHead(a: seq<Job>, b: seq<Job>)
    requires a != [] && a[0].status != Pending && Thinned(a[1..], b)
    ensures Thinned(a, b)
  {
    assert a == [a[0]] + a[1..];
  }

  lemma {:induction false} TrimThins(jobs: seq<Job>, room: nat)
    requires Descending(jobs)
    ensures Thinned(jobs, Trim(jobs, room))
    decreases |jobs|
  {
    hide Thinned;
    hide Descending;
    if jobs == [] {
      ThinnedSelf(jobs);
    } else {
      DescendingTail(jobs);
      var less := if FinishedSave(jobs[0]) && room > 0 then room - 1 else room;
      TrimThins(jobs[1..], less);
      if !FinishedSave(jobs[0]) || room > 0 {
        KeepHead(jobs, Trim(jobs[1..], less));
      } else {
        DropHead(jobs, Trim(jobs[1..], less));
      }
    }
  }

  lemma {:induction false} CleanupThins(jobs: seq<Job>)
    requires Descending(jobs)
    ensures Thinned(jobs, Cleanup(jobs))
    decreases |jobs|
  {
    hide Thinned;
    hide Descending;
    if jobs == [] {
      ThinnedSelf(jobs);
    } else {
      DescendingTail(jobs);
      CleanupThins(jobs[1..]);
      if jobs[0].status == Pending {
        KeepHead(jobs, Cleanup(jobs[1..]));
      } else {
        DropHead(jobs, Cleanup(jobs[1..]));
      }
    }
  }

  lemma {:induction false} WithoutThins(jobs: seq<Job>, i: nat)
    requires Descending(jobs) && i < |jobs| && jobs[i].status != Pending
    ensures Thinned(jobs, Without(jobs, i))
    decreases i
  {
    hide Thinned;
    hide Descending;
    DescendingTail(jobs);
    if i == 0 {
      ThinnedSelf(jobs[1..]);
      DropHead(jobs, jobs[1..]);
      assert Without(jobs, 0) == jobs[1..];
    } else {
      WithoutThins(jobs[1..], i - 1);
      KeepHead(jobs, Without(jobs[1..], i - 1));
      assert Without(jobs, i) == [jobs[0]] + Without(jobs[1..], i - 1);
    }
  }

  lemma ThinnedSelf(jobs: seq<Job>)
    requires Descending(jobs)
    ensures Thinned(jobs, jobs)
  {
  }

  // ---- lists whose jobs change in place ------------------------------------------------

  /** b is a with the same jobs, whatever became of their flags. */
  ghost predicate Rewritten(a: seq<Job>, b: seq<Job>) {
    |a| == |b| && forall i :: 0 <= i < |a| ==>
      b[i].id == a[i].id && b[i].kind == a[i].kind && b[i].path == a[i].path && b[i].content == a[i].content
  }

  lemma RewrittenIsListed(a: seq<Job>, b: seq<Job>, nextId: nat, clock: nat)
    requires Rewritten(a, b) && Listed(a, nextId, clock)
    ensures Listed(b, nextId, clock)
  {
    forall i, k {:trigger Above(b[i], b[k])} | 0 <= i < k < |b| ensures Above(b[i], b[k]) {
      assert Above(a[i], a[k]);
    }
    forall j {:trigger Issued(j, nextId, clock)} | j in b ensures Issued(j, nextId, clock) {
      var i :| 0 <= i < |b| && b[i] == j;
      assert Issued(a[i], nextId, clock);
    }
  }

  lemma RewrittenUnclaimed(a: seq<Job>, b: seq<Job>, claimed: set<nat>, nextId: nat)
    requires Rewritten(a, b) && ClaimedAreGone(a, claimed, nextId)
    ensures ClaimedAreGone(b, claimed, nextId)
  {
    forall j | j in b ensures j.id !in claimed {
      var i :| 0 <= i < |b| && b[i] == j;
      assert a[i] in a;
    }
  }

  lemma {:induction false} CountsFall(a: seq<Job>, b: seq<Job>)
    requires |a| == |b|
    requires forall i :: 0 <= i < |a| ==> (Active(b[i]) ==> Active(a[i])) && b[i].bytes == a[i].bytes
    ensures ActiveJobs(b) <= ActiveJobs(a) && HeldBytes(b) <= HeldBytes(a)
    decreases |a|
  {
    if a != [] {
      CountsFall(a[1..], b[1..]);
    }
  }

  /** Ids name jobs. */
  lemma SameJob(jobs: seq<Job>, a: Job, b: Job)
    requires Descending(jobs) && a in jobs && b in jobs && a.id == b.id
    ensures a == b
  {
    var i :| 0 <= i < |jobs| && jobs[i] == a;
    var k :| 0 <= k < |jobs| && jobs[k] == b;
    assert i < k ==> Above(jobs[i], jobs[k]);
    assert k < i ==> Above(jobs[k], jobs[i]);
  }

  /** The job of a live worker. */
  function JobOf(jobs: seq<Job>, id: nat): Job
    requires Find(jobs, id) < |jobs|
  {
    jobs[Find(jobs, id)]
  }

  lemma WorkersJob(s: State, id: nat)
    requires Listed(s.jobs, s.nextId, s.clock) && WorkersHaveJobs(s.jobs, s.workers) && id in s.workers
    ensures Find(s.jobs, id) < |s.jobs|
    ensures JobOf(s.jobs, id) in s.jobs && JobOf(s.jobs, id).id == id && JobOf(s.jobs, id).status == Pending
    ensures s.workers[id].Settled? ==> JobOf(s.jobs, id).kind == Save
  {
    assert HasJob(s.jobs, id, s.workers[id]);
    var j :| j in s.jobs && j.id == id && j.status == Pending && (s.workers[id].Settled? ==> j.kind == Save);
    if Find(s.jobs, id) < |s.jobs| {
      SameJob(s.jobs, j, JobOf(s.jobs, id));
    }
  }

  // ---- every event keeps the invariant ---------------------------------------------------

  lemma ThinnedKeeps(settings: Settings, s: State, b: seq<Job>)
    requires Invariant(settings, s) && s.script == Idle && Thinned(s.jobs, b)
    ensures Invariant(settings, s.(jobs := b))
  {
    hide FileAgrees;
    hide Above;
    var t := s.(jobs := b);
    forall id {:trigger id in s.workers} | id in s.workers ensures HasJob(b, id, s.workers[id]) {
      assert HasJob(s.jobs, id, s.workers[id]);
    }
    forall path {:trigger path in t.files} | path in t.files ensures Accounted(t, path) {
      assert Accounted(s, path);
    }
  }

  lemma AppendLists(s: State)
    requires s.script.Admitted? && Listed(s.jobs, s.nextId, s.clock) && s.nextId >= 1
    ensures Listed([NewJob(s)] + s.jobs, s.nextId + 1, s.clock + 1)
  {
    var n := NewJob(s);
    forall j | j in s.jobs ensures Above(n, j) {
      assert Issued(j, s.nextId, s.clock);
    }
    DescendingPut(n, s.jobs);
    forall j {:trigger Issued(j, s.nextId + 1, s.clock + 1)} | j in [n] + s.jobs
      ensures Issued(j, s.nextId + 1, s.clock + 1) {
      assert j == n || Issued(j, s.nextId, s.clock);
    }
  }

  lemma WorkersAreOlder(s: State, id: nat)
    requires Listed(s.jobs, s.nextId, s.clock) && WorkersHaveJobs(s.jobs, s.workers) && id in s.workers
    ensures id < s.nextId
  {
    WorkersJob(s, id);
    assert Issued(JobOf(s.jobs, id), s.nextId, s.clock);
  }

  lemma AppendKeepsWorkers(s: State)
    requires s.script.Admitted?
    requires Listed(s.jobs, s.nextId, s.clock) && WorkersHaveJobs(s.jobs, s.workers)
        && RunningAreOwned(s.jobs, s.workers, s.script)
    ensures var jobs, script := [NewJob(s)] + s.jobs, Spawning(s.nextId);
            WorkersHaveJobs(jobs, s.workers) && RunningAreOwned(jobs, s.workers, script)
                && ScriptOk(jobs, s.workers, script)
  {
    var n := NewJob(s);
    var jobs, script := [n] + s.jobs, Spawning(s.nextId);
    forall id {:trigger id in s.workers} | id in s.workers ensures HasJob(jobs, id, s.workers[id]) && id != s.nextId {
      assert HasJob(s.jobs, id, s.workers[id]);
      WorkersAreOlder(s, id);
    }
    forall j {:trigger Owned(j, s.workers, script)} | j in jobs ensures Owned(j, s.workers, script) {
      assert j == n || Owned(j, s.workers, s.script);
    }
  }

  lemma AppendAgrees(s: State)
    requires s.script.Admitted? && FilesAccounted(s) && FilesAgree(s.jobs, s.files, s.workers) && s.nextId !in s.workers
    ensures FilesAgree([NewJob(s)] + s.jobs, s.files, s.workers)
  {
    var n := NewJob(s);
    assert n.path in s.files ==> Accounted(s, n.path);
    assert FileAgrees(n, s.files, s.workers);
    hide FileAgrees;
  }

  lemma AppendKeeps(settings: Settings, s: State)
    requires Invariant(settings, s) && s.script.Admitted?
    ensures Invariant(settings, Next(settings, s, Append))
  {
    hide FileAgrees;
    hide Listed;
    hide WorkersHaveJobs;
    hide RunningAreOwned;
    hide FilesAgree;
    var n := NewJob(s);
    var t := Next(settings, s, Append);
    AppendLists(s);
    AppendKeepsWorkers(s);
    AppendAgrees(s);
    assert t.jobs[0] == n && t.jobs[1..] == s.jobs;
    forall path {:trigger path in t.files} | path in t.files ensures Accounted(t, path) {
      assert Accounted(s, path);
    }
  }

  lemma SpawnKeeps(settings: Settings, s: State)
    requires Invariant(settings, s) && s.script.Spawning?
    ensures Invariant(settings, Next(settings, s, Spawn(true)))
  {
    hide Listed;
    var t := Next(settings, s, Spawn(true));
    forall id {:trigger id in t.workers} | id in t.workers ensures HasJob(t.jobs, id, t.workers[id]) {
      assert id == s.script.id || HasJob(s.jobs, id, s.workers[id]);
      assert s.jobs[0] in s.jobs;
    }
    forall j {:trigger Owned(j, t.workers, t.script)} | j in t.jobs ensures Owned(j, t.workers, t.script) {
      assert Owned(j, s.workers, s.script);
    }
    forall j {:trigger FileAgrees(j, t.files, t.workers)} | j in t.jobs ensures FileAgrees(j, t.files, t.workers) {
      assert FileAgrees(j, s.files, s.workers);
    }
    forall path {:trigger path in t.files} | path in t.files ensures Accounted(t, path) {
      assert Accounted(s, path);
      InstalledStays(s.jobs, path, s.files[path], s.workers, s.script.id, Busy);
    }
  }

  /** A worker that has installed something is not the one that changes. */
  lemma InstalledStays(jobs: seq<Job>, path: string, content: Content, workers: map<nat, Phase>, id: nat, phase: Phase)
    requires id in workers ==> workers[id] != Settled(true)
    ensures SomeInstalled(jobs, path, content, workers) ==> SomeInstalled(jobs, path, content, workers[id := phase])
  {
    if SomeInstalled(jobs, path, content, workers) {
      var j :| j in jobs && Installed(j, path, content, workers);
      assert Installed(j, path, content, workers[id := phase]);
    }
  }

  lemma UnspawnKeeps(settings: Settings, s: State)
    requires Invariant(settings, s) && s.script.Spawning?
    ensures Invariant(settings, Next(settings, s, Spawn(false)))
  {
    hide FileAgrees;
    var t := Next(settings, s, Spawn(false));
    var head, rest := s.jobs[0], s.jobs[1..];
    assert s.jobs == [head] + rest;
    DescendingTail(s.jobs);
    forall j {:trigger Owned(j, t.workers, t.script)} | j in rest ensures Owned(j, t.workers, t.script) {
      assert Owned(j, s.workers, s.script) && Above(head, j);
    }
    forall id {:trigger id in t.workers} | id in t.workers ensures HasJob(t.jobs, id, t.workers[id]) {
      assert HasJob(s.jobs, id, s.workers[id]);
    }
    forall path {:trigger path in t.files} | path in t.files ensures Accounted(t, path) {
      assert Accounted(s, path);
    }
  }

  // a save goes into place

  lemma NoSyncJob(s: State)
    requires Listed(s.jobs, s.nextId, s.clock)
    ensures Find(s.jobs, SYNC_ID) == |s.jobs|
  {
    var i := Find(s.jobs, SYNC_ID);
    assert i < |s.jobs| ==> Issued(s.jobs[i], s.nextId, s.clock);
  }

  /** Superseding jobs touches nothing but that flag. */
  lemma MarkKeeps(settings: Settings, s: State, path: string, id: nat)
    requires Invariant(settings, s)
    ensures var jobs := MarkAll(s.jobs, path, id);
            && Listed(jobs, s.nextId, s.clock) && WorkersHaveJobs(jobs, s.workers)
            && RunningAreOwned(jobs, s.workers, s.script) && ScriptOk(jobs, s.workers, s.script)
            && ResultsTrue(jobs, s.reported) && WithinCaps(settings, jobs, s.script)
            && ClaimedAreGone(jobs, s.claimed, s.nextId)
  {
    hide FileAgrees;
    hide Older;
    hide Listed;
    hide ClaimedAreGone;
    var jobs := MarkAll(s.jobs, path, id);
    RewrittenIsListed(s.jobs, jobs, s.nextId, s.clock);
    RewrittenUnclaimed(s.jobs, jobs, s.claimed, s.nextId);
    CountsFall(s.jobs, jobs);
    forall w {:trigger w in s.workers} | w in s.workers ensures HasJob(jobs, w, s.workers[w]) {
      assert HasJob(s.jobs, w, s.workers[w]);
      MarkKeepsJob(s.jobs, path, id, w, s.workers[w]);
    }
    forall j {:trigger Owned(j, s.workers, s.script)} | j in jobs ensures Owned(j, s.workers, s.script) {
      var i :| 0 <= i < |jobs| && jobs[i] == j;
      assert Owned(s.jobs[i], s.workers, s.script);
    }
    forall j {:trigger ResultTrue(j, s.reported)} | j in jobs ensures ResultTrue(j, s.reported) {
      var i :| 0 <= i < |jobs| && jobs[i] == j;
      assert ResultTrue(s.jobs[i], s.reported);
    }
  }

  lemma MarkKeepsJob(jobs: seq<Job>, path: string, id: nat, worker: nat, phase: Phase)
    requires HasJob(jobs, worker, phase)
    ensures HasJob(MarkAll(jobs, path, id), worker, phase)
  {
    hide Older;
    var j :| j in jobs && j.id == worker && j.status == Pending && (phase.Settled? ==> j.kind == Save);
    var i :| 0 <= i < |jobs| && jobs[i] == j;
    assert MarkAll(jobs, path, id)[i] in MarkAll(jobs, path, id);
  }

  lemma MarkKeepsInstalled(jobs: seq<Job>, path: string, id: nat, at: string, content: Content,
      workers: map<nat, Phase>)
    requires SomeInstalled(jobs, at, content, workers)
    ensures SomeInstalled(MarkAll(jobs, path, id), at, content, workers)
  {
    hide Older;
    var j :| j in jobs && Installed(j, at, content, workers);
    var i :| 0 <= i < |jobs| && jobs[i] == j;
    assert Installed(MarkAll(jobs, path, id)[i], at, content, workers);
  }

  /** json_save puts data in place that is newer than every job's. */
  lemma SaveNowAgrees(s: State, path: string, text: seq<char>)
    requires Listed(s.jobs, s.nextId, s.clock) && FilesAgree(s.jobs, s.files, s.workers)
    ensures FilesAgree(MarkAll(s.jobs, path, SYNC_ID), s.files[path := Content(s.clock, text)], s.workers)
  {
    var jobs, files := MarkAll(s.jobs, path, SYNC_ID), s.files[path := Content(s.clock, text)];
    forall j {:trigger FileAgrees(j, files, s.workers)} | j in jobs ensures FileAgrees(j, files, s.workers) {
      var i :| 0 <= i < |jobs| && jobs[i] == j;
      assert FileAgrees(s.jobs[i], s.files, s.workers);
      assert Issued(s.jobs[i], s.nextId, s.clock);
    }
  }

  lemma SaveNowAccounts(s: State, path: string, text: seq<char>)
    requires FilesAccounted(s) && ReportsKept(s.reported, s.files)
    ensures var content := Content(s.clock, text);
            var files, reported := s.files[path := content], s.reported + {Report(path, content)};
            var t := s.(jobs := MarkAll(s.jobs, path, SYNC_ID), files := files, clock := s.clock + 1,
                reported := reported);
            FilesAccounted(t) && ReportsKept(reported, files)
  {
    var content := Content(s.clock, text);
    var files, reported := s.files[path := content], s.reported + {Report(path, content)};
    var t := s.(jobs := MarkAll(s.jobs, path, SYNC_ID), files := files, clock := s.clock + 1, reported := reported);
    forall at {:trigger at in t.files} | at in t.files ensures Accounted(t, at) {
      if at != path {
        assert Accounted(s, at);
        if SomeInstalled(s.jobs, at, s.files[at], s.workers) {
          MarkKeepsInstalled(s.jobs, path, SYNC_ID, at, s.files[at], s.workers);
        }
      }
    }
    forall r {:trigger Kept(r, files)} | r in reported ensures Kept(r, files) {
      if r in s.reported {
        assert Kept(r, s.files);
        assert Accounted(s, r.path);
      }
    }
  }

  lemma LaterClock(s: State)
    requires Listed(s.jobs, s.nextId, s.clock) && FilesAccounted(s)
    ensures Listed(s.jobs, s.nextId, s.clock + 1) && FilesAccounted(s.(clock := s.clock + 1))
  {
    forall j {:trigger Issued(j, s.nextId, s.clock + 1)} | j in s.jobs ensures Issued(j, s.nextId, s.clock + 1) {
      assert Issued(j, s.nextId, s.clock);
    }
    forall path {:trigger path in s.files} | path in s.files ensures Accounted(s.(clock := s.clock + 1), path) {
      assert Accounted(s, path);
    }
  }

  lemma MoreReports(jobs: seq<Job>, reported: set<Report>, more: set<Report>)
    requires ResultsTrue(jobs, reported) && reported <= more
    ensures ResultsTrue(jobs, more)
  {
    forall j {:trigger ResultTrue(j, more)} | j in jobs ensures ResultTrue(j, more) {
      assert ResultTrue(j, reported);
    }
  }

  lemma SaveNowKeeps(settings: Settings, s: State, path: string, text: seq<char>, works: bool)
    requires Invariant(settings, s) && s.script == Idle
    ensures Invariant(settings, Next(settings, s, SaveNow(path, text, works)))
  {
    hide Listed;
    hide WorkersHaveJobs;
    hide RunningAreOwned;
    hide FilesAgree;
    hide FilesAccounted;
    hide ReportsKept;
    hide ResultsTrue;
    hide ClaimedAreGone;
    hide WithinCaps;
    hide ScriptOk;
    hide MarkAll;
    NoSyncJob(s);
    LaterClock(s);
    if works {
      var later := s.(clock := s.clock + 1);
      MarkKeeps(settings, later, path, SYNC_ID);
      SaveNowAgrees(s, path, text);
      SaveNowAccounts(s, path, text);
      MoreReports(MarkAll(s.jobs, path, SYNC_ID), s.reported, s.reported + {Report(path, Content(s.clock, text))});
    }
  }

  /** A worker whose write failed, or whose job was superseded, only notes how it went. */
  lemma SettleKeeps(settings: Settings, s: State, id: nat, ok: bool)
    requires Invariant(settings, s) && Running(s, id, Save, Busy)
    requires ok ==> JobOf(s.jobs, id).superseded
    ensures Invariant(settings, s.(workers := s.workers[id := Settled(ok)]))
  {
    hide Listed;
    WorkersJob(s, id);
    var t := s.(workers := s.workers[id := Settled(ok)]);
    forall w {:trigger w in t.workers} | w in t.workers ensures HasJob(t.jobs, w, t.workers[w]) {
      assert HasJob(s.jobs, w, s.workers[w]);
    }
    forall j {:trigger Owned(j, t.workers, t.script)} | j in t.jobs ensures Owned(j, t.workers, t.script) {
      assert Owned(j, s.workers, s.script);
    }
    forall j {:trigger FileAgrees(j, t.files, t.workers)} | j in t.jobs ensures FileAgrees(j, t.files, t.workers) {
      assert FileAgrees(j, s.files, s.workers);
      ListedOnce(s, j, id);
    }
    forall path {:trigger path in t.files} | path in t.files ensures Accounted(t, path) {
      assert Accounted(s, path);
      InstalledStays(s.jobs, path, s.files[path], s.workers, id, Settled(ok));
    }
  }

  lemma ListedOnce(s: State, j: Job, id: nat)
    requires Listed(s.jobs, s.nextId, s.clock) && j in s.jobs && Find(s.jobs, id) < |s.jobs|
    ensures j.id == id ==> j == JobOf(s.jobs, id)
  {
    if j.id == id {
      SameJob(s.jobs, j, JobOf(s.jobs, id));
    }
  }

  /** The data of a job that is not superseded is newer than what is there, and older saves learn of it. */
  lemma InstallAgrees(s: State, id: nat)
    requires Listed(s.jobs, s.nextId, s.clock) && FilesAgree(s.jobs, s.files, s.workers)
        && WorkersHaveJobs(s.jobs, s.workers)
    requires Running(s, id, Save, Busy) && !JobOf(s.jobs, id).superseded && id != SYNC_ID
    ensures var self := JobOf(s.jobs, id);
            FilesAgree(MarkAll(s.jobs, self.path, id), s.files[self.path := self.content],
                s.workers[id := Settled(true)])
  {
    WorkersJob(s, id);
    var self := JobOf(s.jobs, id);
    assert FileAgrees(self, s.files, s.workers);
    var jobs, files, workers := MarkAll(s.jobs, self.path, id), s.files[self.path := self.content],
        s.workers[id := Settled(true)];
    forall j {:trigger FileAgrees(j, files, workers)} | j in jobs ensures FileAgrees(j, files, workers) {
      var i :| 0 <= i < |jobs| && jobs[i] == j;
      InstallAgreesOn(s, id, s.jobs[i]);
    }
  }

  lemma InstallAgreesOn(s: State, id: nat, j: Job)
    requires Listed(s.jobs, s.nextId, s.clock) && FilesAgree(s.jobs, s.files, s.workers)
    requires Running(s, id, Save, Busy) && JobOf(s.jobs, id).status == Pending && !JobOf(s.jobs, id).superseded
        && id != SYNC_ID
    requires j in s.jobs
    ensures var self := JobOf(s.jobs, id);
            FileAgrees(Marked(j, self.path, id), s.files[self.path := self.content], s.workers[id := Settled(true)])
  {
    var self := JobOf(s.jobs, id);
    assert FileAgrees(self, s.files, s.workers);
    assert FileAgrees(j, s.files, s.workers);
    OrderedPair(s.jobs, j, self);
  }

  lemma OrderedPair(jobs: seq<Job>, a: Job, b: Job)
    requires Descending(jobs) && a in jobs && b in jobs
    ensures a == b || Above(a, b) || Above(b, a)
  {
    var i :| 0 <= i < |jobs| && jobs[i] == a;
    var k :| 0 <= k < |jobs| && jobs[k] == b;
    assert i < k ==> Above(jobs[i], jobs[k]);
    assert k < i ==> Above(jobs[k], jobs[i]);
  }

  lemma InstallAccounts(s: State, id: nat)
    requires Listed(s.jobs, s.nextId, s.clock) && FilesAgree(s.jobs, s.files, s.workers)
        && WorkersHaveJobs(s.jobs, s.workers)
    requires FilesAccounted(s) && ReportsKept(s.reported, s.files)
    requires Running(s, id, Save, Busy) && !JobOf(s.jobs, id).superseded && id != SYNC_ID
    ensures var self := JobOf(s.jobs, id);
            var files := s.files[self.path := self.content];
            FilesAccounted(s.(jobs := MarkAll(s.jobs, self.path, id), files := files,
                workers := s.workers[id := Settled(true)]))
            && ReportsKept(s.reported, files)
  {
    WorkersJob(s, id);
    var self := JobOf(s.jobs, id);
    assert FileAgrees(self, s.files, s.workers) && Issued(self, s.nextId, s.clock);
    var files, workers := s.files[self.path := self.content], s.workers[id := Settled(true)];
    var t := s.(jobs := MarkAll(s.jobs, self.path, id), files := files, workers := workers);
    forall at {:trigger at in t.files} | at in t.files ensures Accounted(t, at) {
      if at == self.path {
        assert Installed(self, at, files[at], workers);
        assert SomeInstalled(s.jobs, at, files[at], workers);
      } else {
        assert Accounted(s, at);
        InstalledStays(s.jobs, at, s.files[at], s.workers, id, Settled(true));
      }
      if SomeInstalled(s.jobs, at, files[at], workers) {
        MarkKeepsInstalled(s.jobs, self.path, id, at, files[at], workers);
      }
    }
    forall r {:trigger Kept(r, files)} | r in s.reported ensures Kept(r, files) {
      assert Kept(r, s.files);
    }
  }

  lemma SettledWorkers(settings: Settings, s: State, jobs: seq<Job>, id: nat)
    requires WorkersHaveJobs(jobs, s.workers) && RunningAreOwned(jobs, s.workers, s.script)
        && ScriptOk(jobs, s.workers, s.script)
    requires id in s.workers && HasJob(jobs, id, Settled(true))
    ensures var workers := s.workers[id := Settled(true)];
            WorkersHaveJobs(jobs, workers) && RunningAreOwned(jobs, workers, s.script)
                && ScriptOk(jobs, workers, s.script)
  {
    var workers := s.workers[id := Settled(true)];
    forall w {:trigger w in workers} | w in workers ensures HasJob(jobs, w, workers[w]) {
      assert w != id ==> HasJob(jobs, w, s.workers[w]);
    }
    forall j {:trigger Owned(j, workers, s.script)} | j in jobs ensures Owned(j, workers, s.script) {
      assert Owned(j, s.workers, s.script);
    }
  }

  /** The state after a worker's rename went through. */
  function InstalledState(s: State, id: nat): State
    requires Find(s.jobs, id) < |s.jobs|
  {
    var self := JobOf(s.jobs, id);
    s.(jobs := MarkAll(s.jobs, self.path, id), files := s.files[self.path := self.content],
        workers := s.workers[id := Settled(true)])
  }

  lemma InstalledKeeps(settings: Settings, s: State, id: nat)
    requires Invariant(settings, s) && Running(s, id, Save, Busy) && !JobOf(s.jobs, id).superseded && id != SYNC_ID
    ensures Invariant(settings, InstalledState(s, id))
  {
    hide Listed;
    hide WorkersHaveJobs;
    hide RunningAreOwned;
    hide FilesAgree;
    hide FilesAccounted;
    hide ReportsKept;
    hide ResultsTrue;
    hide ClaimedAreGone;
    hide WithinCaps;
    hide ScriptOk;
    hide MarkAll;
    hide HasJob;
    var self := JobOf(s.jobs, id);
    MarkKeeps(settings, s, self.path, id);
    InstallAgrees(s, id);
    InstallAccounts(s, id);
    SaverHasJob(s, id);
    MarkKeepsJob(s.jobs, self.path, id, id, Settled(true));
    SettledWorkers(settings, s, MarkAll(s.jobs, self.path, id), id);
  }

  lemma SaverHasJob(s: State, id: nat)
    requires Listed(s.jobs, s.nextId, s.clock) && WorkersHaveJobs(s.jobs, s.workers) && Running(s, id, Save, Busy)
    ensures HasJob(s.jobs, id, Settled(true)) && id != SYNC_ID
  {
    WorkersJob(s, id);
    assert Issued(JobOf(s.jobs, id), s.nextId, s.clock);
  }

  lemma InstallKeeps(settings: Settings, s: State, id: nat, works: bool)
    requires Invariant(settings, s) && Running(s, id, Save, Busy)
    ensures Invariant(settings, Next(settings, s, Installs(id, works)))
  {
    hide Invariant;
    hide MarkAll;
    KnowSaver(settings, s, id);
    var superseded := JobOf(s.jobs, id).superseded;
    if superseded || !works {
      SettleKeeps(settings, s, id, superseded);
    } else {
      InstalledKeeps(settings, s, id);
    }
  }

  lemma KnowSaver(settings: Settings, s: State, id: nat)
    requires Invariant(settings, s) && Running(s, id, Save, Busy)
    ensures id != SYNC_ID
  {
    SaverHasJob(s, id);
  }

  // ---- jobs finish ------------------------------------------------------------------------

  /** The list after worker `id` has finished its job with the given fields. */
  lemma FinishedJob(settings: Settings, s: State, id: nat, done: Job)
    requires Invariant(settings, s) && id in s.workers && Find(s.jobs, id) < |s.jobs|
    requires var j := JobOf(s.jobs, id);
             done.id == j.id && done.kind == j.kind && done.path == j.path && done.content == j.content
                 && done.bytes == j.bytes
    requires done.status != Pending
    ensures var jobs, workers := s.jobs[Find(s.jobs, id) := done], s.workers - {id};
            && Listed(jobs, s.nextId, s.clock) && ClaimedAreGone(jobs, s.claimed, s.nextId)
                && WithinCaps(settings, jobs, s.script)
            && WorkersHaveJobs(jobs, workers) && RunningAreOwned(jobs, workers, s.script)
                && ScriptOk(jobs, workers, s.script)
            && FilesAgree(jobs, s.files, workers)
  {
    var i, workers := Find(s.jobs, id), s.workers - {id};
    var jobs := s.jobs[i := done];
    FinishedOwners(settings, s, id, done);
    FinishedWorkers(settings, s, id, done);
    hide Listed;
    hide ClaimedAreGone;
    RewrittenIsListed(s.jobs, jobs, s.nextId, s.clock);
    RewrittenUnclaimed(s.jobs, jobs, s.claimed, s.nextId);
    WorkersJob(s, id);
    CountsFall(s.jobs, jobs);
  }

  lemma FinishedWorkers(settings: Settings, s: State, id: nat, done: Job)
    requires Invariant(settings, s) && id in s.workers && Find(s.jobs, id) < |s.jobs|
    requires done.id == id && done.status != Pending
    ensures var jobs, workers := s.jobs[Find(s.jobs, id) := done], s.workers - {id};
            WorkersHaveJobs(jobs, workers) && ScriptOk(jobs, workers, s.script)
  {
    var i, workers := Find(s.jobs, id), s.workers - {id};
    var jobs := s.jobs[i := done];
    forall w {:trigger w in workers} | w in workers ensures HasJob(jobs, w, workers[w]) {
      assert HasJob(s.jobs, w, s.workers[w]);
      var j :| j in s.jobs && j.id == w && j.status == Pending && (s.workers[w].Settled? ==> j.kind == Save);
      OthersStay(s.jobs, i, done, j);
    }
  }

  lemma OthersStay(jobs: seq<Job>, i: nat, done: Job, j: Job)
    requires i < |jobs| && j in jobs && j.id != jobs[i].id
    ensures j in jobs[i := done]
  {
    var k :| 0 <= k < |jobs| && jobs[k] == j;
    assert jobs[i := done][k] == j;
  }

  lemma FinishedOwners(settings: Settings, s: State, id: nat, done: Job)
    requires Invariant(settings, s) && id in s.workers && Find(s.jobs, id) < |s.jobs|
    requires done.id == id && done.status != Pending
    ensures var jobs, workers := s.jobs[Find(s.jobs, id) := done], s.workers - {id};
            RunningAreOwned(jobs, workers, s.script) && FilesAgree(jobs, s.files, workers)
  {
    var i, workers := Find(s.jobs, id), s.workers - {id};
    var jobs := s.jobs[i := done];
    forall j | j in jobs ensures j == done || (j in s.jobs && j.id != id) {
      var k :| 0 <= k < |jobs| && jobs[k] == j;
      if k != i {
        OrderedIds(s.jobs, i, k);
      }
    }
    forall j {:trigger Owned(j, workers, s.script)} | j in jobs ensures Owned(j, workers, s.script) {
      assert j == done || Owned(j, s.workers, s.script);
    }
    forall j {:trigger FileAgrees(j, s.files, workers)} | j in jobs ensures FileAgrees(j, s.files, workers) {
      assert j == done || FileAgrees(j, s.files, s.workers);
    }
  }

  lemma OrderedIds(jobs: seq<Job>, i: nat, k: nat)
    requires Descending(jobs) && i < |jobs| && k < |jobs| && i != k
    ensures jobs[i].id != jobs[k].id
  {
    assert i < k ==> Above(jobs[i], jobs[k]);
    assert k < i ==> Above(jobs[k], jobs[i]);
  }

  lemma OthersInstalled(s: State, id: nat, done: Job, path: string, content: Content)
    requires Listed(s.jobs, s.nextId, s.clock) && Find(s.jobs, id) < |s.jobs|
    requires SomeInstalled(s.jobs, path, content, s.workers)
    ensures SomeInstalled(s.jobs[Find(s.jobs, id) := done], path, content, s.workers - {id})
            || Installed(JobOf(s.jobs, id), path, content, s.workers)
  {
    var j :| j in s.jobs && Installed(j, path, content, s.workers);
    if j.id == id {
      ListedOnce(s, j, id);
    } else {
      OthersStay(s.jobs, Find(s.jobs, id), done, j);
      assert Installed(j, path, content, s.workers - {id});
    }
  }

  lemma FinishedAccounts(settings: Settings, s: State, id: nat, done: Job, reported: set<Report>)
    requires Invariant(settings, s) && id in s.workers && Find(s.jobs, id) < |s.jobs|
    requires done.id == id
    requires s.reported <= reported
    requires var j := JobOf(s.jobs, id);
             j.kind == Save && s.workers[id] == Settled(true) ==> Report(j.path, j.content) in reported
    ensures FilesAccounted(s.(jobs := s.jobs[Find(s.jobs, id) := done], workers := s.workers - {id},
        reported := reported))
  {
    hide SomeInstalled;
    hide Listed;
    var t := s.(jobs := s.jobs[Find(s.jobs, id) := done], workers := s.workers - {id}, reported := reported);
    forall path {:trigger path in t.files} | path in t.files ensures Accounted(t, path) {
      assert Accounted(s, path);
      if SomeInstalled(s.jobs, path, s.files[path], s.workers) {
        OthersInstalled(s, id, done, path, s.files[path]);
      }
    }
  }

  lemma FinishedResults(s: State, i: nat, done: Job, reported: set<Report>)
    requires ResultsTrue(s.jobs, s.reported) && s.reported <= reported && i < |s.jobs|
    requires ResultTrue(done, reported)
    ensures ResultsTrue(s.jobs[i := done], reported)
  {
    var jobs := s.jobs[i := done];
    forall j {:trigger ResultTrue(j, reported)} | j in jobs ensures ResultTrue(j, reported) {
      assert j == done || ResultTrue(j, s.reported);
    }
  }

  lemma SaveFinishesKeeps(settings: Settings, s: State, id: nat)
    requires Invariant(settings, s) && Enabled(settings, s, SaveFinishes(id))
    ensures Invariant(settings, Next(settings, s, SaveFinishes(id)))
  {
    var i := Find(s.jobs, id);
    var j, ok := s.jobs[i], s.workers[id].ok;
    var done := SaveDone(j, ok);
    var reported := if ok then s.reported + {Report(j.path, j.content)} else s.reported;
    WorkersJob(s, id);
    assert FileAgrees(j, s.files, s.workers);
    assert ResultTrue(done, reported);
    forall r {:trigger Kept(r, s.files)} | r in reported ensures Kept(r, s.files) {
      assert r in s.reported ==> Kept(r, s.files);
    }
    hide Listed;
    hide WorkersHaveJobs;
    hide RunningAreOwned;
    hide FilesAgree;
    hide FilesAccounted;
    hide ResultsTrue;
    hide ClaimedAreGone;
    hide WithinCaps;
    hide ScriptOk;
    hide FileAgrees;
    FinishedJob(settings, s, id, done);
    FinishedAccounts(settings, s, id, done, reported);
    FinishedResults(s, i, done, reported);
  }

  lemma LoadFinishesKeeps(settings: Settings, s: State, id: nat, parsed: bool)
    requires Invariant(settings, s) && Running(s, id, Load, Busy)
    ensures Invariant(settings, Next(settings, s, LoadFinishes(id, parsed)))
  {
    hide Listed;
    hide WorkersHaveJobs;
    hide RunningAreOwned;
    hide FilesAgree;
    hide FilesAccounted;
    hide ResultsTrue;
    hide ReportsKept;
    hide ClaimedAreGone;
    hide WithinCaps;
    hide ScriptOk;
    var i := Find(s.jobs, id);
    var done := LoadDone(s.jobs[i], parsed);
    FinishedJob(settings, s, id, done);
    FinishedAccounts(settings, s, id, done, s.reported);
    assert ResultTrue(done, s.reported);
    FinishedResults(s, i, done, s.reported);
  }

  // ---- all events ---------------------------------------------------------------------------

  lemma ClaimKeeps(settings: Settings, s: State, id: nat)
    requires Invariant(settings, s) && Enabled(settings, s, Claim(id))
    ensures Invariant(settings, Next(settings, s, Claim(id)))
  {
    var i := Find(s.jobs, id);
    var b := Without(s.jobs, i);
    var job := s.jobs[i];
    assert Issued(job, s.nextId, s.clock);
    WithoutThins(s.jobs, i);
    ThinnedKeeps(settings, s, b);
    forall j | j in b ensures j.id != id {
      var k :| 0 <= k < |b| && b[k] == j;
      OrderedIds(s.jobs, i, if k < i then k else k + 1);
    }
  }

  lemma AdmitKeeps(settings: Settings, s: State, e: Event)
    requires Invariant(settings, s) && e.Admit? && Enabled(settings, s, e)
    ensures Invariant(settings, Next(settings, s, e))
  {
    hide FileAgrees;
    var t := Next(settings, s, e);
    forall j {:trigger Owned(j, t.workers, t.script)} | j in t.jobs ensures Owned(j, t.workers, t.script) {
      assert Owned(j, s.workers, s.script);
    }
    forall path {:trigger path in t.files} | path in t.files ensures Accounted(t, path) {
      assert Accounted(s, path);
    }
  }

  lemma EventKeeps(settings: Settings, s: State, e: Event)
    requires Invariant(settings, s) && Enabled(settings, s, e)
    ensures Invariant(settings, Next(settings, s, e))
  {
    hide Invariant;
    hide Rename;
    hide MarkAll;
    match e
    case Admit(kind, path, text, bytes) => AdmitKeeps(settings, s, e);
    case Append => AppendKeeps(settings, s);
    case Spawn(works) => SpawnEitherKeeps(settings, s, works);
    case SaveNow(path, text, works) => SaveNowKeeps(settings, s, path, text, works);
    case TrimSaves => ThinningKeeps(settings, s);
    case NewLevel => ThinningKeeps(settings, s);
    case Claim(id) => ClaimKeeps(settings, s, id);
    case WriteFails(id) => SettleKeeps(settings, s, id, false);
    case Installs(id, works) => InstallKeeps(settings, s, id, works);
    case SaveFinishes(id) => SaveFinishesKeeps(settings, s, id);
    case LoadFinishes(id, parsed) => LoadFinishesKeeps(settings, s, id, parsed);
  }

  lemma SpawnEitherKeeps(settings: Settings, s: State, works: bool)
    requires Invariant(settings, s) && s.script.Spawning?
    ensures Invariant(settings, Next(settings, s, Spawn(works)))
  {
    hide Invariant;
    if works {
      SpawnKeeps(settings, s);
    } else {
      UnspawnKeeps(settings, s);
    }
  }

  lemma ThinningKeeps(settings: Settings, s: State)
    requires Invariant(settings, s) && s.script == Idle
    ensures Invariant(settings, Next(settings, s, TrimSaves))
    ensures Invariant(settings, Next(settings, s, NewLevel))
  {
    TrimThins(s.jobs, KEEP_SAVES);
    CleanupThins(s.jobs);
    hide Thinned;
    ThinnedKeeps(settings, s, Trim(s.jobs, KEEP_SAVES));
    ThinnedKeeps(settings, s, Cleanup(s.jobs));
  }

  // ---- whole runs -----------------------------------------------------------------------------

  /** The states a run passes through. */
  ghost predicate IsRun(settings: Settings, states: seq<State>, events: seq<Event>) {
    && |states| == |events| + 1 && states[0] == START
    && forall i :: 0 <= i < |events| ==>
        Enabled(settings, states[i], events[i]) && states[i + 1] == Next(settings, states[i], events[i])
  }

  lemma {:induction false} RunKeeps(settings: Settings, states: seq<State>, events: seq<Event>, i: nat)
    requires IsRun(settings, states, events) && i < |states|
    ensures Invariant(settings, states[i])
  {
    hide Next;
    hide Enabled;
    if i == 0 {
      StartIsFine(settings);
    } else {
      RunKeeps(settings, states, events, i - 1);
      EventKeeps(settings, states[i - 1], events[i - 1]);
    }
  }

  lemma StartIsFine(settings: Settings)
    ensures Invariant(settings, START)
  {
  }

  /** The data at a path is replaced by data submitted later only. */
  ghost predicate NoOlderData(was: Files, now: Files) {
    forall path | path in was :: path in now && (now[path] == was[path] || now[path].stamp > was[path].stamp)
  }

  lemma EventNeverGoesBack(settings: Settings, s: State, e: Event)
    requires Invariant(settings, s) && Enabled(settings, s, e)
    ensures NoOlderData(s.files, Next(settings, s, e).files)
  {
    hide MarkAll;
    if e.SaveNow? && e.path in s.files {
      assert Accounted(s, e.path);
    } else if e.Installs? {
      var self := JobOf(s.jobs, e.id);
      WorkersJob(s, e.id);
      assert FileAgrees(self, s.files, s.workers);
    }
  }

  lemma {:induction false} DataNeverGoesBack(settings: Settings, states: seq<State>, events: seq<Event>, i: nat, k: nat)
    requires IsRun(settings, states, events) && i <= k < |states|
    ensures NoOlderData(states[i].files, states[k].files)
    decreases k
  {
    hide Next;
    hide Enabled;
    if i < k {
      DataNeverGoesBack(settings, states, events, i, k - 1);
      RunKeeps(settings, states, events, k - 1);
      EventNeverGoesBack(settings, states[k - 1], events[k - 1]);
    }
  }

  /** From the moment a save reports success, its data or data submitted later is at its path. */
  lemma SuccessMeansOnDisk(settings: Settings, states: seq<State>, events: seq<Event>, i: nat, k: nat, r: Report)
    requires IsRun(settings, states, events) && i <= k < |states|
    requires r in states[i].reported
    ensures r.path in states[k].files && states[k].files[r.path].stamp >= r.content.stamp
  {
    RunKeeps(settings, states, events, i);
    DataNeverGoesBack(settings, states, events, i, k);
    assert Kept(r, states[i].files);
  }

  ghost predicate Newest(r: Report, reported: set<Report>) {
    r in reported && forall q :: q in reported && q.path == r.path ==> q.content.stamp <= r.content.stamp
  }

  /** With no save of a path running, the file is the newest-submitted save of it that reported success. */
  lemma QuietFileIsNewestSave(settings: Settings, states: seq<State>, events: seq<Event>, i: nat, path: string)
    requires IsRun(settings, states, events) && i < |states|
    requires forall j | j in states[i].jobs :: !(j.kind == Save && j.status == Pending && j.path == path)
    ensures var s := states[i];
            && (path in s.files <==> exists r :: r in s.reported && r.path == path)
            && (path in s.files ==> Newest(Report(path, s.files[path]), s.reported))
  {
    var s := states[i];
    RunKeeps(settings, states, events, i);
    forall q | q in s.reported && q.path == path ensures path in s.files && q.content.stamp <= s.files[path].stamp {
      assert Kept(q, s.files);
    }
    if path in s.files {
      assert Accounted(s, path);
      assert Report(path, s.files[path]) in s.reported;
    }
  }

  /** Whoever claims a save that says 1 has its data or later data on disk from then on. */
  lemma ClaimedSuccessIsOnDisk(settings: Settings, states: seq<State>, events: seq<Event>, i: nat, k: nat, id: nat)
    requires IsRun(settings, states, events) && i <= k < |states|
    requires Find(states[i].jobs, id) < |states[i].jobs|
    requires var j := JobOf(states[i].jobs, id); j.kind == Save && j.status == Done && j.saveOk
    ensures var j := JobOf(states[i].jobs, id);
            j.path in states[k].files && states[k].files[j.path].stamp >= j.content.stamp
  {
    var j := JobOf(states[i].jobs, id);
    RunKeeps(settings, states, events, i);
    assert ResultTrue(j, states[i].reported);
    SuccessMeansOnDisk(settings, states, events, i, k, Report(j.path, j.content));
  }

  /** The job of a live worker is on the list in every state of a run. */
  lemma RunningJobIsNeverFreed(settings: Settings, states: seq<State>, events: seq<Event>, i: nat, id: nat)
    requires IsRun(settings, states, events) && i < |states| && id in states[i].workers
    ensures exists j :: j in states[i].jobs && j.id == id && j.status == Pending
  {
    RunKeeps(settings, states, events, i);
    assert HasJob(states[i].jobs, id, states[i].workers[id]);
  }

  lemma {:induction false} ClaimedStaysClaimed(settings: Settings, states: seq<State>, events: seq<Event>, i: nat,
      k: nat)
    requires IsRun(settings, states, events) && i <= k < |states|
    ensures states[i].claimed <= states[k].claimed
    decreases k
  {
    if i < k {
      ClaimedStaysClaimed(settings, states, events, i, k - 1);
      assert Enabled(settings, states[k - 1], events[k - 1])
          && states[k] == Next(settings, states[k - 1], events[k - 1]);
    }
  }

  lemma ClaimedIsUnlisted(settings: Settings, s: State, id: nat)
    requires Invariant(settings, s) && id in s.claimed
    ensures Find(s.jobs, id) == |s.jobs|
  {
    forall k | 0 <= k < |s.jobs| ensures s.jobs[k].id != id {
      assert s.jobs[k] in s.jobs;
    }
  }

  /** No id is claimed twice. */
  lemma ClaimedOnce(settings: Settings, states: seq<State>, events: seq<Event>, i: nat, k: nat, id: nat)
    requires IsRun(settings, states, events) && i < |events| && k < |events|
    requires events[i] == Claim(id) && events[k] == Claim(id)
    ensures i == k
  {
    var a, b := if i < k then i else k, if i < k then k else i;
    if a < b {
      assert Enabled(settings, states[a], events[a]) && states[a + 1] == Next(settings, states[a], events[a]);
      assert Enabled(settings, states[b], events[b]);
      ClaimedStaysClaimed(settings, states, events, a + 1, b);
      RunKeeps(settings, states, events, b);
      ClaimedIsUnlisted(settings, states[b], id);
    }
  }

  /** The list is strictly newest first, and jobs and bytes stay within the caps. */
  lemma ListStaysBounded(settings: Settings, states: seq<State>, events: seq<Event>, i: nat)
    requires IsRun(settings, states, events) && i < |states|
    ensures var s := states[i];
            && (forall a, b :: 0 <= a < b < |s.jobs| ==> s.jobs[a].id > s.jobs[b].id)
            && ActiveJobs(s.jobs) <= AtLeast0(settings.maxJobs)
            && HeldBytes(s.jobs) <= AtLeast0(HELD_LOADS * settings.maxLoadBytes)
  {
    RunKeeps(settings, states, events, i);
    var jobs := states[i].jobs;
    forall a, b | 0 <= a < b < |jobs| ensures jobs[a].id > jobs[b].id {
      assert Above(jobs[a], jobs[b]);
    }
  }
}
