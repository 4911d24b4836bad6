/**
 What becomes of each save, over whole runs (code/gsc_json.cpp, 1096-1258): which saves put
 their data in place, which report success, and for what reason the others do not. And
 which submits are let in (1123-1148).
 */
module AsyncOutcomes {
  import opened AsyncJobs
  import opened AsyncProtocol

  /** Data submitted after this stamp is at the path. */
  ghost predicate Overtaken(s: State, path: string, stamp: nat) {
    path in s.files && s.files[path].stamp > stamp
  }

  /** A json_save puts its data in place and says so exactly when its rename works; nothing else changes on disk. */
  lemma SaveNowTakesEffect(settings: Settings, states: seq<State>, events: seq<Event>, i: nat)
    requires IsRun(settings, states, events) && i < |events| && events[i].SaveNow?
    ensures var s, t, e := states[i], states[i + 1], events[i];
            var content := Content(s.clock, e.text);
            && t.files == (if e.works then s.files[e.path := content] else s.files)
            && t.reported == (if e.works then s.reported + {Report(e.path, content)} else s.reported)
            && t.clock == s.clock + 1 && t.workers == s.workers
            && !Overtaken(s, e.path, content.stamp)
  {
    RunKeeps(settings, states, events, i);
    var s, e := states[i], events[i];
    assert Enabled(settings, s, e) && states[i + 1] == Next(settings, s, e);
    NoSyncJob(s);
    assert e.path in s.files ==> Accounted(s, e.path);
  }

  /**
   A worker's rename: with newer data at the path it is dropped and counts as a success; else it
   puts the job's data in place and succeeds exactly when the rename works.
   */
  lemma InstallTakesEffect(settings: Settings, states: seq<State>, events: seq<Event>, i: nat)
    requires IsRun(settings, states, events) && i < |events| && events[i].Installs?
    ensures var s, t, id, works := states[i], states[i + 1], events[i].id, events[i].works;
            && Find(s.jobs, id) < |s.jobs|
            && var j := JobOf(s.jobs, id);
            && var dropped := Overtaken(s, j.path, j.content.stamp);
            && t.files == (if works && !dropped then s.files[j.path := j.content] else s.files)
            && t.workers == s.workers[id := Settled(works || dropped)]
            && t.reported == s.reported
  {
    RunKeeps(settings, states, events, i);
    var s, e := states[i], events[i];
    assert Enabled(settings, s, e) && states[i + 1] == Next(settings, s, e);
    WorkersJob(s, e.id);
    assert FileAgrees(JobOf(s.jobs, e.id), s.files, s.workers);
    hide Invariant;
  }

  /** The end of a worker: its job says how the save went, and a success is reported. */
  lemma FinishTellsTruth(settings: Settings, states: seq<State>, events: seq<Event>, i: nat)
    requires IsRun(settings, states, events) && i < |events| && events[i].SaveFinishes?
    ensures var s, t, id := states[i], states[i + 1], events[i].id;
            && id in s.workers && s.workers[id].Settled? && id !in t.workers
            && Find(s.jobs, id) < |s.jobs| && Find(t.jobs, id) < |t.jobs|
            && var j, k, ok := JobOf(s.jobs, id), JobOf(t.jobs, id), s.workers[id].ok;
            && k.status == Done && k.saveOk == ok && k.path == j.path && k.content == j.content
            && t.reported == (if ok then s.reported + {Report(j.path, j.content)} else s.reported)
            && t.files == s.files
  {
    RunKeeps(settings, states, events, i);
    var s, e := states[i], events[i];
    assert Enabled(settings, s, e) && states[i + 1] == Next(settings, s, e);
    var at := Find(s.jobs, e.id);
    FindStays(s.jobs, at, SaveDone(s.jobs[at], s.workers[e.id].ok));
    hide Invariant;
  }

  lemma FindStays(jobs: seq<Job>, i: nat, j: Job)
    requires i < |jobs| && i == Find(jobs, jobs[i].id) && j.id == jobs[i].id
    ensures Find(jobs[i := j], j.id) == i
  {
    var more := jobs[i := j];
    assert forall k :: 0 <= k < i ==> more[k] == jobs[k];
    assert Find(more, j.id) <= i;
  }

  // ---- the reason for every outcome ------------------------------------------------------------

  /** The i-th event decided how the save of this job went, for this reason. */
  ghost predicate Decided(states: seq<State>, events: seq<Event>, i: nat, id: nat, ok: bool)
    requires |states| == |events| + 1
  {
    && i < |events|
    && if events[i].Installs? && events[i].id == id then
         && Find(states[i].jobs, id) < |states[i].jobs|
         && var j := JobOf(states[i].jobs, id);
         && (ok <==> events[i].works || Overtaken(states[i], j.path, j.content.stamp))
       else events[i] == WriteFails(id) && !ok
  }

  ghost predicate DecidedBefore(states: seq<State>, events: seq<Event>, k: nat, id: nat, ok: bool)
    requires |states| == |events| + 1
  {
    exists i :: 0 <= i < k && Decided(states, events, i, id, ok)
  }

  /** Every settled worker and every finished save is there for a reason. */
  ghost predicate AllDecided(states: seq<State>, events: seq<Event>, k: nat)
    requires |states| == |events| + 1 && k < |states|
  {
    && (forall id {:trigger id in states[k].workers} | id in states[k].workers ::
        states[k].workers[id].Settled? ==> DecidedBefore(states, events, k, id, states[k].workers[id].ok))
    && (forall j {:trigger j in states[k].jobs} | j in states[k].jobs ::
        FinishedSave(j) ==> j.status == Done && DecidedBefore(states, events, k, j.id, j.saveOk))
  }

  lemma LaterDecided(states: seq<State>, events: seq<Event>, k: nat, id: nat, ok: bool)
    requires |states| == |events| + 1 && DecidedBefore(states, events, k, id, ok)
    ensures DecidedBefore(states, events, k + 1, id, ok)
  {
  }

  lemma {:induction false} TrimIsPart(jobs: seq<Job>, room: nat)
    ensures forall j :: j in Trim(jobs, room) ==> j in jobs
    decreases |jobs|
  {
    if jobs != [] {
      TrimIsPart(jobs[1..], if FinishedSave(jobs[0]) && room > 0 then room - 1 else room);
    }
  }

  lemma {:induction false} CleanupIsPart(jobs: seq<Job>)
    ensures forall j :: j in Cleanup(jobs) ==> j in jobs
    decreases |jobs|
  {
    if jobs != [] {
      CleanupIsPart(jobs[1..]);
    }
  }

  /** A finished save was there before, or its worker has just ended. */
  lemma FinishedBefore(settings: Settings, s: State, e: Event, j: Job)
    requires Enabled(settings, s, e) && j in Next(settings, s, e).jobs && FinishedSave(j)
    ensures
      || j in s.jobs
      || (e.SaveFinishes? && e.id in s.workers && s.workers[e.id] == Settled(j.saveOk) && j.id == e.id
          && j.status == Done)
  {
    var t := Next(settings, s, e);
    match e
    case TrimSaves => TrimIsPart(s.jobs, KEEP_SAVES);
    case NewLevel => CleanupIsPart(s.jobs);
    case SaveNow(_, _, _) => OnlyPendingMarked(s.jobs, t.jobs, j);
    case Installs(_, _) => OnlyPendingMarked(s.jobs, t.jobs, j);
    case _ =>
  }

  /** Superseding touches unfinished jobs only. */
  lemma OnlyPendingMarked(jobs: seq<Job>, now: seq<Job>, j: Job)
    requires j in now && FinishedSave(j) && (now == jobs || exists path, id :: now == MarkAll(jobs, path, id))
    ensures j in jobs
  {
    if now != jobs {
      var path, id :| now == MarkAll(jobs, path, id);
      var i :| 0 <= i < |now| && now[i] == j;
      assert now[i] == Marked(jobs[i], path, id);
    }
  }

  lemma StepDecides(settings: Settings, states: seq<State>, events: seq<Event>, k: nat)
    requires IsRun(settings, states, events) && k < |events| && AllDecided(states, events, k)
    ensures AllDecided(states, events, k + 1)
  {
    var s, t, e := states[k], states[k + 1], events[k];
    assert Enabled(settings, s, e) && t == Next(settings, s, e);
    forall id {:trigger id in t.workers} | id in t.workers && t.workers[id].Settled?
      ensures DecidedBefore(states, events, k + 1, id, t.workers[id].ok)
    {
      if id in s.workers && s.workers[id] == t.workers[id] {
        LaterDecided(states, events, k, id, t.workers[id].ok);
      } else {
        if e.Installs? {
          InstallTakesEffect(settings, states, events, k);
        }
        assert Decided(states, events, k, id, t.workers[id].ok);
      }
    }
    forall j {:trigger j in t.jobs} | j in t.jobs && FinishedSave(j)
      ensures j.status == Done && DecidedBefore(states, events, k + 1, j.id, j.saveOk)
    {
      FinishedBefore(settings, s, e, j);
      LaterDecided(states, events, k, j.id, j.saveOk);
    }
  }

  lemma {:induction false} RunDecides(settings: Settings, states: seq<State>, events: seq<Event>, k: nat)
    requires IsRun(settings, states, events) && k < |states|
    ensures AllDecided(states, events, k)
  {
    if k > 0 {
      RunDecides(settings, states, events, k - 1);
      StepDecides(settings, states, events, k - 1);
    }
  }

  /**
   A finished save says it succeeded exactly when its rename worked or newer data was there already;
   it failed because the rename did, with nothing newer at the path, or because the write did.
   */
  lemma EveryOutcomeHasItsReason(settings: Settings, states: seq<State>, events: seq<Event>, k: nat, j: Job)
    requires IsRun(settings, states, events) && k < |states| && j in states[k].jobs && FinishedSave(j)
    ensures j.status == Done && exists i :: 0 <= i < k && Decided(states, events, i, j.id, j.saveOk)
  {
    RunDecides(settings, states, events, k);
  }

  // ---- what every other section leaves alone ----------------------------------------------------------

  /** Only renames change files, and only a save that ends reports. */
  lemma OthersSaveNothing(settings: Settings, states: seq<State>, events: seq<Event>, i: nat)
    requires IsRun(settings, states, events) && i < |events| && !events[i].SaveNow?
    ensures !events[i].Installs? ==> states[i + 1].files == states[i].files
    ensures !events[i].SaveFinishes? ==> states[i + 1].reported == states[i].reported
  {
    assert Enabled(settings, states[i], events[i]) && states[i + 1] == Next(settings, states[i], events[i]);
  }

  /** The end of a load: its job holds the document if there is one, and else says that it failed. */
  lemma LoadTellsTruth(settings: Settings, states: seq<State>, events: seq<Event>, i: nat)
    requires IsRun(settings, states, events) && i < |events| && events[i].LoadFinishes?
    ensures var s, t, id := states[i], states[i + 1], events[i].id;
            && id in s.workers && id !in t.workers && Find(s.jobs, id) < |s.jobs| && Find(t.jobs, id) < |t.jobs|
            && var j, k := JobOf(s.jobs, id), JobOf(t.jobs, id);
            && j.kind == Load && (k.status == Done <==> events[i].parsed) && (k.status == Failed <==> !events[i].parsed)
            && (k.holdsDoc <==> events[i].parsed)
  {
    var s, e := states[i], events[i];
    assert Enabled(settings, s, e) && states[i + 1] == Next(settings, s, e);
    var at := Find(s.jobs, e.id);
    FindStays(s.jobs, at, LoadDone(s.jobs[at], e.parsed));
  }

  /** A new level leaves the running jobs, in their order, and nothing else. */
  lemma {:induction false} CleanupLeavesRunning(jobs: seq<Job>)
    ensures forall j :: j in Cleanup(jobs) <==> j in jobs && j.status == Pending
    ensures (forall j | j in jobs :: j.status == Pending) ==> Cleanup(jobs) == jobs
    decreases |jobs|
  {
    if jobs != [] {
      assert jobs == [jobs[0]] + jobs[1..];
      CleanupLeavesRunning(jobs[1..]);
    }
  }

  // ---- who is let in -------------------------------------------------------------------------------

  /** The places of the jobs that count against the cap. */
  ghost function ActivePlaces(jobs: seq<Job>): set<nat> {
    set i | 0 <= i < |jobs| && (jobs[i].status == Pending || jobs[i].holdsDoc)
  }

  lemma {:induction false} ActiveAppend(jobs: seq<Job>, j: Job)
    ensures ActiveJobs(jobs + [j]) == ActiveJobs(jobs) + if Active(j) then 1 else 0
    decreases |jobs|
  {
    if jobs == [] {
      assert jobs + [j] == [j];
    } else {
      assert (jobs + [j])[1..] == jobs[1..] + [j];
      ActiveAppend(jobs[1..], j);
    }
  }

  lemma {:induction false} ActiveCounted(jobs: seq<Job>)
    ensures ActiveJobs(jobs) == |ActivePlaces(jobs)|
    decreases |jobs|
  {
    hide ActiveJobs;
    hide Active;
    if jobs == [] {
      NoneActive();
    } else {
      var k := |jobs| - 1;
      var front := jobs[..k];
      ActiveCounted(front);
      ActiveAppend(front, jobs[k]);
      assert jobs == front + [jobs[k]];
      PlacesGrow(front, jobs[k]);
      hide ActivePlaces;
    }
  }

  lemma NoneActive()
    ensures ActiveJobs([]) == 0 && ActivePlaces([]) == {}
  {
  }

  lemma PlacesGrow(jobs: seq<Job>, j: Job)
    ensures |ActivePlaces(jobs + [j])| == |ActivePlaces(jobs)| + if Active(j) then 1 else 0
  {
    var a, b := ActivePlaces(jobs), ActivePlaces(jobs + [j]);
    if Active(j) {
      assert b == a + {|jobs|};
    } else {
      assert b == a;
    }
  }

  /** While the script is free a submit is let in exactly when one more job, and the bytes of a load, still fit. */
  lemma AdmittedExactly(settings: Settings, s: State, kind: Kind, path: string, text: seq<char>, bytes: nat)
    requires s.script == Idle && (kind == Save ==> bytes == 0)
    ensures Enabled(settings, s, Admit(kind, path, text, bytes)) <==>
      && |ActivePlaces(s.jobs)| + 1 <= settings.maxJobs
      && (kind == Load ==> HeldBytes(s.jobs) + bytes <= HELD_LOADS * settings.maxLoadBytes)
  {
    ActiveCounted(s.jobs);
  }
}
