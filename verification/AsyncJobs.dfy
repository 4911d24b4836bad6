/**
 The job list of the asynchronous JSON calls (code/gsc_json.cpp, 1067-1588): what each
 section guarded by json_async_mutex does to the list and to the files.
 */
module AsyncJobs {

  const KEEP_SAVES: nat := 1024
  const HELD_LOADS: nat := 4
  const SYNC_ID: nat := 0

  datatype Kind = Load | Save
  datatype Status = Pending | Done | Failed

  /** What a save puts at its path; the stamp is its place in the order of submissions. */
  datatype Content = Content(stamp: nat, text: seq<char>)

  datatype Job = Job(
    id: nat, kind: Kind, status: Status, path: string, content: Content,
    superseded: bool, saveOk: bool, holdsDoc: bool, bytes: nat)

  type Files = map<string, Content>

  // ---- walks over the list -------------------------------------------------------

  /** The index of the job with this id, or |jobs|. */
  function Find(jobs: seq<Job>, id: nat): (i: nat)
    ensures i <= |jobs|
    ensures i < |jobs| ==> jobs[i].id == id
    ensures forall k :: 0 <= k < i ==> jobs[k].id != id
  {
    if jobs == [] || jobs[0].id == id then 0 else 1 + Find(jobs[1..], id)
  }

  /** A save that has not finished, of this path, submitted before job `id`; every save is before json_save. */
  predicate Older(j: Job, path: string, id: nat) {
    j.kind == Save && j.status == Pending && (id == SYNC_ID || j.id < id) && j.path == path
  }

  function Marked(j: Job, path: string, id: nat): Job {
    if Older(j, path, id) then j.(superseded := true) else j
  }

  function MarkAll(jobs: seq<Job>, path: string, id: nat): (r: seq<Job>)
    ensures |r| == |jobs|
    ensures forall i :: 0 <= i < |r| ==> r[i] == Marked(jobs[i], path, id)
  {
    seq(|jobs|, i requires 0 <= i < |jobs| => Marked(jobs[i], path, id))
  }

  ghost predicate MarkedSoFar(was: seq<Job>, now: seq<Job>, path: string, id: nat, n: nat) {
    && n <= |now| == |was|
    && (forall i :: 0 <= i < n ==> now[i] == Marked(was[i], path, id))
    && forall i :: n <= i < |now| ==> now[i] == was[i]
  }

  lemma MarkStep(was: seq<Job>, now: seq<Job>, path: string, id: nat, i: nat)
    requires MarkedSoFar(was, now, path, id, i) && i < |now|
    ensures var next := if Older(now[i], path, id) then now[i := now[i].(superseded := true)] else now;
      MarkedSoFar(was, next, path, id, i + 1)
  {
    hide Older;
  }

  lemma AllMarked(was: seq<Job>, now: seq<Job>, path: string, id: nat)
    requires MarkedSoFar(was, now, path, id, |now|)
    ensures now == MarkAll(was, path, id)
  {
    hide Marked;
  }

  /** What a finished rename section leaves: the list, the files, and whether it reports success. */
  datatype Renamed = Renamed(jobs: seq<Job>, files: Files, ok: bool)

  /** `works` says whether the rename call itself would succeed. */
  function Rename(jobs: seq<Job>, files: Files, path: string, content: Content, id: nat, works: bool): Renamed {
    var i := Find(jobs, id);
    if i < |jobs| && jobs[i].superseded then Renamed(jobs, files, true)
    else if works then Renamed(MarkAll(jobs, path, id), files[path := content], true)
    else Renamed(jobs, files, false)
  }

  predicate Active(j: Job) {
    j.status == Pending || j.holdsDoc
  }

  /** Jobs running or holding a document nobody took. */
  function ActiveJobs(jobs: seq<Job>): (n: nat)
    ensures n <= |jobs|
  {
    if jobs == [] then 0 else (if Active(jobs[0]) then 1 else 0) + ActiveJobs(jobs[1..])
  }

  /** The file bytes behind those. */
  function HeldBytes(jobs: seq<Job>): nat {
    if jobs == [] then 0 else (if Active(jobs[0]) then jobs[0].bytes else 0) + HeldBytes(jobs[1..])
  }

  datatype Settings = Settings(maxJobs: int, maxLoadBytes: int)

  /** No room for another job; `bytes` is -1 for a save. */
  predicate Full(jobs: seq<Job>, settings: Settings, bytes: int) {
    ActiveJobs(jobs) >= settings.maxJobs || (bytes >= 0 && HeldBytes(jobs) + bytes > HELD_LOADS * settings.maxLoadBytes)
  }

  predicate FinishedSave(j: Job) {
    j.kind == Save && j.status != Pending
  }

  /** Drops the finished saves after the first `room` of them. */
  function Trim(jobs: seq<Job>, room: nat): seq<Job> {
    if jobs == [] then []
    else if !FinishedSave(jobs[0]) then [jobs[0]] + Trim(jobs[1..], room)
    else if room > 0 then [jobs[0]] + Trim(jobs[1..], room - 1)
    else Trim(jobs[1..], 0)
  }

  /** Drops everything that has finished. */
  function Cleanup(jobs: seq<Job>): seq<Job> {
    if jobs == [] then []
    else if jobs[0].status == Pending then [jobs[0]] + Cleanup(jobs[1..])
    else Cleanup(jobs[1..])
  }

  function Without(jobs: seq<Job>, i: nat): seq<Job>
    requires i < |jobs|
  {
    jobs[..i] + jobs[i + 1..]
  }

  /** What the last section of a worker writes into its job. */
  function SaveDone(j: Job, ok: bool): Job {
    j.(status := Done, saveOk := ok)
  }

  function LoadDone(j: Job, parsed: bool): Job {
    j.(status := if parsed then Done else Failed, holdsDoc := parsed)
  }

  // ---- trimming ------------------------------------------------------------------

  function FinishedSaves(jobs: seq<Job>): seq<Job> {
    if jobs == [] then [] else (if FinishedSave(jobs[0]) then [jobs[0]] else []) + FinishedSaves(jobs[1..])
  }

  function OtherJobs(jobs: seq<Job>): seq<Job> {
    if jobs == [] then [] else (if FinishedSave(jobs[0]) then [] else [jobs[0]]) + OtherJobs(jobs[1..])
  }

  /** Trimming keeps the first finished saves of the list and touches no other job. */
  lemma {:induction false} TrimKeepsNewest(jobs: seq<Job>, room: nat)
    ensures var all := FinishedSaves(jobs);
            FinishedSaves(Trim(jobs, room)) == if |all| <= room then all else all[..room]
    ensures OtherJobs(Trim(jobs, room)) == OtherJobs(jobs)
    decreases |jobs|
  {
    hide FinishedSave;
    if jobs != [] {
      var j, rest := jobs[0], jobs[1..];
      var less := if FinishedSave(j) && room > 0 then room - 1 else room;
      TrimKeepsNewest(rest, less);
      var kept := Trim(rest, less);
      assert ([j] + kept)[1..] == kept;
    }
  }

  /** The walk has handled `seen` jobs of the old list and stands at `link` of the new one. */
  ghost predicate Walked(was: seq<Job>, now: seq<Job>, seen: nat, link: nat, room: nat) {
    && seen <= |was| && link <= |now| && now[link..] == was[seen..]
    && Trim(was, KEEP_SAVES) == now[..link] + Trim(was[seen..], room)
  }

  lemma WalkKeeps(was: seq<Job>, now: seq<Job>, seen: nat, link: nat, room: nat)
    requires Walked(was, now, seen, link, room) && link < |now| && (FinishedSave(now[link]) ==> room > 0)
    ensures Walked(was, now, seen + 1, link + 1, if FinishedSave(now[link]) then room - 1 else room)
  {
    assert now[link] == now[link..][0] == was[seen..][0];
    assert now[link..][1..] == now[link + 1..] && was[seen..][1..] == was[seen + 1..];
    assert now[..link + 1] == now[..link] + [now[link]];
  }

  lemma WalkDrops(was: seq<Job>, now: seq<Job>, seen: nat, link: nat)
    requires Walked(was, now, seen, link, 0) && link < |now| && FinishedSave(now[link])
    ensures Walked(was, Without(now, link), seen + 1, link, 0)
  {
    assert now[link] == now[link..][0] == was[seen..][0];
    assert now[link..][1..] == Without(now, link)[link..] && was[seen..][1..] == was[seen + 1..];
    assert Without(now, link)[..link] == now[..link];
  }

  lemma WalkStarts(jobs: seq<Job>)
    ensures Walked(jobs, jobs, 0, 0, KEEP_SAVES)
  {
    assert jobs[0..] == jobs;
  }

  lemma WalkEnds(was: seq<Job>, now: seq<Job>, seen: nat, room: nat)
    requires Walked(was, now, seen, |now|, room)
    ensures now == Trim(was, KEEP_SAVES)
  {
    assert was[seen..] == [];
  }

  // ---- the sections ----------------------------------------------------------------

  class JobList {
    var jobs: seq<Job>
    var nextId: nat
    var files: Files

    constructor ()
      ensures jobs == [] && nextId == 1 && files == map[]
    {
      jobs, nextId, files := [], 1, map[];
    }

    /** json_save_rename. */
    method SaveRename(path: string, content: Content, id: nat, works: bool) returns (ok: bool)
      modifies this
      ensures nextId == old(nextId)
      ensures Renamed(jobs, files, ok) == Rename(old(jobs), old(files), path, content, id, works)
    {
      var self := FindJob(id);
      if self < |jobs| && jobs[self].superseded {
        return true;
      }
      if !works {
        return false;
      }
      files := files[path := content];
      MarkOlder(path, id);
      ok := true;
    }

    method MarkOlder(path: string, id: nat)
      modifies this`jobs
      ensures jobs == MarkAll(old(jobs), path, id)
    {
      hide Marked;
      ghost var was := jobs;
      for i := 0 to |jobs|
        invariant MarkedSoFar(was, jobs, path, id, i)
      {
        var j := jobs[i];
        MarkStep(was, jobs, path, id, i);
        if j.kind == Save && j.status == Pending && (id == SYNC_ID || j.id < id) && j.path == path {
          jobs := jobs[i := j.(superseded := true)];
        }
      }
      AllMarked(was, jobs, path, id);
    }

    method FindJob(id: nat) returns (i: nat)
      ensures i == Find(jobs, id)
    {
      i := 0;
      while i < |jobs| && jobs[i].id != id
        invariant i <= |jobs| && Find(jobs, id) == i + Find(jobs[i..], id)
      {
        assert jobs[i..][1..] == jobs[i + 1..];
        i := i + 1;
      }
    }

    /** json_async_full. */
    method IsFull(settings: Settings, loadBytes: int) returns (full: bool)
      ensures full <==> Full(jobs, settings, loadBytes)
    {
      var maxHeld := HELD_LOADS * settings.maxLoadBytes;
      var active, held := 0, 0;
      for i := 0 to |jobs|
        invariant active + ActiveJobs(jobs[i..]) == ActiveJobs(jobs)
        invariant held + HeldBytes(jobs[i..]) == HeldBytes(jobs)
      {
        assert jobs[i..][1..] == jobs[i + 1..];
        if jobs[i].status == Pending || jobs[i].holdsDoc {
          active := active + 1;
          held := held + jobs[i].bytes;
        }
      }
      full := active >= settings.maxJobs || (loadBytes >= 0 && held + loadBytes > maxHeld);
    }

    /** A submit's last section: the new job becomes the head of the list. */
    method Submit(kind: Kind, path: string, content: Content, bytes: nat) returns (id: nat)
      modifies this
      ensures id == old(nextId) && nextId == old(nextId) + 1 && files == old(files)
      ensures jobs == [Job(id, kind, Pending, path, content, false, false, false, bytes)] + old(jobs)
    {
      id := nextId;
      nextId := nextId + 1;
      jobs := [Job(id, kind, Pending, path, content, false, false, false, bytes)] + jobs;
    }

    /** The last section of json_async_save_worker. */
    method FinishSave(id: nat, ok: bool)
      requires Find(jobs, id) < |jobs|
      modifies this`jobs
      ensures jobs == old(jobs)[Find(old(jobs), id) := SaveDone(old(jobs)[Find(old(jobs), id)], ok)]
    {
      var i := FindJob(id);
      jobs := jobs[i := jobs[i].(saveOk := ok)];
      jobs := jobs[i := jobs[i].(status := Done)];
    }

    /** The last section of json_async_load_worker. */
    method FinishLoad(id: nat, parsed: bool)
      requires Find(jobs, id) < |jobs| && !jobs[Find(jobs, id)].holdsDoc
      modifies this`jobs
      ensures jobs == old(jobs)[Find(old(jobs), id) := LoadDone(old(jobs)[Find(old(jobs), id)], parsed)]
    {
      var i := FindJob(id);
      if !parsed {
        jobs := jobs[i := jobs[i].(status := Failed)];
      } else {
        jobs := jobs[i := jobs[i].(holdsDoc := true)];
        jobs := jobs[i := jobs[i].(status := Done)];
      }
    }

    /** json_async_trim_saves. */
    method TrimSaves()
      modifies this
      ensures nextId == old(nextId) && files == old(files)
      ensures jobs == Trim(old(jobs), KEEP_SAVES)
    {
      hide Walked;
      ghost var was := jobs;
      var kept, link := 0, 0;
      ghost var seen := 0;
      WalkStarts(was);
      while link < |jobs|
        invariant nextId == old(nextId) && files == old(files) && link <= |jobs|
        invariant Walked(was, jobs, seen, link, if kept < KEEP_SAVES then KEEP_SAVES - kept else 0)
        decreases |jobs| - link
      {
        var job := jobs[link];
        var finished := job.kind == Save && job.status != Pending;
        if finished {
          kept := kept + 1;
        }
        if finished && kept > KEEP_SAVES {
          WalkDrops(was, jobs, seen, link);
          jobs := Without(jobs, link);
        } else {
          WalkKeeps(was, jobs, seen, link,
              if !finished && kept >= KEEP_SAVES then 0 else if finished then KEEP_SAVES - kept + 1
              else KEEP_SAVES - kept);
          link := link + 1;
        }
        seen := seen + 1;
      }
      WalkEnds(was, jobs, seen, if kept < KEEP_SAVES then KEEP_SAVES - kept else 0);
    }

    /** gsc_json_cleanup_on_level_load. */
    method CleanupOnLevelLoad()
      modifies this
      ensures nextId == old(nextId) && files == old(files)
      ensures jobs == Cleanup(old(jobs))
    {
      ghost var was := jobs;
      var link := 0;
      ghost var seen := 0;
      while link < |jobs|
        invariant nextId == old(nextId) && files == old(files)
        invariant link <= |jobs| && seen <= |was| && jobs[link..] == was[seen..]
        invariant Cleanup(was) == jobs[..link] + Cleanup(was[seen..])
        decreases |jobs| - link
      {
        assert jobs[link] == jobs[link..][0] == was[seen..][0];
        assert jobs[link..][1..] == jobs[link + 1..] && was[seen..][1..] == was[seen + 1..];
        if jobs[link].status != Pending {
          jobs := Without(jobs, link);
        } else {
          assert jobs[..link + 1] == jobs[..link] + [jobs[link]];
          link := link + 1;
        }
        seen := seen + 1;
      }
      assert was[seen..] == [];
    }

    /** The section of json_async_result: takes a finished job off the list. */
    method Claim(id: nat) returns (taken: bool, job: Job)
      modifies this
      ensures nextId == old(nextId) && files == old(files)
      ensures taken <==> Find(old(jobs), id) < |old(jobs)| && old(jobs)[Find(old(jobs), id)].status != Pending
      ensures taken ==> job == old(jobs)[Find(old(jobs), id)] && jobs == Without(old(jobs), Find(old(jobs), id))
      ensures !taken ==> jobs == old(jobs)
    {
      var i := FindJob(id);
      if i == |jobs| || jobs[i].status == Pending {
        return false, Job(0, Load, Pending, "", Content(0, []), false, false, false, 0);
      }
      taken, job := true, jobs[i];
      jobs := Without(jobs, i);
    }
  }
}
