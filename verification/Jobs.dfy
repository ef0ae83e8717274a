/** The job record of src/jobs.ts under concurrency: stopJob in one process, the job's own
    updateJobState in another, any number of listJobs in others, all over one file. Every read of the
    record, look for the session and save is a step of its own, so anything may happen in between. */
module Jobs {
  import opened Prelude

  datatype Status = Running | Stopped | Done | Failed

  type Fields = map<string, string>

  datatype Job = Job(status: Status, result: Option<Fields>)

  /** The part of a record updateJobState is given. */
  datatype Patch = Patch(status: Option<Status>, result: Option<Fields>)

  datatype Outcome = NotRunning | Graceful | Forced

  function OutcomeName(o: Outcome): string {
    match o
    case NotRunning => "notRunning"
    case Graceful => "graceful"
    case Forced => "forced"
  }

  /** updateJobState: a stopped job keeps its status; everything else given is assigned. */
  function Merge(job: Job, patch: Patch): Job {
    Job(if job.status.Stopped? then Stopped else if patch.status.Some? then patch.status.value else job.status,
        if patch.result.Some? then patch.result else job.result)
  }

  /** { ...(result ?? {}), stop } */
  function WithStop(job: Job, o: Outcome): Job {
    Job(Stopped, Some((if job.result.Some? then job.result.value else map[])["stop" := OutcomeName(o)]))
  }

  // ── One step of one process ──

  /** Where stopJob is; `job` is its own copy of the record. */
  datatype StopPc =
    | NotCalled
    | Loaded(job: Job)                      // after the first load
    | Marking(job: Job)                     // saw the session alive
    | Waiting(job: Job)                     // saved the mark, sent SIGINT
    | Killing(job: Job)                     // still saw the session alive
    | Ended(job: Job, outcome: Outcome)     // knows how the job ended
    | Reloaded(latest: Job, outcome: Outcome)
    | Returned(outcome: Outcome)

  /** The job's own updateJobState between its load and its save. */
  datatype JobPc = Idle | Busy(copy: Job, patch: Patch)

  /** A listJobs that read a running record: before it looks for the session, and after it found it
      gone and before it rewrites the record as done. */
  datatype ListPc = Read(copy: Job) | Rewriting(copy: Job)

  /** Any number of listings may be under way, each with its own number. */
  datatype World = World(file: Job, session: bool, stop: StopPc, job: JobPc, lists: map<nat, ListPc>)

  datatype Action =
    | StopLoad | StopCheck | StopMark | StopSeesGone | StopSeesAlive | StopKills | StopReload | StopSave
    | JobLoad(patch: Patch) | JobSave | JobExit
    | ListLoad(l: nat) | ListCheck(l: nat) | ListSave(l: nat)

  predicate Enabled(w: World, a: Action) {
    match a
    case StopLoad => w.stop.NotCalled?
    case StopCheck => w.stop.Loaded?
    case StopMark => w.stop.Marking?
    case StopSeesGone => w.stop.Waiting? && !w.session
    case StopSeesAlive => w.stop.Waiting? && w.session
    case StopKills => w.stop.Killing?
    case StopReload => w.stop.Ended?
    case StopSave => w.stop.Reloaded?
    case JobLoad(_) => w.session && w.job.Idle?
    case JobSave => w.session && w.job.Busy?
    case JobExit => w.session
    case ListLoad(l) => l !in w.lists && w.file.status.Running?
    case ListCheck(l) => l in w.lists && w.lists[l].Read?
    case ListSave(l) => l in w.lists && w.lists[l].Rewriting?
  }

  function Step(w: World, a: Action): World {
    if !Enabled(w, a) then w
    else match a
      case StopLoad => w.(stop := Loaded(w.file))
      case StopCheck => w.(stop := if w.session then Marking(w.stop.job) else Ended(w.stop.job, NotRunning))
      case StopMark => var marked := w.stop.job.(status := Stopped); w.(file := marked, stop := Waiting(marked))
      case StopSeesGone => w.(stop := Ended(w.stop.job, Graceful))
      case StopSeesAlive => w.(stop := Killing(w.stop.job))
      case StopKills => w.(session := false, stop := Ended(w.stop.job, Forced))
      case StopReload => w.(stop := Reloaded(w.file, w.stop.outcome))
      case StopSave => w.(file := WithStop(w.stop.latest, w.stop.outcome), stop := Returned(w.stop.outcome))
      case JobLoad(patch) => w.(job := Busy(w.file, patch))
      case JobSave => w.(file := Merge(w.job.copy, w.job.patch), job := Idle)
      case JobExit => w.(session := false)
      case ListLoad(l) => w.(lists := w.lists[l := Read(w.file)])
      case ListCheck(l) => w.(lists := if w.session then w.lists - {l} else w.lists[l := Rewriting(w.lists[l].copy)])
      case ListSave(l) => w.(file := w.lists[l].copy.(status := Done), lists := w.lists - {l})
  }

  function Exec(w: World, actions: seq<Action>): World {
    if actions == [] then w else Step(Exec(w, actions[..|actions| - 1]), actions[|actions| - 1])
  }

  /** Any record, before stopJob is called, with no update or listing under way. */
  predicate Initial(w: World) {
    w.stop.NotCalled? && w.job.Idle? && w.lists == map[]
  }

  // ── The calls as their own process runs them ──

  /** The job file and its tmux session, as the process calling stopJob, updateJobState or listJobs finds them. */
  class Store {
    var world: World

    constructor (w: World)
      ensures world == w
    {
      world := w;
    }

    /** The other processes run. */
    method Others(actions: seq<Action>)
      modifies this
      ensures world == Exec(old(world), actions)
    {
      ghost var w := world;
      var i := 0;
      while i < |actions|
        invariant 0 <= i <= |actions| && world == Exec(w, actions[..i])
      {
        assert actions[..i + 1][..i] == actions[..i];
        world := Step(world, actions[i]);
        i := i + 1;
      }
      assert actions[..i] == actions;
    }

    method UpdateJobState(patch: Patch, between: seq<Action>) returns (ghost trace: seq<Action>)
      requires world.session && world.job.Idle?
      modifies this
      ensures world == Exec(old(world), trace)
      ensures between == [] ==> world.file == Merge(old(world).file, patch)
    {
      ghost var w := world;
      ExecOne(w, JobLoad(patch));
      world := Step(world, JobLoad(patch));
      Others(between);
      ghost var before := [JobLoad(patch)] + between;
      ExecConcat(w, [JobLoad(patch)], between);
      ExecConcat(w, before, [JobSave]);
      ExecOne(world, JobSave);
      world := Step(world, JobSave);
      trace := before + [JobSave];
    }

    /** listJobs on this record: anything may happen between its read, its look for the session and its save. */
    method ListJobs(l: nat, reading: seq<Action>, between: seq<Action>) returns (job: Job, ghost trace: seq<Action>)
      requires l !in world.lists && NotOf(l, reading) && NotOf(l, between)
      modifies this
      ensures world == Exec(old(world), trace)
      ensures var read := old(world).file;
              job == (if read.status.Running? && !Exec(old(world), [ListLoad(l)] + reading).session
                      then read.(status := Done) else read)
      ensures reading == between == [] ==> world.file == job
    {
      job := world.file;
      trace := [];
      if job.status.Running? {
        ghost var w := world;
        ExecOne(w, ListLoad(l));
        world := Step(world, ListLoad(l));
        Others(reading);
        ExecConcat(w, [ListLoad(l)], reading);
        NotOfKeeps(Step(w, ListLoad(l)), l, reading);
        trace := [ListLoad(l)] + reading;
        ExecConcat(w, trace, [ListCheck(l)]);
        ExecOne(world, ListCheck(l));
        var alive := world.session;
        world := Step(world, ListCheck(l));
        trace := trace + [ListCheck(l)];
        if !alive {
          job := job.(status := Done);
          ghost var v := world;
          Others(between);
          ExecConcat(w, trace, between);
          NotOfKeeps(v, l, between);
          trace := trace + between;
          ExecConcat(w, trace, [ListSave(l)]);
          ExecOne(world, ListSave(l));
          world := Step(world, ListSave(l));
          trace := trace + [ListSave(l)];
        }
      }
    }

    /** stopJob, with what the other processes do in each gap and at most `waits` rounds of waiting.
        Every interleaving it produces is a run of the step relation. */
    method StopJob(gaps: nat -> seq<Action>, waits: nat) returns (outcome: Outcome, ghost trace: seq<Action>)
      requires world.stop.NotCalled?
      requires forall i: nat, j: nat :: j < |gaps(i)| ==> OtherProcess(gaps(i)[j])
      modifies this
      ensures world == Exec(old(world), trace) && world.stop.Returned? && world.stop.outcome == outcome
      ensures world.file.status == Stopped && world.file.result.Some? && "stop" in world.file.result.value
      ensures world.file.result.value["stop"] == OutcomeName(outcome)
    {
      trace := [];
      trace := Do(StopLoad, trace, world, gaps, 0);
      var alive := world.session;
      trace := Do(StopCheck, trace, old(world), gaps, 1);
      if alive {
        trace := Do(StopMark, trace, old(world), gaps, 2);
        var i := 0;
        while world.session && i < waits
          invariant world == Exec(old(world), trace) && world.stop.Waiting?
        {
          trace := Gap(trace, old(world), gaps, 3 + i);
          i := i + 1;
        }
        if world.session {
          trace := Do(StopSeesAlive, trace, old(world), gaps, 3 + waits);
          trace := Do(StopKills, trace, old(world), gaps, 4 + waits);
        } else {
          trace := Do(StopSeesGone, trace, old(world), gaps, 4 + waits);
        }
      }
      outcome := world.stop.outcome;
      trace := Do(StopReload, trace, old(world), gaps, 5 + waits);
      ExecConcat(old(world), trace, [StopSave]);
      ExecOne(world, StopSave);
      world := Step(world, StopSave);
      trace := trace + [StopSave];
    }

    /** One step of stopJob, then a gap. */
    method Do(a: Action, ghost trace: seq<Action>, ghost start: World, gaps: nat -> seq<Action>, gap: nat)
        returns (ghost trace': seq<Action>)
      requires world == Exec(start, trace) && forall i: nat, j: nat :: j < |gaps(i)| ==> OtherProcess(gaps(i)[j])
      modifies this
      ensures world == Exec(start, trace') && world.stop == Step(old(world), a).stop
    {
      ExecConcat(start, trace, [a]);
      ExecOne(world, a);
      world := Step(world, a);
      trace' := Gap(trace + [a], start, gaps, gap);
    }

    method Gap(ghost trace: seq<Action>, ghost start: World, gaps: nat -> seq<Action>, gap: nat)
        returns (ghost trace': seq<Action>)
      requires world == Exec(start, trace) && forall i: nat, j: nat :: j < |gaps(i)| ==> OtherProcess(gaps(i)[j])
      modifies this
      ensures world == Exec(start, trace') && world.stop == old(world).stop
    {
      ExecConcat(start, trace, gaps(gap));
      OthersKeepStop(world, gaps(gap));
      Others(gaps(gap));
      trace' := trace + gaps(gap);
    }
  }

  predicate OtherProcess(a: Action) {
    a.JobLoad? || a.JobSave? || a.JobExit? || IsListing(a)
  }

  predicate IsListing(a: Action) {
    a.ListLoad? || a.ListCheck? || a.ListSave?
  }

  /** No action of listing `l`. */
  predicate NotOf(l: nat, actions: seq<Action>) {
    forall j :: 0 <= j < |actions| && IsListing(actions[j]) ==> actions[j].l != l
  }

  lemma {:induction false} NotOfKeeps(w: World, l: nat, actions: seq<Action>)
    requires l in w.lists && NotOf(l, actions)
    ensures l in Exec(w, actions).lists && Exec(w, actions).lists[l] == w.lists[l]
  {
    if actions != [] { NotOfKeeps(w, l, actions[..|actions| - 1]); }
  }

  lemma {:induction false} OthersKeepStop(w: World, actions: seq<Action>)
    requires forall j :: 0 <= j < |actions| ==> OtherProcess(actions[j])
    ensures Exec(w, actions).stop == w.stop
  {
    if actions != [] { OthersKeepStop(w, actions[..|actions| - 1]); }
  }

  lemma {:induction false} ExecConcat(w: World, a: seq<Action>, b: seq<Action>)
    ensures Exec(w, a + b) == Exec(Exec(w, a), b)
  {
    hide Step;
    if b == [] {
      assert a + b == a;
    } else {
      assert (a + b)[..|a + b| - 1] == a + b[..|b| - 1];
      ExecConcat(w, a, b[..|b| - 1]);
    }
  }

  lemma ExecOne(w: World, a: Action)
    ensures Exec(w, [a]) == Step(w, a)
  {
    hide Step;
    assert [a][..0] == [];
  }

  // ── Every interleaving ──

  /** What every step keeps. */
  ghost predicate Inv(w: World) {
    && (w.stop.Ended? || w.stop.Reloaded? || w.stop.Returned? ==> !w.session)
    && (forall l :: l in w.lists && w.lists[l].Rewriting? ==> !w.session)
    && (w.stop.Returned? ==> !w.file.status.Running?)
  }

  lemma {:induction false} RunKeeps(w: World, actions: seq<Action>)
    requires Initial(w)
    ensures Inv(Exec(w, actions))
  {
    if actions != [] { RunKeeps(w, actions[..|actions| - 1]); }
  }

  predicate NoListSave(actions: seq<Action>) {
    forall k :: 0 <= k < |actions| ==> !actions[k].ListSave?
  }

  /** stopJob's last step leaves the record stopped, with the outcome added to the record it
      re-read; from then on only a listing that read the record before and is still to save can
      change it: no update of the job does, and no step at all when there is no such listing. */
  lemma {:induction false} StopWinsIff(w: World, actions: seq<Action>)
    requires Initial(w) && Exec(w, actions).stop.Reloaded?
    ensures var before, end := Exec(w, actions), Exec(w, actions + [StopSave]);
            && end.stop.Returned? && end.file == WithStop(before.stop.latest, before.stop.outcome)
            && end.file.status == Stopped
            && (forall later: seq<Action> :: NoListSave(later) ==> Exec(end, later).file == end.file)
            && ((forall later: seq<Action> :: Exec(end, later).file == end.file) <==> end.lists == map[])
  {
    RunKeeps(w, actions);
    ExecConcat(w, actions, [StopSave]);
    ExecOne(Exec(w, actions), StopSave);
    var end := Exec(w, actions + [StopSave]);
    forall later: seq<Action> | NoListSave(later) || end.lists == map[] ensures Exec(end, later).file == end.file {
      NothingAfterReturn(end, later);
    }
    if l :| l in end.lists { ListingRewrites(end, l); }
  }

  lemma {:induction false} NothingAfterReturn(w: World, later: seq<Action>)
    requires w.stop.Returned? && !w.session && w.file.status == Stopped && (NoListSave(later) || w.lists == map[])
    ensures var v := Exec(w, later);
            v.file == w.file && v.stop == w.stop && !v.session && (w.lists == map[] ==> v.lists == map[])
  {
    if later != [] { NothingAfterReturn(w, later[..|later| - 1]); }
  }

  /** With no session left, a listing that has read the record will rewrite it as done. */
  lemma ListingRewrites(w: World, l: nat)
    requires l in w.lists && !w.session
    ensures Exec(w, [ListCheck(l), ListSave(l)]).file == w.lists[l].copy.(status := Done)
  {
    assert [ListCheck(l), ListSave(l)] == [ListCheck(l)] + [ListSave(l)];
    ExecOne(w, ListCheck(l));
    ExecConcat(w, [ListCheck(l)], [ListSave(l)]);
    ExecOne(Step(w, ListCheck(l)), ListSave(l));
  }

  // ── What becomes of the job's own result ──

  predicate Writes(v: World, a: Action) {
    a.JobSave? && Enabled(v, a) && v.job.patch.result.Some?
  }

  /** The last result the job saved. */
  function LastWritten(w: World, actions: seq<Action>): Option<Fields> {
    if actions == [] then w.file.result
    else
      var init, a := actions[..|actions| - 1], actions[|actions| - 1];
      var v := Exec(w, init);
      if Writes(v, a) then v.job.patch.result else LastWritten(w, init)
  }

  /** The last result the job had saved when listing `l` last read the record. */
  function SeenBy(w: World, actions: seq<Action>, l: nat): Option<Fields> {
    if actions == [] then w.file.result
    else
      var init, a := actions[..|actions| - 1], actions[|actions| - 1];
      if a == ListLoad(l) && Enabled(Exec(w, init), a) then LastWritten(w, init) else SeenBy(w, init, l)
  }

  /** The same for the listing that saved last among actions[from..]; None when none saved. */
  function SavedListing(w: World, actions: seq<Action>, from: nat): Option<Option<Fields>> {
    if |actions| <= from then None
    else
      var init, a := actions[..|actions| - 1], actions[|actions| - 1];
      if a.ListSave? && Enabled(Exec(w, init), a) then Some(SeenBy(w, init, a.l)) else SavedListing(w, init, from)
  }

  lemma LastWrittenNext(w: World, actions: seq<Action>, a: Action)
    ensures LastWritten(w, actions + [a])
            == if Writes(Exec(w, actions), a) then Exec(w, actions).job.patch.result else LastWritten(w, actions)
  {
    hide Writes;
    assert (actions + [a])[..|actions|] == actions;
  }

  lemma SeenByNext(w: World, actions: seq<Action>, a: Action)
    ensures forall l: nat :: SeenBy(w, actions + [a], l)
                             == if a == ListLoad(l) && Enabled(Exec(w, actions), a) then LastWritten(w, actions)
                                else SeenBy(w, actions, l)
  {
    hide Enabled, LastWritten;
    assert (actions + [a])[..|actions|] == actions;
  }

  lemma SavedNext(w: World, actions: seq<Action>, a: Action, from: nat)
    requires from <= |actions|
    ensures SavedListing(w, actions + [a], from)
            == if a.ListSave? && Enabled(Exec(w, actions), a) then Some(SeenBy(w, actions, a.l))
               else SavedListing(w, actions, from)
  {
    hide Enabled, SeenBy;
    assert (actions + [a])[..|actions|] == actions;
  }

  lemma ExecNext(w: World, actions: seq<Action>, a: Action)
    ensures Exec(w, actions + [a]) == Step(Exec(w, actions), a)
  {
    hide Step;
    assert (actions + [a])[..|actions|] == actions;
  }

  /** The copies still to be saved: the job's holds what it wrote last, a listing's what it had written
      when that listing read the record. */
  ghost predicate Copies(w: World, actions: seq<Action>) {
    var v := Exec(w, actions);
    && (forall l :: l in v.lists ==>
          v.lists[l].copy.result == SeenBy(w, actions, l) && (v.lists[l].Rewriting? ==> !v.session))
    && (SavedListing(w, actions, 0).Some? ==> !v.session)
  }

  /** The file holds what the job wrote last, or what it had written when the listing that saved last
      had read the record; only listings save after one has. */
  ghost predicate Settled(w: World, actions: seq<Action>) {
    var v, saved := Exec(w, actions), SavedListing(w, actions, 0);
    && v.file.result == (if saved.Some? then saved.value else LastWritten(w, actions))
    && (v.job.Busy? && v.session ==> v.job.copy.result == LastWritten(w, actions))
    && (saved.Some? ==> !v.file.status.Running?)
    && Copies(w, actions)
  }

  /** Every step but stopJob's two saves keeps the record settled. */
  lemma SettledNext(w: World, actions: seq<Action>, a: Action)
    requires Settled(w, actions) && (Enabled(Exec(w, actions), a) ==> !a.StopMark? && !a.StopSave?)
    ensures Settled(w, actions + [a])
  {
    hide Exec, LastWritten, SeenBy, SavedListing;
    ExecNext(w, actions, a);
    LastWrittenNext(w, actions, a);
    SeenByNext(w, actions, a);
    SavedNext(w, actions, a, 0);
  }

  /** No mark has been saved: stopJob has not got that far, or found no session. */
  predicate Unmarked(w: World) {
    w.stop.NotCalled? || w.stop.Loaded? || w.stop.Marking? || (w.stop.Ended? && w.stop.outcome == NotRunning)
  }

  lemma {:induction false} UnmarkedIsSettled(w: World, actions: seq<Action>)
    requires Initial(w) && Unmarked(Exec(w, actions))
    ensures Settled(w, actions)
  {
    hide Settled, Step;
    if actions == [] {
      StartIsSettled(w);
    } else {
      var init, a := actions[..|actions| - 1], actions[|actions| - 1];
      UnmarkedBefore(Exec(w, init), a);
      UnmarkedIsSettled(w, init);
      SettledNext(w, init, a);
      assert init + [a] == actions;
    }
  }

  lemma StartIsSettled(w: World)
    requires Initial(w)
    ensures Settled(w, [])
  {
  }

  lemma UnmarkedBefore(v: World, a: Action)
    requires Unmarked(Step(v, a))
    ensures Unmarked(v) && (Enabled(v, a) ==> !a.StopMark? && !a.StopSave?)
  {
  }

  /** Between the mark and the re-read. */
  predicate PastMark(w: World) {
    w.stop.Waiting? || w.stop.Killing? || (w.stop.Ended? && w.stop.outcome != NotRunning)
  }

  /** After the mark (leading to `u`) this step, taken in `v`, writes the job's last result again: an
      update that carries a result or was loaded before the mark. */
  predicate RestoresAt(u: World, v: World, a: Action) {
    Enabled(v, a) && a.JobSave? && (v.job.patch.result.Some? || u.job.Busy?)
  }

  predicate Restores(u: World, after: seq<Action>) {
    exists k :: 0 <= k < |after| && RestoresAt(u, Exec(u, after[..k]), after[k])
  }

  lemma RestoresNext(u: World, after: seq<Action>, a: Action)
    ensures Restores(u, after + [a]) <==> Restores(u, after) || RestoresAt(u, Exec(u, after), a)
  {
    hide RestoresAt, Exec;
    var all := after + [a];
    forall k | 0 <= k < |after| ensures all[..k] == after[..k] && all[k] == after[k] {}
    assert all[..|after|] == after && all[|after|] == a;
    if k :| 0 <= k < |after| && RestoresAt(u, Exec(u, after[..k]), after[k]) {
      assert RestoresAt(u, Exec(u, all[..k]), all[k]);
    }
    if RestoresAt(u, Exec(u, after), a) { assert RestoresAt(u, Exec(u, all[..|after|]), all[|after|]); }
  }

  /** The mark (leading to `u`) put `old` in the file, and nothing has been saved over it that was read
      before the mark. */
  ghost predicate Overwritten(w: World, u: World, kept: Option<Fields>, actions: seq<Action>) {
    var v := Exec(w, actions);
    && v.file.result == kept && v.file.status.Stopped? && (v.session ==> u.session)
    && (if u.job.Busy? then v.job == u.job && (v.session ==> v.job.copy.result == LastWritten(w, actions))
        else v.job.Busy? ==> v.job.copy.result == kept && v.job.copy.status.Stopped?)
    && Copies(w, actions)
  }

  lemma OverwrittenNext(w: World, u: World, kept: Option<Fields>, actions: seq<Action>, a: Action, n: nat)
    requires Overwritten(w, u, kept, actions) && PastMark(Exec(w, actions)) && PastMark(Exec(w, actions + [a]))
    requires n <= |actions| && SavedListing(w, actions, n).None?
    ensures if RestoresAt(u, Exec(w, actions), a) then
              Settled(w, actions + [a]) && SavedListing(w, actions + [a], 0).None?
            else if SavedListing(w, actions + [a], n).Some? then Settled(w, actions + [a])
            else Overwritten(w, u, kept, actions + [a]) && LastWritten(w, actions + [a]) == LastWritten(w, actions)
  {
    hide Exec, LastWritten, SeenBy, SavedListing;
    ExecNext(w, actions, a);
    LastWrittenNext(w, actions, a);
    SeenByNext(w, actions, a);
    SavedNext(w, actions, a, 0);
    SavedNext(w, actions, a, n);
  }

  /** The mark is saved over a settled record. */
  lemma MarkOverwrites(w: World, marking: seq<Action>)
    requires Settled(w, marking) && Exec(w, marking).stop.Marking?
    ensures var a := marking + [StopMark];
            && Exec(w, a).stop.Waiting? && LastWritten(w, a) == LastWritten(w, marking)
            && Overwritten(w, Exec(w, a), Exec(w, marking).stop.job.result, a)
  {
    hide Exec, LastWritten, SeenBy, SavedListing;
    ExecNext(w, marking, StopMark);
    LastWrittenNext(w, marking, StopMark);
    SeenByNext(w, marking, StopMark);
    SavedNext(w, marking, StopMark, 0);
  }

  /** After the mark: still overwritten until an update restores the result or a listing saves, and
      settled from then on. */
  lemma {:induction false} AfterTheMark(w: World, marked: seq<Action>, kept: Option<Fields>, after: seq<Action>)
    requires Overwritten(w, Exec(w, marked), kept, marked) && PastMark(Exec(w, marked))
             && PastMark(Exec(w, marked + after))
    ensures var u, all := Exec(w, marked), marked + after;
            if Restores(u, after) || SavedListing(w, all, |marked|).Some? then
              Settled(w, all) && (SavedListing(w, all, |marked|).None? ==> SavedListing(w, all, 0).None?)
              && (SavedListing(w, all, |marked|).Some? ==> SavedListing(w, all, 0) == SavedListing(w, all, |marked|))
            else Overwritten(w, u, kept, all) && LastWritten(w, all) == LastWritten(w, marked)
  {
    hide Exec, Overwritten, Settled, Restores, RestoresAt, LastWritten, SavedListing, PastMark;
    var u := Exec(w, marked);
    if after == [] {
      assert marked + after == marked;
      NothingRestores(u);
      NothingSaved(w, marked);
    } else {
      var init, a := after[..|after| - 1], after[|after| - 1];
      assert marked + after == (marked + init) + [a] && init + [a] == after;
      ExecNext(w, marked + init, a);
      ExecConcat(w, marked, init);
      StillPastMark(w, marked, init, a);
      AfterTheMark(w, marked, kept, init);
      RestoresNext(u, init, a);
      SavedNext(w, marked + init, a, |marked|);
      SavedNext(w, marked + init, a, 0);
      if Restores(u, init) || SavedListing(w, marked + init, |marked|).Some? {
        NoSaveOfStop(Exec(w, marked + init), a);
        SettledNext(w, marked + init, a);
      } else {
        OverwrittenNext(w, u, kept, marked + init, a, |marked|);
      }
    }
  }

  lemma NothingRestores(u: World)
    ensures !Restores(u, [])
  {
  }

  lemma NothingSaved(w: World, marked: seq<Action>)
    ensures SavedListing(w, marked, |marked|).None?
  {
  }

  /** Having left the phase between mark and re-read, stopJob does not come back to it. */
  lemma StillPastMark(w: World, marked: seq<Action>, init: seq<Action>, a: Action)
    requires PastMark(Exec(w, marked)) && PastMark(Step(Exec(w, marked + init), a))
    ensures PastMark(Exec(w, marked + init))
  {
    ExecConcat(w, marked, init);
    OnlyForward(Exec(w, marked), init);
  }

  lemma {:induction false} OnlyForward(u: World, after: seq<Action>)
    requires PastMark(u)
    ensures PastMark(Exec(u, after)) || Exec(u, after).stop.Reloaded? || Exec(u, after).stop.Returned?
  {
    if after != [] { OnlyForward(u, after[..|after| - 1]); }
  }

  lemma NoSaveOfStop(v: World, a: Action)
    requires PastMark(v)
    ensures Enabled(v, a) ==> !a.StopMark? && !a.StopSave?
  {
  }

  /** The record stopJob re-reads after marking it holds the result the job wrote last if and only if:
      when a listing saved after the mark, the last one to save had read the record after that result
      (or after an equal one) was written; when none did, the job wrote no other result between stopJob's
      first load and its mark, or an update of the job that carries a result or was loaded before the
      mark was saved after it. */
  lemma {:induction false} ResultKeptIff(w: World, before: seq<Action>, window: seq<Action>, after: seq<Action>)
    requires Initial(w) && Exec(w, before).stop.NotCalled?
    requires Exec(w, before + [StopLoad] + window).stop.Marking?
    requires Exec(w, before + [StopLoad] + window + [StopMark] + after).stop.Ended?
    ensures var marking := before + [StopLoad] + window;
            var marked := marking + [StopMark];
            var all := marked + after;
            var saved := SavedListing(w, all, |marked|);
            Exec(w, all).file.result == LastWritten(w, all)
            <==> if saved.Some? then saved.value == LastWritten(w, all)
                 else LastWritten(w, before) == LastWritten(w, marking) || Restores(Exec(w, marked), after)
  {
    hide Exec, LastWritten, SavedListing, Restores;
    var marking := before + [StopLoad] + window;
    var marked := marking + [StopMark];
    var all := marked + after;
    OwnCopy(w, before, window);
    UnmarkedIsSettled(w, marking);
    MarkOverwrites(w, marking);
    ExecConcat(w, marked, after);
    OnlyForward(Exec(w, marked), after);
    AfterTheMark(w, marked, LastWritten(w, before), after);
    hide Copies;
  }

  /** stopJob's copy at the mark is what the job had written last when stopJob loaded the record. */
  lemma OwnCopy(w: World, before: seq<Action>, window: seq<Action>)
    requires Initial(w) && Exec(w, before).stop.NotCalled? && Exec(w, before + [StopLoad] + window).stop.Marking?
    ensures Exec(w, before + [StopLoad] + window).stop.job.result == LastWritten(w, before)
  {
    hide LastWritten, SavedListing, Exec;
    UnmarkedIsSettled(w, before);
    ExecNext(w, before, StopLoad);
    ExecConcat(w, before + [StopLoad], window);
    CopyStays(Exec(w, before + [StopLoad]), window);
  }

  /** Marking is reached only with the session alive all along, and with the copy first loaded. */
  lemma {:induction false} CopyStays(w: World, window: seq<Action>)
    requires w.stop.Loaded?
    ensures var v := Exec(w, window);
            && (v.stop.Loaded? || v.stop.Marking? ==> v.stop.job == w.stop.job)
            && (v.stop.Marking? ==> w.session) && (v.stop.Loaded? && v.session ==> w.session)
            && !v.stop.NotCalled?
  {
    if window != [] { CopyStays(w, window[..|window| - 1]); }
  }

  /** Of a job whose session was already gone, the result it wrote last is kept if and only if no listing
      saved the record, or the last one to save had read it after that result (or an equal one). */
  lemma KeptWithoutMark(w: World, actions: seq<Action>)
    requires Initial(w) && Exec(w, actions).stop.Ended? && Exec(w, actions).stop.outcome == NotRunning
    ensures var saved := SavedListing(w, actions, 0);
            Exec(w, actions).file.result == LastWritten(w, actions)
            <==> saved.None? || saved.value == LastWritten(w, actions)
  {
    hide SavedListing, LastWritten, Exec;
    UnmarkedIsSettled(w, actions);
  }

  /** The record stopJob returns with is the one it re-reads, plus the outcome: from the moment it
      knows how the job ended the job writes nothing more. */
  lemma {:induction false} ReturnedRecord(w: World, actions: seq<Action>, rest: seq<Action>)
    requires Initial(w) && Exec(w, actions).stop.Ended? && Exec(w, actions + [StopReload] + rest).stop.Reloaded?
    ensures var ended, all := Exec(w, actions), actions + [StopReload] + rest + [StopSave];
            && Exec(w, all).file == WithStop(ended.file, ended.stop.outcome)
            && LastWritten(w, all) == LastWritten(w, actions)
  {
    hide Exec, WithStop, LastWritten;
    RunKeeps(w, actions);
    ExecNext(w, actions, StopReload);
    LastWrittenNext(w, actions, StopReload);
    LatestStays(w, actions + [StopReload], rest);
    ExecNext(w, actions + [StopReload] + rest, StopSave);
    LastWrittenNext(w, actions + [StopReload] + rest, StopSave);
  }

  lemma {:induction false} LatestStays(w: World, reloaded: seq<Action>, rest: seq<Action>)
    requires Exec(w, reloaded).stop.Reloaded? && !Exec(w, reloaded).session && Exec(w, reloaded + rest).stop.Reloaded?
    ensures var v := Exec(w, reloaded + rest);
            v.stop == Exec(w, reloaded).stop && !v.session
              && LastWritten(w, reloaded + rest) == LastWritten(w, reloaded)
  {
    hide Exec, LastWritten;
    if rest == [] {
      assert reloaded + rest == reloaded;
    } else {
      var init, a := rest[..|rest| - 1], rest[|rest| - 1];
      assert reloaded + rest == (reloaded + init) + [a];
      ExecNext(w, reloaded + init, a);
      LastWrittenNext(w, reloaded + init, a);
      ExecConcat(w, reloaded, init);
      ReloadedOrReturned(Exec(w, reloaded), init);
      LatestStays(w, reloaded, init);
    }
  }

  lemma {:induction false} ReloadedOrReturned(w: World, rest: seq<Action>)
    requires w.stop.Reloaded?
    ensures Exec(w, rest).stop.Reloaded? || Exec(w, rest).stop.Returned?
  {
    if rest != [] { ReloadedOrReturned(w, rest[..|rest| - 1]); }
  }

  /** A result the job writes after the mark, and does not replace, is kept if and only if no listing
      saves the record afterwards that had read it before: stopJob re-reads it. */
  lemma {:induction false} WrittenAfterMark(w: World, before: seq<Action>, window: seq<Action>, after: seq<Action>,
      rest: seq<Action>)
    requires Initial(w) && Exec(w, before).stop.NotCalled? && Exec(w, before + [StopLoad] + window).stop.Marking?
    requires Writes(Exec(w, before + [StopLoad] + window + [StopMark] + after), JobSave)
    requires forall j :: 0 <= j < |rest| ==> !rest[j].JobSave?
    requires Exec(w, before + [StopLoad] + window + [StopMark] + (after + [JobSave] + rest)).stop.Ended?
    ensures var marked := before + [StopLoad] + window + [StopMark];
            var all, result := marked + (after + [JobSave] + rest), Exec(w, marked + after).job.patch.result;
            var saved := SavedListing(w, all, |marked|);
            Exec(w, all).file.result == result <==> saved.None? || saved.value == result
  {
    hide Exec, LastWritten, Restores, SavedListing;
    var marked := before + [StopLoad] + window + [StopMark];
    var all := marked + (after + [JobSave] + rest);
    ExecConcat(w, marked, after);
    WriteRestores(Exec(w, marked), after, rest);
    ResultKeptIff(w, before, window, after + [JobSave] + rest);
    assert all == ((marked + after) + [JobSave]) + rest;
    LastWrittenNext(w, marked + after, JobSave);
    NoMoreWrites(w, (marked + after) + [JobSave], rest);
  }

  lemma WriteRestores(u: World, after: seq<Action>, rest: seq<Action>)
    requires Writes(Exec(u, after), JobSave)
    ensures Restores(u, after + [JobSave] + rest)
  {
    var all := after + [JobSave] + rest;
    assert all[..|after|] == after && all[|after|] == JobSave;
    assert RestoresAt(u, Exec(u, all[..|after|]), all[|after|]);
  }

  lemma {:induction false} NoMoreWrites(w: World, actions: seq<Action>, rest: seq<Action>)
    requires forall j :: 0 <= j < |rest| ==> !rest[j].JobSave?
    ensures LastWritten(w, actions + rest) == LastWritten(w, actions)
  {
    hide Exec, LastWritten;
    if rest == [] {
      assert actions + rest == actions;
    } else {
      var init, a := rest[..|rest| - 1], rest[|rest| - 1];
      NoMoreWrites(w, actions, init);
      assert actions + rest == (actions + init) + [a];
      LastWrittenNext(w, actions + init, a);
    }
  }

  /** The lost update: the job saves its result between stopJob's first load and its mark, and
      never saves again. */
  lemma ResultCanBeLost()
    ensures var pnl := Some(map["pnl" := "12.5"]);
            var w := World(Job(Running, None), true, NotCalled, Idle, map[]);
            var end := Exec(w, [StopLoad, JobLoad(Patch(Some(Done), pnl)), JobSave, StopCheck, StopMark,
                                JobExit, StopSeesGone, StopReload, StopSave]);
            Initial(w) && end.stop == Returned(Graceful) && end.file == Job(Stopped, Some(map["stop" := "graceful"]))
  {
    var pnl := Some(map["pnl" := "12.5"]);
    var w := World(Job(Running, None), true, NotCalled, Idle, map[]);
    var a := [StopLoad, JobLoad(Patch(Some(Done), pnl)), JobSave, StopCheck, StopMark];
    var b := [JobExit, StopSeesGone, StopReload, StopSave];
    FiveSteps(w, a[0], a[1], a[2], a[3], a[4]);
    var mid := Exec(w, a);
    FourSteps(mid, b[0], b[1], b[2], b[3]);
    ExecConcat(w, a, b);
    assert a + b == [StopLoad, JobLoad(Patch(Some(Done), pnl)), JobSave, StopCheck, StopMark,
                     JobExit, StopSeesGone, StopReload, StopSave];
  }

  lemma FourSteps(w: World, a: Action, b: Action, c: Action, d: Action)
    ensures Exec(w, [a, b, c, d]) == Step(Step(Step(Step(w, a), b), c), d)
  {
    hide Step;
    assert [a, b, c, d] == [a] + [b] + [c] + [d];
    ExecOne(w, a);
    ExecConcat(w, [a], [b]);
    ExecOne(Step(w, a), b);
    ExecConcat(w, [a] + [b], [c]);
    ExecOne(Step(Step(w, a), b), c);
    ExecConcat(w, [a] + [b] + [c], [d]);
    ExecOne(Step(Step(Step(w, a), b), c), d);
  }

  lemma FiveSteps(w: World, a: Action, b: Action, c: Action, d: Action, e: Action)
    ensures Exec(w, [a, b, c, d, e]) == Step(Step(Step(Step(Step(w, a), b), c), d), e)
  {
    hide Step;
    FourSteps(w, a, b, c, d);
    assert [a, b, c, d, e] == [a, b, c, d] + [e];
    ExecConcat(w, [a, b, c, d], [e]);
    ExecOne(Exec(w, [a, b, c, d]), e);
  }

  lemma SixSteps(w: World, a: Action, b: Action, c: Action, d: Action, e: Action, f: Action)
    ensures Exec(w, [a, b, c, d, e, f]) == Step(Step(Step(Step(Step(Step(w, a), b), c), d), e), f)
  {
    hide Step;
    FiveSteps(w, a, b, c, d, e);
    assert [a, b, c, d, e, f] == [a, b, c, d, e] + [f];
    ExecOne(Exec(w, [a, b, c, d, e]), f);
    ExecConcat(w, [a, b, c, d, e], [f]);
  }

  /** The other race: a listing read the record as running, found the job gone, and saves the record as
      done after stopJob returned. */
  lemma ListingCanUndoStop()
    ensures var w := World(Job(Running, None), false, NotCalled, Idle, map[]);
            var end := Exec(w, [ListLoad(0), ListCheck(0), StopLoad, StopCheck, StopReload, StopSave]);
            Initial(w) && end.file.status == Stopped && Exec(end, [ListSave(0)]).file == Job(Done, None)
  {
    hide Exec, Step;
    var job := Job(Running, None);
    var w := World(job, false, NotCalled, Idle, map[]);
    SixSteps(w, ListLoad(0), ListCheck(0), StopLoad, StopCheck, StopReload, StopSave);
    var w2 := Step(Step(w, ListLoad(0)), ListCheck(0));
    assert w2 == World(job, false, NotCalled, Idle, map[0 := Rewriting(job)]) by { ListingReadsDead(w); }
    var end := Step(Step(Step(Step(w2, StopLoad), StopCheck), StopReload), StopSave);
    assert end.file.status == Stopped && end.lists == w2.lists by { StopOfDead(w2); }
    ExecOne(end, ListSave(0));
    ListingSaves(end, job);
  }

  lemma ListingReadsDead(w: World)
    requires w == World(Job(Running, None), false, NotCalled, Idle, map[])
    ensures Step(Step(w, ListLoad(0)), ListCheck(0)) == w.(lists := map[0 := Rewriting(w.file)])
  {
  }

  lemma StopOfDead(w: World)
    requires !w.session && w.stop.NotCalled?
    ensures var end := Step(Step(Step(Step(w, StopLoad), StopCheck), StopReload), StopSave);
            end.file.status == Stopped && end.lists == w.lists
  {
  }

  lemma ListingSaves(w: World, copy: Job)
    requires w.lists == map[0 := Rewriting(copy)]
    ensures Step(w, ListSave(0)).file == copy.(status := Done) && Step(w, ListSave(0)).stop == w.stop
  {
  }

  const PNL: Option<Fields> := Some(map["pnl" := "12.5"])

  /** A listing reads the record while the job is alive, the job saves its result and exits, and the
      listing, finding it gone, saves its older copy: the result is lost, stopped or not. */
  lemma ListingCanLoseResult()
    ensures var w := World(Job(Running, None), true, NotCalled, Idle, map[]);
            var end := Exec(w, [ListLoad(0), JobLoad(Patch(Some(Done), PNL)), JobSave, JobExit, ListCheck(0),
                                ListSave(0)]);
            Initial(w) && end.file == Job(Done, None)
  {
    hide Exec, Step;
    var w, patch := World(Job(Running, None), true, NotCalled, Idle, map[]), Patch(Some(Done), PNL);
    SixSteps(w, ListLoad(0), JobLoad(patch), JobSave, JobExit, ListCheck(0), ListSave(0));
    ListedThenSaved(w, patch);
    var v := Step(Step(Step(w, ListLoad(0)), JobLoad(patch)), JobSave);
    FindsJobGone(v, w.file);
    ListingSaves(Step(Step(v, JobExit), ListCheck(0)), w.file);
  }

  lemma FindsJobGone(v: World, copy: Job)
    requires v.session && v.lists == map[0 := Read(copy)]
    ensures Step(Step(v, JobExit), ListCheck(0)).lists == map[0 := Rewriting(copy)]
  {
  }

  /** The same around a stop: the job wrote nothing between stopJob's first load and its mark, and the
      record stopJob re-reads has lost its result. */
  lemma ListingCanLoseResultAtStop()
    ensures var w := World(Job(Running, None), true, NotCalled, Idle, map[]);
            var before := [ListLoad(0), JobLoad(Patch(None, PNL)), JobSave];
            var end := Exec(w, before + [StopLoad, StopCheck, StopMark, JobExit, ListCheck(0),
                                         StopSeesGone] + [ListSave(0)]);
            && Initial(w) && Exec(w, before).file.result == PNL
            && end.stop.Ended? && end.stop.outcome == Graceful && end.file.result == None
  {
    hide Exec, Step;
    var job := Job(Running, None);
    var w := World(job, true, NotCalled, Idle, map[]);
    var before := [ListLoad(0), JobLoad(Patch(None, PNL)), JobSave];
    var later := [StopLoad, StopCheck, StopMark, JobExit, ListCheck(0), StopSeesGone];
    assert before == ([ListLoad(0)] + [JobLoad(Patch(None, PNL))]) + [JobSave];
    ExecOne(w, ListLoad(0));
    ExecNext(w, [ListLoad(0)], JobLoad(Patch(None, PNL)));
    ExecNext(w, [ListLoad(0)] + [JobLoad(Patch(None, PNL))], JobSave);
    var v := Exec(w, before);
    assert v == World(Job(Running, PNL), true, NotCalled, Idle, map[0 := Read(job)]) by {
      ListedThenSaved(w, Patch(None, PNL));
    }
    SixSteps(v, StopLoad, StopCheck, StopMark, JobExit, ListCheck(0), StopSeesGone);
    ExecConcat(w, before, later);
    var u := Exec(v, later);
    assert u.stop.Ended? && u.stop.outcome == Graceful && u.lists == map[0 := Rewriting(job)] by {
      StoppedWhileListed(v);
    }
    ExecNext(w, before + later, ListSave(0));
    ListingSaves(u, job);
  }

  lemma ListedThenSaved(w: World, patch: Patch)
    requires w == World(Job(Running, None), true, NotCalled, Idle, map[])
    ensures Step(Step(Step(w, ListLoad(0)), JobLoad(patch)), JobSave)
            == World(Merge(w.file, patch), true, NotCalled, Idle, map[0 := Read(w.file)])
  {
  }

  lemma StoppedWhileListed(v: World)
    requires v == World(Job(Running, PNL), true, NotCalled, Idle, map[0 := Read(Job(Running, None))])
    ensures var u := Step(Step(Step(Step(Step(Step(v, StopLoad), StopCheck), StopMark), JobExit), ListCheck(0)),
                          StopSeesGone);
            u.stop.Ended? && u.stop.outcome == Graceful && u.lists == map[0 := Rewriting(Job(Running, None))]
  {
  }

  // ── What the outcome says ──

  predicate Took(w: World, actions: seq<Action>, a: Action) {
    exists k :: 0 <= k < |actions| && actions[k] == a && Enabled(Exec(w, actions[..k]), a)
  }

  lemma TookNext(w: World, actions: seq<Action>, a: Action)
    requires actions != []
    ensures var init := actions[..|actions| - 1];
            Took(w, actions, a) <==> Took(w, init, a) || (actions[|init|] == a && Enabled(Exec(w, init), a))
  {
    hide Exec, Enabled;
    var init := actions[..|actions| - 1];
    forall k | 0 <= k < |init| ensures actions[..k] == init[..k] && actions[k] == init[k] {}
    assert actions[..|init|] == init;
    if k :| 0 <= k < |init| && init[k] == a && Enabled(Exec(w, init[..k]), a) {
      assert actions[k] == a && Enabled(Exec(w, actions[..k]), a);
    }
  }

  /** stopJob reports "notRunning" exactly when it did not mark the record, "forced" exactly when it killed the
      session, and otherwise "graceful"; and the record it leaves says so in these words. */
  lemma {:induction false} OutcomeIsTrue(w: World, actions: seq<Action>)
    requires Initial(w)
    ensures var stop := Exec(w, actions).stop;
            && (Took(w, actions, StopMark) <==> PastMarked(stop))
            && (Took(w, actions, StopKills) <==> KilledAt(stop))
  {
    hide Step, Enabled;
    if actions == [] {
      NothingTaken(w);
    } else {
      var init, a := actions[..|actions| - 1], actions[|actions| - 1];
      OutcomeIsTrue(w, init);
      TookNext(w, actions, StopMark);
      TookNext(w, actions, StopKills);
      OutcomeStep(Exec(w, init), a);
    }
  }

  /** stopJob has marked the record. */
  predicate PastMarked(stop: StopPc) {
    || stop.Waiting? || stop.Killing?
    || ((stop.Ended? || stop.Reloaded? || stop.Returned?) && stop.outcome != NotRunning)
  }

  /** stopJob has killed the session. */
  predicate KilledAt(stop: StopPc) {
    (stop.Ended? || stop.Reloaded? || stop.Returned?) && stop.outcome == Forced
  }

  lemma NothingTaken(w: World)
    requires Initial(w)
    ensures !Took(w, [], StopMark) && !Took(w, [], StopKills) && !PastMarked(w.stop) && !KilledAt(w.stop)
  {
  }

  lemma OutcomeStep(v: World, a: Action)
    ensures PastMarked(Step(v, a).stop) <==> PastMarked(v.stop) || (a == StopMark && Enabled(v, a))
    ensures KilledAt(Step(v, a).stop) <==> KilledAt(v.stop) || (a == StopKills && Enabled(v, a))
  {
  }

  /** The words in the record. */
  lemma OutcomeWords(job: Job)
    ensures WithStop(job, NotRunning).result.value["stop"] == "notRunning"
    ensures WithStop(job, Graceful).result.value["stop"] == "graceful"
    ensures WithStop(job, Forced).result.value["stop"] == "forced"
  {
  }

  /** Everything else of the result stays. */
  lemma StopKeepsFields(job: Job, o: Outcome, field: string)
    requires field != "stop"
    ensures var fields := if job.result.Some? then job.result.value else map[];
            var after := WithStop(job, o).result.value;
            (field in after <==> field in fields) && (field in after ==> after[field] == fields[field])
  {
  }
}
