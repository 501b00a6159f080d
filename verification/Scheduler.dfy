/**
 * The scheduler that hands an agent the tasks of its manifest one after the other. Titles are kept as
 * written and compared once cleaned. What the build, the tests and the merge do is an input of each round.
 */
module Scheduling {
  import opened Collections

  // ---- titles ----

  /** What Python takes for white space. */
  predicate IsSpace(c: char) {
    var n := c as int;
    || 0x09 <= n <= 0x0D || 0x1C <= n <= 0x20 || n == 0x85 || n == 0xA0 || n == 0x1680 || 0x2000 <= n <= 0x200A
    || n == 0x2028 || n == 0x2029 || n == 0x202F || n == 0x205F || n == 0x3000
  }

  function LeftStrip(s: string): (r: string)
    ensures |r| <= |s| && (r != [] ==> !IsSpace(r[0]))
  {
    if s != [] && IsSpace(s[0]) then LeftStrip(s[1..]) else s
  }

  function RightStrip(s: string): (r: string)
    ensures r <= s && (r != [] ==> !IsSpace(r[|r| - 1]))
  {
    if s != [] && IsSpace(s[|s| - 1]) then RightStrip(s[..|s| - 1]) else s
  }

  function DropHashes(s: string): (r: string)
    ensures |r| <= |s| && (s != [] && s[0] == '#' ==> |r| < |s|)
  {
    if s != [] && s[0] == '#' then DropHashes(s[1..]) else s
  }

  /** `clean_task_title`: without leading number signs and the space after them, then stripped. */
  function Clean(title: string): string {
    RightStrip(LeftStrip(if title != [] && title[0] == '#' then LeftStrip(DropHashes(title)) else title))
  }

  predicate AllSpace(s: string) {
    forall i :: 0 <= i < |s| ==> IsSpace(s[i])
  }

  predicate AllHashes(s: string) {
    forall i :: 0 <= i < |s| ==> s[i] == '#'
  }

  /** Neither begins nor ends with white space. */
  predicate Trimmed(s: string) {
    s == "" || (!IsSpace(s[0]) && !IsSpace(s[|s| - 1]))
  }

  lemma {:induction false} LeftStripsTo(a: string, b: string)
    requires AllSpace(a) && (b == "" || !IsSpace(b[0]))
    ensures LeftStrip(a + b) == b
  {
    hide IsSpace;
    if a == "" {
      assert a + b == b;
    } else {
      assert (a + b)[1..] == a[1..] + b;
      LeftStripsTo(a[1..], b);
    }
  }

  lemma {:induction false} RightStripsTo(a: string, b: string)
    requires AllSpace(b) && (a == "" || !IsSpace(a[|a| - 1]))
    ensures RightStrip(a + b) == a
  {
    hide IsSpace;
    if b == "" {
      assert a + b == a;
    } else {
      assert (a + b)[..|a + b| - 1] == a + b[..|b| - 1];
      RightStripsTo(a, b[..|b| - 1]);
    }
  }

  lemma {:induction false} HashesGo(a: string, b: string)
    requires AllHashes(a) && (b == "" || b[0] != '#')
    ensures DropHashes(a + b) == b
  {
    if a == "" {
      assert a + b == b;
    } else {
      assert (a + b)[1..] == a[1..] + b;
      HashesGo(a[1..], b);
    }
  }

  lemma StripMiddle(before: string, core: string, after: string)
    requires AllSpace(before) && AllSpace(after) && Trimmed(core)
    ensures var left := LeftStrip(before + core + after); LeftStrip(left) == left && RightStrip(left) == core
  {
    hide IsSpace, LeftStrip, RightStrip;
    if core == "" {
      assert before + core + after == (before + after) + "";
      LeftStripsTo(before + after, "");
      LeftStripsTo("", "");
      RightStripsTo("", "");
      assert "" + "" == "";
    } else {
      assert before + core + after == before + (core + after) && "" + (core + after) == core + after;
      LeftStripsTo(before, core + after);
      LeftStripsTo("", core + after);
      RightStripsTo(core, after);
    }
  }

  lemma HashIsNoSpace()
    ensures !IsSpace('#')
  {
  }

  /** What is left of a title stands between its number signs and white space and the white space at its end. */
  lemma CleanIsMiddle(hashes: string, before: string, core: string, after: string)
    requires AllHashes(hashes) && AllSpace(before) && AllSpace(after) && Trimmed(core)
    requires before == "" && core != "" ==> core[0] != '#'
    ensures Clean(hashes + before + core + after) == core
  {
    hide LeftStrip, RightStrip, DropHashes, IsSpace;
    HashIsNoSpace();
    var rest := before + core + after;
    assert hashes + before + core + after == hashes + rest;
    assert rest != "" ==> rest[0] != '#';
    HashesGo(hashes, rest);
    StripMiddle(before, core, after);
    if hashes == "" {
      assert hashes + rest == rest;
    }
  }

  /** A cleaned title that cleaning again leaves as it is, and that is not empty. */
  predicate Settled(id: string) { id != [] && id[0] != '#' }

  /** Cleaning twice is not cleaning once: exactly the settled titles, and the empty one, stay. */
  lemma CleanTwiceIff(title: string)
    ensures Clean(Clean(title)) == Clean(title) <==> Settled(Clean(title)) || Clean(title) == ""
  {
    var id := Clean(title);
    if id != [] {
      var left := LeftStrip(if title != [] && title[0] == '#' then LeftStrip(DropHashes(title)) else title);
      assert id == RightStrip(left) && id[0] == left[0];
    }
  }

  // ---- one agent ----

  datatype Status = Waiting | Running | Blocked | Ended

  datatype Agent = Agent(
    doneTasks: seq<string>,
    activeTask: Option<string>,
    status: Option<Status>,
    blockedReason: Option<string>,
    failedStage: Option<string>,
    failedHead: Option<string>,
    mergedHead: Option<string>,
    taskSequence: nat,
    current: Option<string>,
    seenHead: Option<string>)

  const FRESH := Agent([], None, None, None, None, None, None, 0, None, None)

  /** What happens to one agent in one round. */
  datatype Round =
    | Restart
    | NoRequest
    | Request(head: string, merge: bool, outcome: Outcome)

  datatype Outcome =
    | BuildFails
    | TestsFail
    | MergeIncomplete
    | IntegrationFails(stage: string)
    | MergedAndTested

  function Ids(tasks: seq<string>): (r: seq<string>)
    ensures |r| == |tasks| && forall i :: 0 <= i < |r| ==> r[i] == Clean(tasks[i])
  {
    seq(|tasks|, i requires 0 <= i < |tasks| => Clean(tasks[i]))
  }

  /** The titles count as done by their cleaned forms, and are cleaned once more for it. */
  function DoneIds(doneTasks: seq<string>): set<string> {
    set x | x in doneTasks :: Clean(x)
  }

  /** The first task of the manifest that is not done. */
  function FirstUndone(tasks: seq<string>, done: set<string>): (r: Option<string>)
    ensures r.Some? ==> r.value in tasks && Clean(r.value) !in done
    ensures r.None? <==> forall t :: t in tasks ==> Clean(t) in done
  {
    if tasks == [] then None
    else if Clean(tasks[0]) !in done then Some(tasks[0])
    else FirstUndone(tasks[1..], done)
  }

  function ActiveTitle(a: Agent): string {
    if a.activeTask.Some? then a.activeTask.value else ""
  }

  function ActiveId(a: Agent): string { Clean(ActiveTitle(a)) }

  function CurrentTask(a: Agent, tasks: seq<string>): Option<string> {
    var active := ActiveId(a);
    if active != "" && active in Ids(tasks) && active !in DoneIds(a.doneTasks) then a.activeTask
    else FirstUndone(tasks, DoneIds(a.doneTasks))
  }

  const EXHAUSTED := "manifest_exhausted_without_done"

  function Advance(a: Agent, tasks: seq<string>): Agent {
    match CurrentTask(a, tasks)
    case None =>
      if tasks != [] && (ActiveId(a) !in Ids(tasks) || ActiveId(a) !in DoneIds(a.doneTasks)) then
        a.(activeTask := None, status := Some(Blocked), blockedReason := Some(EXHAUSTED))
      else
        a.(activeTask := None, status := Some(Ended), taskSequence := a.taskSequence + 1, current := None)
    case Some(task) =>
      a.(activeTask := Some(task), status := Some(Running), taskSequence := a.taskSequence + 1, current := Some(Clean(task)))
  }

  /** Putting an agent in the queue, when the scheduler starts. */
  function Setup(a: Agent, tasks: seq<string>): Agent {
    if CurrentTask(a, tasks).None? && tasks != [] && ActiveId(a) != "" && ActiveId(a) !in DoneIds(a.doneTasks) then
      a.(status := Some(Blocked), blockedReason := Some(EXHAUSTED))
    else if ActiveTitle(a) == "" then Advance(a, tasks)
    else a
  }

  function Waited(a: Agent): Agent {
    if a.status.None? then a.(status := Some(Waiting)) else a
  }

  function Failed(a: Agent, reason: string, stage: string, head: string): Agent {
    a.(status := Some(Blocked), blockedReason := Some(reason), failedStage := Some(stage), failedHead := Some(head))
  }

  function Merged(a: Agent): Agent {
    if ActiveId(a) != "" && Clean(ActiveId(a)) !in DoneIds(a.doneTasks) then a.(doneTasks := a.doneTasks + [ActiveId(a)]) else a
  }

  function Reconcile(a0: Agent, tasks: seq<string>, round: Round): Agent {
    match round
    case Restart => Setup(a0, tasks)
    case NoRequest => Waited(a0)
    case Request(head, merge, outcome) =>
      var a := a0.(seenHead := Some(head));
      if !merge then Waited(a)
      else if a.status == Some(Blocked) then a
      else
        match outcome
        case BuildFails => Failed(a, "agent build failed before merge", "build", head)
        case TestsFail => Failed(a, "agent ctest failed before merge", "ctest", head)
        case MergeIncomplete => Waited(a)
        case IntegrationFails(stage) =>
          Failed(Merged(a), "integration tests failed after merge", stage, head).(mergedHead := Some(head))
        case MergedAndTested => Waited(Advance(Merged(a), tasks))
  }

  function Run(tasks: seq<string>, rounds: seq<Round>): Agent {
    if rounds == [] then Setup(FRESH, tasks)
    else Reconcile(Run(tasks, rounds[..|rounds| - 1]), tasks, rounds[|rounds| - 1])
  }

  // ---- any state ----

  function Undone(a: Agent, tasks: seq<string>): set<string> {
    set id | id in Ids(tasks) && id !in DoneIds(a.doneTasks)
  }

  /** Nothing done is ever forgotten, and the sequence number never goes back. */
  lemma DoneOnlyGrows(a: Agent, tasks: seq<string>, round: Round)
    ensures a.doneTasks <= Reconcile(a, tasks, round).doneTasks
    ensures a.taskSequence <= Reconcile(a, tasks, round).taskSequence
  {
    hide Clean, DoneIds, FirstUndone;
  }

  /** Merging an unfinished task makes it done exactly when its cleaned title is settled. */
  lemma MergeFinishesIff(a: Agent, tasks: seq<string>, head: string, outcome: Outcome)
    requires a.status != Some(Blocked) && (outcome.MergedAndTested? || outcome.IntegrationFails?)
    requires ActiveId(a) !in DoneIds(a.doneTasks)
    ensures ActiveId(a) in DoneIds(Reconcile(a, tasks, Request(head, true, outcome)).doneTasks) <==> Settled(ActiveId(a))
  {
    hide Clean, FirstUndone;
    var b := Reconcile(a, tasks, Request(head, true, outcome));
    CleanTwiceIff(ActiveTitle(a));
    assert b.doneTasks == a.doneTasks || b.doneTasks == a.doneTasks + [ActiveId(a)];
    if Settled(ActiveId(a)) {
      assert ActiveId(a) in b.doneTasks;
    }
  }

  /** A task in progress that is still in the manifest and not done comes first, even if an earlier one is undone;
      otherwise the first one that is not done, if there is one. */
  lemma {:induction false} CurrentTaskIs(a: Agent, tasks: seq<string>)
    ensures var task := CurrentTask(a, tasks);
      && (task == None <==> forall t :: t in tasks ==> Clean(t) in DoneIds(a.doneTasks))
      && (task.Some? ==> Clean(task.value) !in DoneIds(a.doneTasks) && exists t :: t in tasks && Clean(t) == Clean(task.value))
      && (task.Some? && ActiveId(a) != "" && ActiveId(a) in Ids(tasks) && ActiveId(a) !in DoneIds(a.doneTasks) ==> task == a.activeTask)
      && (task.Some? && task != a.activeTask ==>
            exists i :: 0 <= i < |tasks| && tasks[i] == task.value && forall j :: 0 <= j < i ==> Clean(tasks[j]) in DoneIds(a.doneTasks))
  {
    hide Clean, DoneIds;
    FirstUndoneIsFirst(tasks, DoneIds(a.doneTasks));
    CleanEmpty();
    if ActiveId(a) in Ids(tasks) {
      var i :| 0 <= i < |tasks| && Ids(tasks)[i] == ActiveId(a);
      assert tasks[i] in tasks;
    }
  }

  lemma {:induction false} FirstUndoneIsFirst(tasks: seq<string>, done: set<string>)
    ensures FirstUndone(tasks, done).Some? ==>
              exists i :: 0 <= i < |tasks| && tasks[i] == FirstUndone(tasks, done).value && forall j :: 0 <= j < i ==> Clean(tasks[j]) in done
  {
    hide Clean;
    if tasks != [] && Clean(tasks[0]) in done {
      FirstUndoneIsFirst(tasks[1..], done);
      if FirstUndone(tasks, done).Some? {
        var i :| 0 <= i < |tasks[1..]| && tasks[1..][i] == FirstUndone(tasks, done).value &&
                 forall j :: 0 <= j < i ==> Clean(tasks[1..][j]) in done;
        assert tasks[i + 1] == tasks[1..][i];
        assert forall j :: 0 < j < i + 1 ==> tasks[j] == tasks[1..][j - 1];
      }
    }
  }

  /**
   * What the start of the scheduler does to an agent that has a task: nothing, except that it is blocked when
   * everything in its manifest is done while its own task, which is then no longer in it, is not.
   */
  lemma RestartWithTask(a: Agent, tasks: seq<string>)
    requires ActiveTitle(a) != ""
    ensures var done, b := DoneIds(a.doneTasks), Setup(a, tasks);
      b == if tasks != [] && (forall t :: t in tasks ==> Clean(t) in done) && ActiveId(a) != "" && ActiveId(a) !in done
           then a.(status := Some(Blocked), blockedReason := Some("manifest_exhausted_without_done")) else a
  {
    hide Clean, DoneIds, FirstUndone;
    CurrentTaskIs(a, tasks);
  }

  /** Advancing: the current task is given out, under the next sequence number; with none left the agent ends, or
      is blocked when the manifest is not empty and the task it had is not one of it, or not done. */
  lemma AdvanceDoes(a: Agent, tasks: seq<string>)
    ensures var task, b := CurrentTask(a, tasks), Advance(a, tasks);
      && b.doneTasks == a.doneTasks && b.activeTask == task && b.mergedHead == a.mergedHead
      && b.failedStage == a.failedStage && b.failedHead == a.failedHead && b.seenHead == a.seenHead
      && (task.Some? ==> b.status == Some(Running) && b.taskSequence == a.taskSequence + 1 && b.current == Some(Clean(task.value)))
      && (task == None ==>
            if tasks != [] && !((exists t :: t in tasks && Clean(t) == ActiveId(a)) && ActiveId(a) in DoneIds(a.doneTasks)) then
              b.status == Some(Blocked) && b.blockedReason == Some("manifest_exhausted_without_done") && b.taskSequence == a.taskSequence
            else b.status == Some(Ended) && b.taskSequence == a.taskSequence + 1 && b.current == None)
  {
    hide Clean, DoneIds, FirstUndone, CurrentTask;
    if exists t :: t in tasks && Clean(t) == ActiveId(a) {
      var t :| t in tasks && Clean(t) == ActiveId(a);
      var i :| 0 <= i < |tasks| && tasks[i] == t;
      assert Ids(tasks)[i] == ActiveId(a);
    }
    if ActiveId(a) in Ids(tasks) {
      var i :| 0 <= i < |tasks| && Ids(tasks)[i] == ActiveId(a);
      assert tasks[i] in tasks;
    }
  }

  /** What a blocked agent keeps for good, restarts included, if it came to be blocked in a run. */
  predicate SameWork(a: Agent, b: Agent) {
    && a.doneTasks == b.doneTasks && a.activeTask == b.activeTask && a.taskSequence == b.taskSequence && b.status == Some(Blocked)
    && a.failedStage == b.failedStage && a.failedHead == b.failedHead && a.mergedHead == b.mergedHead
  }

  predicate Fails(outcome: Outcome) {
    outcome.BuildFails? || outcome.TestsFail? || outcome.IntegrationFails?
  }

  function StageOf(outcome: Outcome): Option<string> {
    match outcome
    case BuildFails => Some("build")
    case TestsFail => Some("ctest")
    case IntegrationFails(stage) => Some(stage)
    case _ => None
  }

  /**
   * What a merge request does to an agent that is not blocked. A failure blocks it and records its stage and
   * the head asked for; a build or tests that fail, and a merge that does not complete, touch nothing else.
   * Only a completed merge touches the done list, by the active title, and only one that also passes the
   * integration tests goes on to the next task.
   */
  lemma MergeRequestDoes(a: Agent, tasks: seq<string>, head: string, outcome: Outcome)
    requires a.status != Some(Blocked)
    ensures var b := Reconcile(a, tasks, Request(head, true, outcome));
      && b.seenHead == Some(head)
      && (Fails(outcome) ==> b.status == Some(Blocked) && b.failedStage == StageOf(outcome) && b.failedHead == Some(head))
      && (!outcome.MergedAndTested? ==> b.activeTask == a.activeTask && b.taskSequence == a.taskSequence && b.current == a.current)
      && (outcome.BuildFails? || outcome.TestsFail? || outcome.MergeIncomplete? ==> b.doneTasks == a.doneTasks && b.mergedHead == a.mergedHead)
      && (outcome.MergeIncomplete? ==>
            b.failedStage == a.failedStage && b.failedHead == a.failedHead && b.blockedReason == a.blockedReason &&
            b.status == if a.status == None then Some(Waiting) else a.status)
      && (outcome.IntegrationFails? ==> b.mergedHead == Some(head))
      && (outcome.IntegrationFails? || outcome.MergedAndTested? ==>
            if ActiveId(a) == "" || Clean(ActiveId(a)) in DoneIds(a.doneTasks) then b.doneTasks == a.doneTasks
            else b.doneTasks == a.doneTasks + [ActiveId(a)])
      && (outcome.BuildFails? ==> b.blockedReason == Some("agent build failed before merge"))
      && (outcome.TestsFail? ==> b.blockedReason == Some("agent ctest failed before merge"))
      && (outcome.IntegrationFails? ==> b.blockedReason == Some("integration tests failed after merge"))
  {
    hide Clean, DoneIds, FirstUndone, CurrentTask;
  }

  /** A blocked agent's merge request, and any request or round without a merge, change neither work nor failure. */
  lemma OtherRoundsDoNothing(a: Agent, tasks: seq<string>, round: Round)
    requires round.NoRequest? || (round.Request? && (!round.merge || a.status == Some(Blocked)))
    ensures var b := Reconcile(a, tasks, round);
      && b == a.(seenHead := b.seenHead, status := b.status)
      && b.seenHead == (if round.Request? then Some(round.head) else a.seenHead)
      && b.status == if a.status == None then Some(Waiting) else a.status
  {
  }

  // ---- whole runs ----

  /** The distinct cleaned titles of a manifest, in the order they first occur. */
  function Distinct(ids: seq<string>): (r: seq<string>)
    ensures forall t :: t in r <==> t in ids
    ensures forall i, j :: 0 <= i < j < |r| ==> r[i] != r[j]
  {
    if ids == [] then []
    else
      var front, last := Distinct(ids[..|ids| - 1]), ids[|ids| - 1];
      assert ids == ids[..|ids| - 1] + [last];
      if last in front then front else front + [last]
  }

  function Queue(tasks: seq<string>): seq<string> { Distinct(Ids(tasks)) }

  lemma {:induction false} FirstUndoneAppend(tasks: seq<string>, last: string, done: set<string>)
    ensures FirstUndone(tasks + [last], done) ==
            match FirstUndone(tasks, done)
            case Some(t) => Some(t)
            case None => if Clean(last) in done then None else Some(last)
  {
    hide Clean;
    if tasks == [] {
      assert tasks + [last] == [last];
    } else {
      assert (tasks + [last])[1..] == tasks[1..] + [last];
      FirstUndoneAppend(tasks[1..], last, done);
    }
  }

  lemma QueueAppend(tasks: seq<string>, last: string)
    ensures Queue(tasks + [last]) == if Clean(last) in Queue(tasks) then Queue(tasks) else Queue(tasks) + [Clean(last)]
  {
    hide Clean;
    assert Ids(tasks + [last]) == Ids(tasks) + [Clean(last)];
    assert Ids(tasks + [last])[..|tasks|] == Ids(tasks);
  }

  /** When the first k distinct titles are done and the next one is not, that one is the next task. */
  lemma {:induction false} NextIsFirstUndone(tasks: seq<string>, done: set<string>, k: nat)
    requires k < |Queue(tasks)| && (forall i :: 0 <= i < k ==> Queue(tasks)[i] in done) && Queue(tasks)[k] !in done
    ensures FirstUndone(tasks, done).Some? && Clean(FirstUndone(tasks, done).value) == Queue(tasks)[k]
    decreases |tasks|
  {
    hide Clean, Queue, FirstUndone;
    QueueIsDistinct(tasks);
    var front, last := tasks[..|tasks| - 1], tasks[|tasks| - 1];
    assert tasks == front + [last];
    QueueAppend(front, last);
    FirstUndoneAppend(front, last, done);
    assert forall i :: 0 <= i < |Queue(front)| ==> Queue(front)[i] == Queue(tasks)[i];
    if k < |Queue(front)| {
      NextIsFirstUndone(front, done, k);
    } else {
      NothingUndone(front, done);
    }
  }

  lemma NothingUndone(tasks: seq<string>, done: set<string>)
    requires forall i :: 0 <= i < |Queue(tasks)| ==> Queue(tasks)[i] in done
    ensures FirstUndone(tasks, done) == None
  {
    hide Clean;
    forall t | t in tasks
      ensures Clean(t) in done
    {
      var i :| 0 <= i < |tasks| && tasks[i] == t;
      assert Ids(tasks)[i] in Queue(tasks);
    }
  }

  /** The first k titles are done. A title that is not settled may be listed after them, without being done. */
  predicate DoneUpTo(doneTasks: seq<string>, tasks: seq<string>, k: nat) {
    var q := Queue(tasks);
    && k <= |q|
    && (forall i :: 0 <= i < k ==> Settled(q[i]))
    && (doneTasks == q[..k] || (k < |q| && q[k] != "" && !Settled(q[k]) && doneTasks == q[..k + 1]))
  }

  /** The task given out is the one after the first k. */
  predicate WorksOn(a: Agent, tasks: seq<string>, k: nat) {
    && k < |Queue(tasks)| && a.activeTask.Some? && a.activeTask.value in tasks && ActiveId(a) == Queue(tasks)[k]
    && a.current == Some(Queue(tasks)[k])
    && k + 1 <= a.taskSequence && (Settled(Queue(tasks)[k]) ==> a.taskSequence == k + 1)
  }

  predicate HasFinished(a: Agent, tasks: seq<string>, k: nat) {
    k == |Queue(tasks)| && a.activeTask == None && a.current == None && (tasks != [] ==> a.taskSequence == k + 1)
  }

  /** Where a run stands: the first k distinct titles are done. */
  predicate At(a: Agent, tasks: seq<string>, k: nat) {
    && DoneUpTo(a.doneTasks, tasks, k)
    && match a.status
       case None => false
       case Some(Waiting) => false
       case Some(Running) => WorksOn(a, tasks, k)
       case Some(Ended) => HasFinished(a, tasks, k)
       case Some(Blocked) =>
         || WorksOn(a, tasks, k)
         || (k > 0 && a.activeTask.Some? && ActiveId(a) == Queue(tasks)[k - 1] && a.current == Some(Queue(tasks)[k - 1]) &&
             a.doneTasks == Queue(tasks)[..k] && a.taskSequence == k)
         || HasFinished(a, tasks, k)
  }

  lemma QueueIsClean(tasks: seq<string>, i: nat)
    requires i < |Queue(tasks)|
    ensures Queue(tasks)[i] in Ids(tasks)
    ensures Clean(Queue(tasks)[i]) == Queue(tasks)[i] <==> Settled(Queue(tasks)[i]) || Queue(tasks)[i] == ""
  {
    hide Clean, Settled;
    var id := Queue(tasks)[i];
    assert id in Ids(tasks);
    var j :| 0 <= j < |tasks| && Ids(tasks)[j] == id;
    CleanTwiceIff(tasks[j]);
  }

  /** What is done where a run stands, and so what comes next. */
  lemma PlaceFacts(tasks: seq<string>, doneTasks: seq<string>, k: nat)
    requires DoneUpTo(doneTasks, tasks, k)
    ensures k <= |Queue(tasks)| && forall i :: 0 <= i < k ==> Queue(tasks)[i] in DoneIds(doneTasks)
    ensures k < |Queue(tasks)| ==> Queue(tasks)[k] !in DoneIds(doneTasks)
    ensures var next := FirstUndone(tasks, DoneIds(doneTasks));
      if k < |Queue(tasks)| then next.Some? && Clean(next.value) == Queue(tasks)[k] else next == None
  {
    hide Clean, Distinct, FirstUndone, Settled;
    var q := Queue(tasks);
    forall i | 0 <= i < |q|
      ensures q[i] in Ids(tasks) && (Clean(q[i]) == q[i] <==> Settled(q[i]) || q[i] == "")
    {
      QueueIsClean(tasks, i);
    }
    forall i | 0 <= i < k
      ensures q[i] in DoneIds(doneTasks)
    {
      assert doneTasks[i] == q[i];
    }
    QueueIsDistinct(tasks);
    if k < |q| {
      NextIsFirstUndone(tasks, DoneIds(doneTasks), k);
    } else {
      NothingUndone(tasks, DoneIds(doneTasks));
    }
  }

  lemma QueueIsDistinct(tasks: seq<string>)
    ensures forall i, j :: 0 <= i < j < |Queue(tasks)| ==> Queue(tasks)[i] != Queue(tasks)[j]
    ensures Queue(tasks) == [] <==> tasks == []
    ensures Queue(tasks)[..|Queue(tasks)|] == Queue(tasks)
  {
    hide Clean;
    if tasks != [] {
      assert Ids(tasks)[0] in Queue(tasks);
    }
  }

  /** Advancing with the first k titles done, and the k-th or nothing yet active, dispatches the next title. */
  lemma AdvanceAt(a: Agent, tasks: seq<string>, k: nat)
    requires DoneUpTo(a.doneTasks, tasks, k) && a.doneTasks == Queue(tasks)[..k] && a.taskSequence == k
    requires if k == 0 then a.activeTask == None else a.activeTask.Some? && ActiveId(a) == Queue(tasks)[k - 1]
    ensures At(Advance(a, tasks), tasks, k)
    ensures Advance(a, tasks).status == if k < |Queue(tasks)| then Some(Running) else Some(Ended)
  {
    hide Queue, FirstUndone, Clean, DoneIds;
    PlaceFacts(tasks, a.doneTasks, k);
    QueueIsDistinct(tasks);
    if k > 0 {
      QueueIsClean(tasks, k - 1);
    } else {
      CleanEmpty();
    }
  }

  lemma CleanEmpty()
    ensures Clean("") == ""
  {
  }

  /** Advancing an agent that works on a title that is not done gives it the same title once more. */
  lemma AdvanceStays(a: Agent, tasks: seq<string>, k: nat)
    requires DoneUpTo(a.doneTasks, tasks, k) && WorksOn(a, tasks, k)
    ensures Advance(a, tasks).status == Some(Running) && Advance(a, tasks).taskSequence == a.taskSequence + 1
    ensures Advance(a, tasks).activeTask.Some? && Advance(a, tasks).activeTask.value in tasks
    ensures ActiveId(Advance(a, tasks)) == Queue(tasks)[k] && Advance(a, tasks).doneTasks == a.doneTasks
    ensures Advance(a, tasks).current == Some(Queue(tasks)[k])
  {
    hide Queue, FirstUndone, Clean, DoneIds;
    PlaceFacts(tasks, a.doneTasks, k);
  }

  /** Advancing with everything done and nothing active blocks, unless the manifest is empty. */
  lemma AdvanceIdle(a: Agent, tasks: seq<string>)
    requires DoneUpTo(a.doneTasks, tasks, |Queue(tasks)|) && a.activeTask == None
    ensures tasks != [] ==> Advance(a, tasks) == a.(status := Some(Blocked), blockedReason := Some(EXHAUSTED))
    ensures tasks == [] ==> Advance(a, tasks).status == Some(Ended)
  {
    hide Queue, FirstUndone, DoneIds;
    PlaceFacts(tasks, a.doneTasks, |Queue(tasks)|);
    CleanEmpty();
    if "" in Ids(tasks) {
      EmptyIsUndone(tasks, a.doneTasks);
    }
  }

  /** Where all titles are settled, none of them cleans to nothing. */
  lemma EmptyIsUndone(tasks: seq<string>, doneTasks: seq<string>)
    requires "" in Ids(tasks)
    ensures !DoneUpTo(doneTasks, tasks, |Queue(tasks)|)
  {
    hide Clean, Ids;
    var i :| 0 <= i < |Queue(tasks)| && Queue(tasks)[i] == "";
  }

  /** Merging the task worked on makes it done, or leaves the agent where it is. */
  lemma MergedAt(a: Agent, tasks: seq<string>, k: nat)
    requires DoneUpTo(a.doneTasks, tasks, k) && WorksOn(a, tasks, k)
    ensures Settled(Queue(tasks)[k]) ==> DoneUpTo(Merged(a).doneTasks, tasks, k + 1) && Merged(a).doneTasks == Queue(tasks)[..k + 1]
    ensures !Settled(Queue(tasks)[k]) ==> DoneUpTo(Merged(a).doneTasks, tasks, k)
    ensures WorksOn(Merged(a), tasks, k) && Merged(a).taskSequence == a.taskSequence
  {
    hide Queue, Clean, FirstUndone;
    PlaceFacts(tasks, a.doneTasks, k);
    QueueIsClean(tasks, k);
    QueueIsDistinct(tasks);
    var q := Queue(tasks);
    assert q[..k + 1] == q[..k] + [q[k]];
    if !Settled(q[k]) && q[k] != "" && a.doneTasks == q[..k + 1] {
      assert a.doneTasks[k] == q[k];
    }
  }

  lemma OnlyDoneChanges(a: Agent, tasks: seq<string>)
    ensures Merged(a) == a.(doneTasks := Merged(a).doneTasks)
    ensures a.activeTask == None ==> Merged(a) == a
    ensures Advance(a, tasks).doneTasks == a.doneTasks
    ensures Advance(a, tasks).status == Some(Ended) ==> Advance(a, tasks).activeTask == None && Advance(a, tasks).current == None
  {
    hide DoneIds, FirstUndone, CurrentTask;
    CleanEmpty();
  }

  lemma RestartKeepsPlace(a: Agent, tasks: seq<string>, k: nat)
    requires At(a, tasks, k)
    ensures At(Setup(a, tasks), tasks, k)
    ensures a.status == Some(Blocked) && tasks != [] && "" !in tasks ==> SameWork(a, Setup(a, tasks))
  {
    hide Queue, Clean, FirstUndone, DoneIds, Advance;
    CleanEmpty();
    PlaceFacts(tasks, a.doneTasks, k);
    OnlyDoneChanges(a, tasks);
    QueueIsDistinct(tasks);
    if a.activeTask == None {
      AdvanceIdle(a, tasks);
    } else if WorksOn(a, tasks, k) {
      AdvanceStays(a, tasks, k);
    } else {
      QueueIsClean(tasks, k - 1);
    }
  }

  lemma MergeKeepsPlace(a: Agent, tasks: seq<string>, k: nat, head: string, outcome: Outcome)
    requires At(a, tasks, k) && a.status != Some(Blocked)
    ensures var b := Reconcile(a, tasks, Request(head, true, outcome));
      At(b, tasks, k) || (a.status == Some(Running) && Settled(Queue(tasks)[k]) && At(b, tasks, k + 1))
  {
    hide Queue, Clean, Settled, FirstUndone, DoneIds, Advance, DoneUpTo, Merged;
    var b := a.(seenHead := Some(head));
    OnlyDoneChanges(b, tasks);
    if a.status == Some(Running) {
      assert WorksOn(b, tasks, k);
      MergedAt(b, tasks, k);
      OnlyDoneChanges(Merged(b), tasks);
      if Settled(Queue(tasks)[k]) {
        AdvanceAt(Merged(b), tasks, k + 1);
      } else {
        AdvanceStays(Merged(b), tasks, k);
      }
    } else {
      AdvanceIdle(b, tasks);
      QueueIsDistinct(tasks);
    }
  }

  /** One round takes a run from k titles done to k, or to k + 1 when title k is settled, and a blocked
      agent nowhere. */
  lemma RoundKeepsPlace(a: Agent, tasks: seq<string>, k: nat, round: Round)
    requires At(a, tasks, k)
    ensures At(Reconcile(a, tasks, round), tasks, k) ||
            (a.status == Some(Running) && Settled(Queue(tasks)[k]) && At(Reconcile(a, tasks, round), tasks, k + 1))
    ensures a.status == Some(Blocked) && tasks != [] && "" !in tasks ==> SameWork(a, Reconcile(a, tasks, round))
  {
    hide Queue, Clean, Settled, FirstUndone, DoneIds, Advance, DoneUpTo, Merged;
    match round
    case Restart => RestartKeepsPlace(a, tasks, k);
    case NoRequest =>
    case Request(head, merge, outcome) =>
      if merge && a.status != Some(Blocked) {
        MergeKeepsPlace(a, tasks, k, head, outcome);
      }
  }

  /**
   * From a fresh queue, whatever builds, tests and merges do and however often the scheduler restarts,
   * the tasks done are always the first so many distinct titles of the manifest, in order, and the
   * active task is the next one; as long as titles are settled, the sequence number counts the tasks
   * given out and the end.
   */
  lemma {:induction false} RunFollowsManifest(tasks: seq<string>, rounds: seq<Round>) returns (k: nat)
    ensures At(Run(tasks, rounds), tasks, k)
  {
    hide At, Setup, Reconcile;
    if rounds == [] {
      k := 0;
      StartsAt(tasks);
    } else {
      k := RunFollowsManifest(tasks, rounds[..|rounds| - 1]);
      var a, round := Run(tasks, rounds[..|rounds| - 1]), rounds[|rounds| - 1];
      RoundKeepsPlace(a, tasks, k, round);
      if !At(Reconcile(a, tasks, round), tasks, k) {
        k := k + 1;
      }
    }
  }

  lemma StartsAt(tasks: seq<string>)
    ensures At(Setup(FRESH, tasks), tasks, 0)
    ensures Setup(FRESH, tasks).status == if Queue(tasks) == [] then Some(Ended) else Some(Running)
    ensures Run(tasks, []) == Setup(FRESH, tasks) && Setup(FRESH, tasks).doneTasks == []
  {
    hide Queue, FirstUndone, Clean, Advance;
    CleanEmpty();
    AdvanceAt(FRESH, tasks, 0);
    OnlyDoneChanges(FRESH, tasks);
  }

  /** An agent that has ended has every title of its manifest done. */
  lemma {:induction false} EndedMeansAllDone(tasks: seq<string>, rounds: seq<Round>)
    requires Run(tasks, rounds).status == Some(Ended)
    ensures Undone(Run(tasks, rounds), tasks) == {}
  {
    hide Run;
    var k := RunFollowsManifest(tasks, rounds);
    AllDoneIff(Run(tasks, rounds), tasks, k);
  }

  /** Nothing is left undone exactly when a run has come to the end of its queue. */
  lemma AllDoneIff(a: Agent, tasks: seq<string>, k: nat)
    requires DoneUpTo(a.doneTasks, tasks, k)
    ensures Undone(a, tasks) == {} <==> k == |Queue(tasks)|
  {
    hide Clean, Ids, FirstUndone, DoneIds, DoneUpTo;
    PlaceFacts(tasks, a.doneTasks, k);
    var q := Queue(tasks);
    if k < |q| {
      QueueIsClean(tasks, k);
      assert q[k] in Undone(a, tasks);
    } else {
      forall id | id in Ids(tasks)
        ensures id in DoneIds(a.doneTasks)
      {
        assert id in q;
        var i :| 0 <= i < |q| && q[i] == id;
      }
      assert Undone(a, tasks) == {};
    }
  }

  /** Once blocked in a run, an agent keeps its task, its done list and its sequence for the rest of it. */
  lemma {:induction false} BlockedStaysPut(tasks: seq<string>, rounds: seq<Round>, more: seq<Round>)
    requires "" !in tasks && tasks != [] && Run(tasks, rounds).status == Some(Blocked)
    ensures SameWork(Run(tasks, rounds), Run(tasks, rounds + more))
    decreases |more|
  {
    hide At, Reconcile;
    if more == [] {
      assert rounds + more == rounds;
    } else {
      var front, last := more[..|more| - 1], more[|more| - 1];
      BlockedStaysPut(tasks, rounds, front);
      assert (rounds + more)[..|rounds + more| - 1] == rounds + front;
      var k := RunFollowsManifest(tasks, rounds + front);
      RoundKeepsPlace(Run(tasks, rounds + front), tasks, k, last);
    }
  }

  /** After a build, tests or integration tests that fail, no round gives out a task any more, and the failure
      stays on record. */
  lemma {:induction false} NoTaskAfterFailure(tasks: seq<string>, rounds: seq<Round>, head: string, outcome: Outcome, more: seq<Round>)
    requires "" !in tasks && tasks != [] && Fails(outcome) && Run(tasks, rounds).status != Some(Blocked)
    ensures var failed, end := Run(tasks, rounds + [Request(head, true, outcome)]), Run(tasks, rounds + [Request(head, true, outcome)] + more);
      && failed.activeTask == Run(tasks, rounds).activeTask && failed.taskSequence == Run(tasks, rounds).taskSequence
      && SameWork(failed, end) && end.failedStage == StageOf(outcome) && end.failedHead == Some(head)
  {
    hide Run, Reconcile;
    LastRound(tasks, rounds, Request(head, true, outcome));
    MergeRequestDoes(Run(tasks, rounds), tasks, head, outcome);
    BlockedStaysPut(tasks, rounds + [Request(head, true, outcome)], more);
  }

  /**
   * "Ended" does not last: an agent that has ended is blocked, as if its manifest had run out with
   * work left, by a restart and by one more merge, exactly when its manifest is not empty.
   */
  lemma {:induction false} EndedIsBlockedIff(tasks: seq<string>, rounds: seq<Round>, head: string)
    requires Run(tasks, rounds).status == Some(Ended)
    ensures Reconcile(Run(tasks, rounds), tasks, Restart).status == Some(Blocked) <==> tasks != []
    ensures Reconcile(Run(tasks, rounds), tasks, Request(head, true, MergedAndTested)).status == Some(Blocked) <==> tasks != []
  {
    hide Run, Queue, Clean, FirstUndone, DoneIds, Advance;
    var a := Run(tasks, rounds);
    var k := RunFollowsManifest(tasks, rounds);
    CleanEmpty();
    OnlyDoneChanges(a.(seenHead := Some(head)), tasks);
    AdvanceIdle(a, tasks);
    AdvanceIdle(a.(seenHead := Some(head)), tasks);
  }

  // ---- which manifests can be finished ----

  lemma WorkingAt(a: Agent, tasks: seq<string>, k: nat)
    requires At(a, tasks, k) && a.activeTask.Some? && !Settled(ActiveId(a))
    ensures WorksOn(a, tasks, k) && !Settled(Queue(tasks)[k])
  {
    hide Queue, Clean, Settled;
  }

  /** Given out, a title that is not settled stays given out: no rounds get past it. */
  lemma {:induction false} UnsettledIsNeverPassed(tasks: seq<string>, rounds: seq<Round>, more: seq<Round>) returns (k: nat)
    requires Run(tasks, rounds).activeTask.Some? && !Settled(ActiveId(Run(tasks, rounds)))
    ensures WorksOn(Run(tasks, rounds), tasks, k)
    ensures At(Run(tasks, rounds + more), tasks, k) && WorksOn(Run(tasks, rounds + more), tasks, k)
    ensures Queue(tasks)[k] in Undone(Run(tasks, rounds + more), tasks)
    decreases |more|
  {
    hide Queue, Reconcile, Clean, DoneIds, FirstUndone, Settled, Run, Undone;
    if more == [] {
      assert rounds + more == rounds;
      k := RunFollowsManifest(tasks, rounds);
      WorkingAt(Run(tasks, rounds), tasks, k);
    } else {
      var front, last := more[..|more| - 1], more[|more| - 1];
      k := UnsettledIsNeverPassed(tasks, rounds, front);
      LastRound(tasks, rounds + front, last);
      assert rounds + more == rounds + front + [last];
      RoundKeepsPlace(Run(tasks, rounds + front), tasks, k, last);
      StillWorking(Run(tasks, rounds + front), tasks, k, last);
    }
    IsUndone(Run(tasks, rounds + more), tasks, k);
  }

  lemma LastRound(tasks: seq<string>, rounds: seq<Round>, last: Round)
    ensures Run(tasks, rounds + [last]) == Reconcile(Run(tasks, rounds), tasks, last)
  {
    hide Setup, Reconcile;
    assert (rounds + [last])[..|rounds|] == rounds;
  }

  lemma IsUndone(a: Agent, tasks: seq<string>, k: nat)
    requires DoneUpTo(a.doneTasks, tasks, k) && k < |Queue(tasks)|
    ensures Queue(tasks)[k] in Undone(a, tasks)
  {
    hide Queue, Clean, Ids, FirstUndone, DoneIds, DoneUpTo;
    PlaceFacts(tasks, a.doneTasks, k);
    QueueIsClean(tasks, k);
  }

  /** A round leaves an agent on a title that is not settled with that title. */
  lemma StillWorking(a: Agent, tasks: seq<string>, k: nat, round: Round)
    requires At(a, tasks, k) && WorksOn(a, tasks, k) && !Settled(Queue(tasks)[k])
    ensures WorksOn(Reconcile(a, tasks, round), tasks, k) && At(Reconcile(a, tasks, round), tasks, k)
  {
    hide Queue, Clean, Settled, FirstUndone, DoneIds, DoneUpTo;
    RoundKeepsPlace(a, tasks, k, round);
    PlaceAt(a, tasks, k);
    PlaceAt(Reconcile(a, tasks, round), tasks, k);
  }

  /** Merging `n` times in a row, with everything passing. */
  function Merges(n: nat): seq<Round> { seq(n, i => Request("", true, MergedAndTested)) }

  /** While titles are settled, each merge gets one more of them done. */
  lemma {:induction false} StepByStep(tasks: seq<string>, n: nat)
    requires n <= |Queue(tasks)| && forall i :: 0 <= i < n ==> Settled(Queue(tasks)[i])
    ensures At(Run(tasks, Merges(n)), tasks, n)
    ensures Run(tasks, Merges(n)).doneTasks == Queue(tasks)[..n]
    ensures Run(tasks, Merges(n)).status == if n < |Queue(tasks)| then Some(Running) else Some(Ended)
  {
    hide Queue, Clean, Settled, FirstUndone, DoneIds, Advance, DoneUpTo, Merged, Run;
    if n == 0 {
      StartsAt(tasks);
      assert Merges(0) == [];
    } else {
      StepByStep(tasks, n - 1);
      assert Merges(n) == Merges(n - 1) + [Request("", true, MergedAndTested)];
      LastRound(tasks, Merges(n - 1), Request("", true, MergedAndTested));
      var b := Run(tasks, Merges(n - 1)).(seenHead := Some(""));
      MergedAt(b, tasks, n - 1);
      AdvanceAt(Merged(b), tasks, n);
      OnlyDoneChanges(Merged(b), tasks);
    }
  }

  /** Some rounds get every task of a manifest done exactly when each of its titles, once cleaned, is not
      empty and does not begin with a number sign. */
  lemma FinishesIff(tasks: seq<string>)
    ensures (exists rounds :: Undone(Run(tasks, rounds), tasks) == {}) <==> forall t :: t in tasks ==> Settled(Clean(t))
  {
    hide Queue, Clean, DoneIds, FirstUndone, Settled, Run, Undone, At;
    QueueSettledIff(tasks);
    if forall t :: t in tasks ==> Settled(Clean(t)) {
      var n := |Queue(tasks)|;
      StepByStep(tasks, n);
      PlaceAt(Run(tasks, Merges(n)), tasks, n);
      AllDoneIff(Run(tasks, Merges(n)), tasks, n);
    }
    forall rounds | Undone(Run(tasks, rounds), tasks) == {}
      ensures forall t :: t in tasks ==> Settled(Clean(t))
    {
      var k := RunFollowsManifest(tasks, rounds);
      PlaceAt(Run(tasks, rounds), tasks, k);
      AllDoneIff(Run(tasks, rounds), tasks, k);
    }
  }

  lemma PlaceAt(a: Agent, tasks: seq<string>, k: nat)
    requires At(a, tasks, k)
    ensures DoneUpTo(a.doneTasks, tasks, k) && k <= |Queue(tasks)| && forall i :: 0 <= i < k ==> Settled(Queue(tasks)[i])
  {
    hide Queue, Settled;
  }

  lemma QueueSettledIff(tasks: seq<string>)
    ensures (forall i :: 0 <= i < |Queue(tasks)| ==> Settled(Queue(tasks)[i])) <==> forall t :: t in tasks ==> Settled(Clean(t))
  {
    hide Clean, Settled;
    var ids, q := Ids(tasks), Queue(tasks);
    forall t | t in tasks
      ensures exists i :: 0 <= i < |q| && q[i] == Clean(t)
    {
      var j :| 0 <= j < |tasks| && tasks[j] == t;
      assert ids[j] in q;
    }
    forall i | 0 <= i < |q|
      ensures exists j :: 0 <= j < |tasks| && Clean(tasks[j]) == q[i]
    {
      assert q[i] in ids;
      var j :| 0 <= j < |ids| && ids[j] == q[i];
    }
  }

  /** The manifest line "- # #" is read as the task "#", which cleans to nothing, and is given out for ever;
      "- # # fix" is read as "# fix" and can be done, but "- # # # fix", read as "# # fix", cannot. */
  lemma UnsettledTitles()
    ensures Clean("# #") == "#" && Clean("#") == "" && !Settled(Clean("#"))
    ensures Clean("# # # fix") == "# # fix" && Clean("# # fix") == "# fix" && Clean("# fix") == "fix"
    ensures !Settled(Clean("# # fix")) && Settled(Clean("# fix"))
  {
    hide Clean, IsSpace, Settled;
    Letters();
    CleanHeading("fix", "# fix");
    CleanHeading("# fix", "# # fix");
    CleanHeading("# # fix", "# # # fix");
    CleanHeading("#", "# #");
    CleanHash();
    SettledAt("fix");
    SettledAt("# fix");
    SettledAt("");
  }

  lemma SettledAt(s: string)
    ensures Settled(s) <==> s != [] && s[0] != '#'
  {
  }

  lemma Letters()
    ensures !IsSpace('#') && !IsSpace('f') && !IsSpace('x')
  {
  }

  lemma CleanHash()
    ensures Clean("#") == ""
  {
    assert "#" + "" + "" + "" == "#";
    CleanIsMiddle("#", "", "", "");
  }

  /** One number sign and one space go. */
  lemma CleanHeading(s: string, t: string)
    requires s != [] && Trimmed(s) && t == "# " + s
    ensures Clean(t) == s
  {
    assert t == "#" + " " + s + "";
    CleanIsMiddle("#", " ", s, "");
  }

  // ---- the state as it is kept ----

  class AgentState {
    var doneTasks: seq<string>
    var activeTask: Option<string>
    var status: Option<Status>
    var blockedReason: Option<string>
    var failedStage: Option<string>
    var failedHead: Option<string>
    var mergedHead: Option<string>
    var taskSequence: nat
    var current: Option<string>
    var seenHead: Option<string>

    ghost function View(): Agent
      reads this
    {
      Agent(doneTasks, activeTask, status, blockedReason, failedStage, failedHead, mergedHead, taskSequence, current, seenHead)
    }

    constructor ()
      ensures View() == FRESH
    {
      doneTasks, taskSequence := [], 0;
      activeTask, status, blockedReason, failedStage, failedHead, mergedHead, current, seenHead :=
        None, None, None, None, None, None, None, None;
    }

    method TaskToWorkOn(tasks: seq<string>) returns (task: Option<string>)
      ensures task == CurrentTask(View(), tasks)
    {
      hide Clean;
      CleanEmpty();
      var doneIds := DoneIds(doneTasks);
      var active := if activeTask.Some? && activeTask.value != "" then Clean(activeTask.value) else "";
      if active != "" && active in Ids(tasks) && active !in doneIds {
        return activeTask;
      }
      for i := 0 to |tasks|
        invariant FirstUndone(tasks, doneIds) == FirstUndone(tasks[i..], doneIds)
      {
        if Clean(tasks[i]) !in doneIds {
          return Some(tasks[i]);
        }
        assert tasks[i..][1..] == tasks[i + 1..];
      }
      return None;
    }

    method AdvanceAgent(tasks: seq<string>)
      modifies this
      ensures View() == Advance(old(View()), tasks)
    {
      hide Clean, FirstUndone, DoneIds, Ids;
      var task := TaskToWorkOn(tasks);
      var previousActive := Clean(if activeTask.Some? then activeTask.value else "");
      activeTask := None;
      if task.None? {
        if tasks != [] && (previousActive !in Ids(tasks) || previousActive !in DoneIds(doneTasks)) {
          status := Some(Blocked);
          blockedReason := Some(EXHAUSTED);
          return;
        }
        status := Some(Ended);
        taskSequence := taskSequence + 1;
        current := None;
        return;
      }
      activeTask := task;
      status := Some(Running);
      taskSequence := taskSequence + 1;
      if current != Some(Clean(task.value)) {
        current := Some(Clean(task.value));
      }
    }

    method SetupQueue(tasks: seq<string>)
      modifies this
      ensures View() == Setup(old(View()), tasks)
    {
      hide Clean, FirstUndone, DoneIds, Ids, Advance;
      var task := TaskToWorkOn(tasks);
      var noActive := activeTask.None? || activeTask.value == "";
      if task.None? && tasks != [] {
        var previousActive := Clean(if activeTask.Some? then activeTask.value else "");
        if previousActive != "" && previousActive !in DoneIds(doneTasks) {
          status := Some(Blocked);
          blockedReason := Some(EXHAUSTED);
        } else if noActive {
          AdvanceAgent(tasks);
        }
      } else if noActive {
        AdvanceAgent(tasks);
      }
    }

    method ReconcileAgent(tasks: seq<string>, round: Round)
      modifies this
      ensures View() == Reconcile(old(View()), tasks, round)
    {
      hide Clean, DoneIds, Advance, Setup;
      if round.Restart? {
        SetupQueue(tasks);
        return;
      }
      if round.Request? {
        if seenHead != Some(round.head) {
          seenHead := Some(round.head);
        }
        if round.merge {
          if status == Some(Blocked) {
            return;
          }
          if round.outcome.BuildFails? {
            Block("agent build failed before merge", "build", round.head);
            return;
          }
          if round.outcome.TestsFail? {
            Block("agent ctest failed before merge", "ctest", round.head);
            return;
          }
          if !round.outcome.MergeIncomplete? {
            var active := Clean(if activeTask.Some? then activeTask.value else "");
            if active != "" && Clean(active) !in DoneIds(doneTasks) {
              doneTasks := doneTasks + [active];
            }
            if round.outcome.MergedAndTested? {
              AdvanceAgent(tasks);
            } else {
              Block("integration tests failed after merge", round.outcome.stage, round.head);
              mergedHead := Some(round.head);
            }
          }
        }
      }
      if status.None? {
        status := Some(Waiting);
      }
    }

    method Block(reason: string, stage: string, head: string)
      modifies this`status, this`blockedReason, this`failedStage, this`failedHead
      ensures View() == Failed(old(View()), reason, stage, head)
    {
      status := Some(Blocked);
      blockedReason := Some(reason);
      failedStage := Some(stage);
      failedHead := Some(head);
    }
  }
}
