/** Crash auto-recovery: which launched apps are running, which dead ones await a relaunch,
    and how often an app may be relaunched. Each step is one lock section of the source, so
    exits, drains and launches on different CPUs interleave freely between sections. One thread
    does all the draining, so its decisions come in the order of its clock readings. */
module CrashRecovery {

  import opened Options

  const SLOTS: nat := 8
  const MAX_RELAUNCHES: nat := 3
  const WINDOW_NS: nat := 30_000_000_000

  datatype Running = Running(pid: nat, app: nat)
  datatype Crash = Crash(app: nat, leader: nat)
  datatype Backoff = Backoff(app: nat, attempts: nat, start: nat)

  datatype Tables = Tables(running: seq<Running>, pending: seq<Crash>, history: seq<Backoff>)

  // ── Searching the tables ───────────────────────────────────────────────────

  /** The first index of a key. */
  function IndexOf(keys: seq<nat>, key: nat, from: nat): (r: Option<nat>)
    requires from <= |keys|
    ensures r.Some? ==> from <= r.value < |keys| && keys[r.value] == key
    ensures r.None? ==> forall i :: from <= i < |keys| ==> keys[i] != key
    decreases |keys| - from
  {
    if from == |keys| then None else if keys[from] == key then Some(from) else IndexOf(keys, key, from + 1)
  }

  /** The first index whose key is not zero. */
  function FirstUsed(keys: seq<nat>, from: nat): (r: Option<nat>)
    requires from <= |keys|
    ensures r.Some? ==> from <= r.value < |keys| && keys[r.value] != 0
    ensures r.None? ==> forall i :: from <= i < |keys| ==> keys[i] == 0
    decreases |keys| - from
  {
    if from == |keys| then None else if keys[from] != 0 then Some(from) else FirstUsed(keys, from + 1)
  }

  function Pids(t: seq<Running>): (r: seq<nat>)
    ensures |r| == |t| && forall i :: 0 <= i < |t| ==> r[i] == t[i].pid
  {
    seq(|t|, i requires 0 <= i < |t| => t[i].pid)
  }

  function CrashApps(t: seq<Crash>): (r: seq<nat>)
    ensures |r| == |t| && forall i :: 0 <= i < |t| ==> r[i] == t[i].app
  {
    seq(|t|, i requires 0 <= i < |t| => t[i].app)
  }

  function BackoffApps(t: seq<Backoff>): (r: seq<nat>)
    ensures |r| == |t| && forall i :: 0 <= i < |t| ==> r[i] == t[i].app
  {
    seq(|t|, i requires 0 <= i < |t| => t[i].app)
  }

  // ── The lock sections as functions ─────────────────────────────────────────

  function NotedRunning(t: seq<Running>, pid: nat, app: nat): seq<Running> {
    match IndexOf(Pids(t), 0, 0)
    case None => t
    case Some(i) => t[i := Running(pid, app)]
  }

  /** The running table after an exit, and the crash it condemns, if any. */
  function Exited(t: seq<Running>, leader: nat, pid: nat, code: int): (seq<Running>, Option<Crash>) {
    if leader == 0 then (t, None)
    else
      match IndexOf(Pids(t), leader, 0)
      case None => (t, None)
      case Some(i) =>
        var gone := t[i := Running(0, 0)];
        if code != 0 then (gone, Some(Crash(t[i].app, leader)))
        else (if pid == leader then gone else t, None)
  }

  function Queued(t: seq<Crash>, c: Crash): (seq<Crash>, bool) {
    match IndexOf(CrashApps(t), 0, 0)
    case None => (t, false)
    case Some(i) => (t[i := c], true)
  }

  function Taken(t: seq<Crash>): (seq<Crash>, Option<Crash>) {
    match FirstUsed(CrashApps(t), 0)
    case None => (t, None)
    case Some(i) => (t[i := Crash(0, 0)], Some(t[i]))
  }

  /** The slot an app's backoff is kept in: its own, or the first free one, set up at `now`. */
  function BackoffSlot(t: seq<Backoff>, app: nat, now: nat): Option<(nat, Backoff)> {
    match IndexOf(BackoffApps(t), app, 0)
    case Some(i) => Some((i, t[i]))
    case None =>
      match IndexOf(BackoffApps(t), 0, 0)
      case None => None
      case Some(i) => Some((i, Backoff(app, 0, now)))
  }

  function Renewed(b: Backoff, now: nat): Backoff {
    if now > b.start && now - b.start > WINDOW_NS then Backoff(b.app, 0, now) else b
  }

  /** The history after deciding on a crash, and whether the app is relaunched. */
  function Decided(t: seq<Backoff>, app: nat, now: nat): (seq<Backoff>, bool) {
    match BackoffSlot(t, app, now)
    case None => (t, false)
    case Some((i, b)) =>
      var r := Renewed(b, now);
      if i >= |t| then (t, false)
      else if r.attempts >= MAX_RELAUNCHES then (t[i := r], false)
      else (t[i := r.(attempts := r.attempts + 1)], true)
  }

  // ── What the sections do ───────────────────────────────────────────────────

  /** A launch is recorded exactly when a slot is free, and moves no other instance. */
  lemma LaunchRecorded(t: seq<Running>, pid: nat, app: nat)
    requires pid != 0 && pid !in Pids(t)
    ensures var t' := NotedRunning(t, pid, app);
            && |t'| == |t| && (pid in Pids(t') <==> 0 in Pids(t))
            && forall i :: 0 <= i < |t| && t[i].pid != 0 ==> t'[i] == t[i]
  {
    var t' := NotedRunning(t, pid, app);
    var free := IndexOf(Pids(t), 0, 0);
    if free.Some? {
      assert Pids(t')[free.value] == pid;
    }
  }

  /** An abnormal death of any thread ends the group and names its app; a clean exit ends it
      only when the leader exits, and never asks for a relaunch; nothing else changes. */
  lemma ExitMeans(t: seq<Running>, leader: nat, pid: nat, code: int, i: nat)
    requires i < |t| && leader != 0 && t[i].pid == leader && forall j :: 0 <= j < |t| && j != i ==> t[j].pid != leader
    ensures var (t', crash) := Exited(t, leader, pid, code);
            && |t'| == |t| && (forall j :: 0 <= j < |t| && j != i ==> t'[j] == t[j])
            && (leader in Pids(t') <==> code == 0 && pid != leader)
            && crash == (if code != 0 then Some(Crash(t[i].app, leader)) else None)
  {
    var (t', crash) := Exited(t, leader, pid, code);
    assert Pids(t')[i] == t'[i].pid;
  }

  /** A crash is relaunched exactly when its window has expired or has attempts left, or, for
      an app without one, when there is a slot to open one in. */
  lemma RelaunchedWhen(t: seq<Backoff>, app: nat, now: nat)
    requires app != 0
    ensures var again := Decided(t, app, now).1;
            match IndexOf(BackoffApps(t), app, 0)
            case Some(i) => again <==> t[i].attempts < 3 || now > t[i].start + 30_000_000_000
            case None => again <==> 0 in BackoffApps(t)
  {
  }

  /** A crash is queued exactly when a slot is free, and a drain takes a waiting crash, the first,
      exactly when there is one; neither touches another slot. */
  lemma QueueMeans(t: seq<Crash>, c: Crash)
    ensures var (t', ok) := Queued(t, c);
            if exists i :: 0 <= i < |t| && t[i].app == 0
            then ok && exists i :: 0 <= i < |t| && t[i].app == 0 && t' == t[i := c]
            else !ok && t' == t
    ensures var (t', taken) := Taken(t);
            if exists i :: 0 <= i < |t| && t[i].app != 0
            then exists i :: && 0 <= i < |t| && t[i].app != 0 && (forall j :: 0 <= j < i ==> t[j].app == 0)
                             && taken == Some(t[i]) && t' == t[i := Crash(0, 0)]
            else taken == None && t' == t
  {
    hide IndexOf, FirstUsed, CrashApps;
    var used := FirstUsed(CrashApps(t), 0);
    FirstUsedIs(CrashApps(t), 0);
    if used.Some? {
      assert t[used.value].app != 0;
    }
  }

  lemma {:induction false} FirstUsedIs(keys: seq<nat>, from: nat)
    requires from <= |keys|
    ensures var r := FirstUsed(keys, from);
            r.Some? ==> forall j :: from <= j < r.value ==> keys[j] == 0
    decreases |keys| - from
  {
    if from < |keys| && keys[from] == 0 {
      FirstUsedIs(keys, from + 1);
    }
  }

  // ── Steps ──────────────────────────────────────────────────────────────────

  /** One backoff window: when it began and when its attempts were made. */
  datatype Window = Window(start: nat, times: seq<nat>)

  /** The tables, what is between two lock sections, and a record no step reads. */
  datatype State = State(
    t: Tables, dying: seq<Crash>, taken: seq<Crash>,
    clock: nat, apps: map<nat, nat>, condemned: seq<nat>, queued: seq<nat>, decided: nat, attempts: nat,
    windows: map<nat, seq<Window>>)

  datatype Step =
    | Launch(pid: nat, app: nat)                             // note_running
    | Exit(leader: nat, pid: nat, code: int, locked: bool)   // note_thread_exit, RUNNING section
    | Queue(which: nat, locked: bool)                        // note_thread_exit, PENDING section
    | Take(locked: bool)                                     // drain_relaunches, PENDING section
    | Decide(which: nat, now: nat)                           // drain_relaunches, HISTORY section

  predicate Enabled(s: State, step: Step) {
    match step
    case Launch(pid, app) => pid != 0 && pid !in s.apps && app != 0
    case Exit(_, _, _, _) => true
    case Queue(which, _) => which < |s.dying|
    case Take(_) => true
    case Decide(which, now) => which < |s.taken| && s.clock <= now
  }

  function Without<T>(s: seq<T>, i: nat): seq<T>
    requires i < |s|
  {
    s[..i] + s[i + 1..]
  }

  function AfterExit(s: State, leader: nat, pid: nat, code: int): State {
    var (running, crash) := Exited(s.t.running, leader, pid, code);
    var s' := s.(t := s.t.(running := running),
                 condemned := if DiesAbnormally(s.t.running, leader, code) then s.condemned + [leader] else s.condemned);
    if crash.None? then s' else s'.(dying := s.dying + [crash.value])
  }

  /** The event a relaunch answers: a running group loses a thread to a fault or a kill. */
  predicate DiesAbnormally(t: seq<Running>, leader: nat, code: int) {
    code != 0 && leader != 0 && leader in Pids(t)
  }

  function AfterQueue(s: State, which: nat, locked: bool): State
    requires which < |s.dying|
  {
    var s' := s.(dying := Without(s.dying, which));
    if locked then s'
    else
      var (pending, ok) := Queued(s.t.pending, s.dying[which]);
      if ok then s'.(t := s.t.(pending := pending), queued := s.queued + [s.dying[which].leader]) else s'
  }

  function AfterTake(s: State): State {
    var (pending, crash) := Taken(s.t.pending);
    if crash.None? then s else s.(t := s.t.(pending := pending), taken := s.taken + [crash.value])
  }

  /** An app's windows with one that begins at `start` as the last. */
  function Grown(ws: seq<Window>, start: nat): (r: seq<Window>)
    ensures r != []
  {
    if ws == [] || ws[|ws| - 1].start != start then ws + [Window(start, [])] else ws
  }

  /** The record of an app's windows after a decision. */
  function Recorded(windows: map<nat, seq<Window>>, app: nat, now: nat, b: Backoff, again: bool): map<nat, seq<Window>> {
    var ws := if app in windows then windows[app] else [];
    var grown := Grown(ws, b.start);
    var last := grown[|grown| - 1];
    windows[app := grown[|grown| - 1 := if again then last.(times := last.times + [now]) else last]]
  }

  function AfterDecide(s: State, which: nat, now: nat): State
    requires which < |s.taken|
  {
    var app := s.taken[which].app;
    var s' := s.(taken := Without(s.taken, which), clock := now, decided := s.decided + 1);
    match BackoffSlot(s.t.history, app, now)
    case None => s'
    case Some((i, b)) =>
      var (history, again) := Decided(s.t.history, app, now);
      s'.(t := s.t.(history := history),
          attempts := if again then s.attempts + 1 else s.attempts,
          windows := Recorded(s.windows, app, now, Renewed(b, now), again))
  }

  function After(s: State, step: Step): State
    requires Enabled(s, step)
  {
    match step
    case Launch(pid, app) =>
      s.(t := s.t.(running := NotedRunning(s.t.running, pid, app)), apps := s.apps[pid := app])
    case Exit(leader, pid, code, locked) => if locked then s else AfterExit(s, leader, pid, code)
    case Queue(which, locked) => AfterQueue(s, which, locked)
    case Take(locked) => if locked then s else AfterTake(s)
    case Decide(which, now) => AfterDecide(s, which, now)
  }

  function Start(): State {
    State(Tables(seq(SLOTS, _ => Running(0, 0)), seq(SLOTS, _ => Crash(0, 0)), seq(SLOTS, _ => Backoff(0, 0, 0))),
          [], [], 0, map[], [], [], 0, 0, map[])
  }

  /** A dead group waits in the first step of its relaunch until the queue's lock section, which
      either hands it to a free slot or, when the lock is taken or no slot is free, loses it. */
  lemma QueueStep(s: State, which: nat, locked: bool)
    requires which < |s.dying|
    ensures var s' := After(s, Queue(which, locked));
            var left := s.(dying := s.dying[..which] + s.dying[which + 1..]);
            if locked || forall i :: 0 <= i < |s.t.pending| ==> s.t.pending[i].app != 0 then s' == left
            else exists i :: && 0 <= i < |s.t.pending| && s.t.pending[i].app == 0
                             && s' == left.(t := s.t.(pending := s.t.pending[i := s.dying[which]]),
                                            queued := s.queued + [s.dying[which].leader])
  {
    hide Queued, Taken;
    QueueMeans(s.t.pending, s.dying[which]);
  }

  /** A drain that finds the lock taken or nothing waiting does nothing; otherwise the first
      waiting crash moves from its slot to the drainer. */
  lemma TakeStep(s: State, locked: bool)
    ensures var s' := After(s, Take(locked));
            if locked || forall i :: 0 <= i < |s.t.pending| ==> s.t.pending[i].app == 0 then s' == s
            else exists i :: && 0 <= i < |s.t.pending| && s.t.pending[i].app != 0
                             && (forall j :: 0 <= j < i ==> s.t.pending[j].app == 0)
                             && s' == s.(t := s.t.(pending := s.t.pending[i := Crash(0, 0)]),
                                         taken := s.taken + [s.t.pending[i]])
  {
    hide Queued, Taken;
    QueueMeans(s.t.pending, Crash(0, 0));
  }

  /** The app's window has attempts left or is over; an app without one needs a slot for it. */
  ghost predicate MayTry(h: seq<Backoff>, app: nat, now: nat) {
    if forall i :: 0 <= i < |h| ==> h[i].app != app then exists i :: 0 <= i < |h| && h[i].app == 0
    else exists i :: && 0 <= i < |h| && h[i].app == app && (forall j :: 0 <= j < i ==> h[j].app != app)
                     && (h[i].attempts < 3 || h[i].start + 30_000_000_000 < now)
  }

  lemma DecidesWhen(h: seq<Backoff>, app: nat, now: nat)
    requires app != 0
    ensures Decided(h, app, now).1 <==> MayTry(h, app, now)
  {
    hide Decided, BackoffApps;
    RelaunchedWhen(h, app, now);
    FirstIndex(BackoffApps(h), app, 0);
  }

  /** A decision uses up one taken crash, counts it, and counts an attempt exactly when the app
      may be tried again. */
  lemma DecideStep(s: State, which: nat, now: nat)
    requires which < |s.taken| && s.clock <= now && s.taken[which].app != 0
    ensures var s' := After(s, Decide(which, now));
            var again := MayTry(s.t.history, s.taken[which].app, now);
            && s'.taken == s.taken[..which] + s.taken[which + 1..] && s'.decided == s.decided + 1
            && s'.attempts == s.attempts + (if again then 1 else 0)
            && s'.t.running == s.t.running && s'.t.pending == s.t.pending && s'.dying == s.dying
  {
    hide Recorded, Decided, BackoffSlot, Renewed, MayTry;
    DecidesWhen(s.t.history, s.taken[which].app, now);
    NoSlot(s.t.history, s.taken[which].app, now);
  }

  lemma NoSlot(t: seq<Backoff>, app: nat, now: nat)
    ensures BackoffSlot(t, app, now).None? ==> !Decided(t, app, now).1
  {
  }

  lemma {:induction false} FirstIndex(keys: seq<nat>, key: nat, from: nat)
    requires from <= |keys|
    ensures var r := IndexOf(keys, key, from);
            r.Some? ==> forall j :: from <= j < r.value ==> keys[j] != key
    decreases |keys| - from
  {
    if from < |keys| && keys[from] != key {
      FirstIndex(keys, key, from + 1);
    }
  }

  /** An exit of a thread whose group is not recorded, or under a taken lock, goes unseen. */
  lemma ExitUnseen(s: State, leader: nat, pid: nat, code: int, locked: bool)
    requires locked || leader == 0 || leader !in Pids(s.t.running)
    ensures After(s, Exit(leader, pid, code, locked)) == s
  {
  }

  // ── Crash bookkeeping ──────────────────────────────────────────────────────

  ghost predicate NoRepeats(s: seq<nat>) {
    forall i, j :: 0 <= i < j < |s| ==> s[i] != s[j]
  }

  /** That pid was launched for that app. */
  predicate Launched(s: State, pid: nat, app: nat) {
    app != 0 && pid in s.apps && s.apps[pid] == app
  }

  /** Running leaders are distinct, were launched for the app recorded, and were never condemned. */
  ghost predicate RunningOk(s: State) {
    && (forall i :: 0 <= i < |s.t.running| && s.t.running[i].pid != 0 ==>
          && Launched(s, s.t.running[i].pid, s.t.running[i].app)
          && s.t.running[i].pid !in s.condemned)
    && (forall i, j :: 0 <= i < j < |s.t.running| && s.t.running[i].pid != 0 ==>
          s.t.running[i].pid != s.t.running[j].pid)
  }

  ghost predicate CondemnedOk(s: State) {
    NoRepeats(s.condemned) && forall p :: p in s.condemned ==> p in s.apps
  }

  function Leaders(cs: seq<Crash>): (r: seq<nat>)
    ensures |r| == |cs| && forall i :: 0 <= i < |cs| ==> r[i] == cs[i].leader
  {
    seq(|cs|, i requires 0 <= i < |cs| => cs[i].leader)
  }

  /** What is queued or about to be was condemned, each as often, and names its own app. */
  ghost predicate QueueOk(s: State) {
    && multiset(s.queued) + multiset(Leaders(s.dying)) <= multiset(s.condemned)
    && (forall i :: 0 <= i < |s.t.pending| && s.t.pending[i].app != 0 ==> s.t.pending[i].leader in s.queued)
    && (forall i :: 0 <= i < |s.t.pending| && s.t.pending[i].app != 0 ==>
          Launched(s, s.t.pending[i].leader, s.t.pending[i].app))
    && (forall i :: 0 <= i < |s.dying| ==> Launched(s, s.dying[i].leader, s.dying[i].app))
    && (forall i :: 0 <= i < |s.taken| ==> Launched(s, s.taken[i].leader, s.taken[i].app))
  }

  function Waiting(t: seq<Crash>, k: nat): nat
    requires k <= |t|
  {
    if k == 0 then 0 else Waiting(t, k - 1) + if t[k - 1].app != 0 then 1 else 0
  }

  ghost predicate CountsOk(s: State) {
    s.decided + |s.taken| + Waiting(s.t.pending, |s.t.pending|) == |s.queued| && s.attempts <= s.decided
  }

  ghost predicate Bookkeeping(s: State) {
    RunningOk(s) && CondemnedOk(s) && QueueOk(s) && CountsOk(s)
  }

  lemma {:induction false} WaitingUpdated(t: seq<Crash>, i: nat, c: Crash, k: nat)
    requires i < |t| && k <= |t|
    ensures Waiting(t[i := c], k) + (if i < k && t[i].app != 0 then 1 else 0)
         == Waiting(t, k) + (if i < k && c.app != 0 then 1 else 0)
  {
    if k > 0 {
      WaitingUpdated(t, i, c, k - 1);
    }
  }

  lemma {:induction false} NothingWaiting(k: nat)
    requires k <= SLOTS
    ensures Waiting(Start().t.pending, k) == 0
  {
    if k > 0 {
      NothingWaiting(k - 1);
    }
  }

  lemma StartKept()
    ensures Bookkeeping(Start())
  {
    hide Waiting;
    NothingWaiting(SLOTS);
  }

  lemma LaunchKeeps(s: State, pid: nat, app: nat)
    requires Bookkeeping(s) && Enabled(s, Launch(pid, app))
    ensures Bookkeeping(After(s, Launch(pid, app)))
  {
    hide Waiting;
  }

  lemma ExitRunning(s: State, leader: nat, pid: nat, code: int)
    requires RunningOk(s)
    ensures RunningOk(AfterExit(s, leader, pid, code))
  {
    hide Launched, Leaders;
    LaunchedKept(s, AfterExit(s, leader, pid, code));
  }

  lemma LaunchedKept(s: State, s': State)
    requires s'.apps == s.apps
    ensures forall pid, app :: Launched(s', pid, app) <==> Launched(s, pid, app)
  {
  }

  lemma ExitCondemned(s: State, leader: nat, pid: nat, code: int)
    requires RunningOk(s) && CondemnedOk(s)
    ensures CondemnedOk(AfterExit(s, leader, pid, code))
  {
    hide Exited;
  }

  /** What an exit condemns is the app its leader was launched for. */
  lemma ExitCrash(s: State, leader: nat, pid: nat, code: int)
    requires RunningOk(s)
    ensures var crash := Exited(s.t.running, leader, pid, code).1;
            && (crash.Some? <==> DiesAbnormally(s.t.running, leader, code))
            && (crash.Some? ==> crash.value.leader == leader && Launched(s, leader, crash.value.app))
  {
  }

  lemma ExitQueue(s: State, leader: nat, pid: nat, code: int)
    requires RunningOk(s) && QueueOk(s)
    ensures QueueOk(AfterExit(s, leader, pid, code))
  {
    hide Exited, DiesAbnormally, RunningOk;
    ExitCrash(s, leader, pid, code);
    var s', crash := AfterExit(s, leader, pid, code), Exited(s.t.running, leader, pid, code).1;
    if crash.Some? {
      assert Leaders(s'.dying) == Leaders(s.dying) + [leader];
    }
  }

  lemma ExitCounts(s: State, leader: nat, pid: nat, code: int)
    requires CountsOk(s)
    ensures CountsOk(AfterExit(s, leader, pid, code))
  {
    hide Waiting;
  }

  lemma QueueKeeps(s: State, which: nat, locked: bool)
    requires Bookkeeping(s) && which < |s.dying|
    ensures QueueOk(AfterQueue(s, which, locked)) && CountsOk(AfterQueue(s, which, locked))
  {
    hide RunningOk, CondemnedOk, Waiting, AfterQueue;
    QueueHanded(s, which, locked);
    QueueCounted(s, which, locked);
  }

  lemma QueueHanded(s: State, which: nat, locked: bool)
    requires QueueOk(s) && which < |s.dying|
    ensures QueueOk(AfterQueue(s, which, locked))
  {
    hide Launched, Leaders, IndexOf, CrashApps;
    LaunchedKept(s, AfterQueue(s, which, locked));
    OneLess(s.dying, which);
  }

  lemma OneLess(cs: seq<Crash>, which: nat)
    requires which < |cs|
    ensures multiset(Leaders(cs)) == multiset(Leaders(Without(cs, which))) + multiset{cs[which].leader}
  {
    var ls := Leaders(cs);
    assert Leaders(Without(cs, which)) == ls[..which] + ls[which + 1..];
    assert ls == ls[..which] + [ls[which]] + ls[which + 1..];
  }

  lemma QueueCounted(s: State, which: nat, locked: bool)
    requires CountsOk(s) && which < |s.dying| && s.dying[which].app != 0
    ensures CountsOk(AfterQueue(s, which, locked))
  {
    hide Waiting;
    var i := IndexOf(CrashApps(s.t.pending), 0, 0);
    if i.Some? {
      WaitingUpdated(s.t.pending, i.value, s.dying[which], |s.t.pending|);
    }
  }

  lemma TakeKeeps(s: State)
    requires Bookkeeping(s)
    ensures Bookkeeping(AfterTake(s))
  {
    hide Waiting;
    var i := FirstUsed(CrashApps(s.t.pending), 0);
    if i.Some? {
      WaitingUpdated(s.t.pending, i.value, Crash(0, 0), |s.t.pending|);
    }
  }

  lemma DecideKeeps(s: State, which: nat, now: nat)
    requires Bookkeeping(s) && which < |s.taken|
    ensures Bookkeeping(AfterDecide(s, which, now))
  {
    hide Waiting, Recorded;
  }

  lemma StepKeeps(s: State, step: Step)
    requires Bookkeeping(s) && Enabled(s, step)
    ensures Bookkeeping(After(s, step))
  {
    hide RunningOk, CondemnedOk, QueueOk, Waiting, Exited, Queued, Taken, Recorded, Decided, AfterDecide, NotedRunning;
    match step
    case Launch(pid, app) => LaunchKeeps(s, pid, app);
    case Exit(leader, pid, code, locked) =>
      ExitRunning(s, leader, pid, code);
      ExitCondemned(s, leader, pid, code);
      ExitQueue(s, leader, pid, code);
      ExitCounts(s, leader, pid, code);
    case Queue(which, locked) =>
      QueueKeeps(s, which, locked);
      QueueElsewhere(s, which, locked);
    case Take(locked) => TakeKeeps(s);
    case Decide(which, now) => DecideKeeps(s, which, now);
  }

  lemma QueueElsewhere(s: State, which: nat, locked: bool)
    requires RunningOk(s) && CondemnedOk(s) && which < |s.dying|
    ensures RunningOk(AfterQueue(s, which, locked)) && CondemnedOk(AfterQueue(s, which, locked))
  {
  }

  // ── Runs ───────────────────────────────────────────────────────────────────

  ghost predicate IsRun(states: seq<State>, steps: seq<Step>) {
    && |states| == |steps| + 1 && states[0] == Start()
    && forall k :: 0 <= k < |steps| ==> Enabled(states[k], steps[k]) && states[k + 1] == After(states[k], steps[k])
  }

  lemma {:induction false} AlwaysKept(states: seq<State>, steps: seq<Step>, k: nat)
    requires IsRun(states, steps) && k < |states|
    ensures Bookkeeping(states[k])
  {
    hide Bookkeeping, After, Enabled, Start;
    if k == 0 {
      StartKept();
    } else {
      AlwaysKept(states, steps, k - 1);
      StepKeeps(states[k - 1], steps[k - 1]);
    }
  }

  /** In every run: no group leader is running and awaiting a relaunch at once, no launched
      instance is queued twice however its threads die, every queued crash is still waiting,
      taken or decided, each for the app its leader was launched for, and relaunches never
      outnumber abnormal deaths. */
  lemma CrashesCounted(states: seq<State>, steps: seq<Step>, k: nat)
    requires IsRun(states, steps) && k < |states|
    ensures var s := states[k];
            && (forall i, j :: 0 <= i < |s.t.running| && 0 <= j < |s.t.pending| ==>
                  s.t.running[i].pid == 0 || s.t.pending[j].app == 0
                  || s.t.running[i].pid != s.t.pending[j].leader)
            && NoRepeats(s.queued)
            && s.decided + |s.taken| + Waiting(s.t.pending, |s.t.pending|) == |s.queued|
            && (forall i :: 0 <= i < |s.taken| ==> Launched(s, s.taken[i].leader, s.taken[i].app))
            && s.attempts <= s.decided <= |s.queued| <= |s.condemned|
  {
    hide Waiting;
    AlwaysKept(states, steps, k);
    var s := states[k];
    QueuedOnce(s);
    assert forall p :: p in s.queued ==> p in multiset(s.queued) && p in multiset(s.condemned);
  }

  lemma QueuedOnce(s: State)
    requires NoRepeats(s.condemned) && multiset(s.queued) + multiset(Leaders(s.dying)) <= multiset(s.condemned)
    ensures NoRepeats(s.queued) && |s.queued| <= |s.condemned|
  {
    assert |multiset(s.queued)| == |s.queued| && |multiset(s.condemned)| == |s.condemned|;
    SubSize(multiset(s.queued), multiset(s.condemned));
    forall i, j | 0 <= i < j < |s.queued| ensures s.queued[i] != s.queued[j] {
      if s.queued[i] == s.queued[j] {
        TwiceIn(s.queued, i, j);
        OnceIn(s.condemned, s.queued[i]);
      }
    }
  }

  lemma SubSize(a: multiset<nat>, b: multiset<nat>)
    requires a <= b
    ensures |a| <= |b|
  {
    assert b == a + (b - a);
  }

  lemma TwiceIn(s: seq<nat>, i: nat, j: nat)
    requires i < j < |s| && s[i] == s[j]
    ensures multiset(s)[s[i]] >= 2
  {
    assert s == s[..j] + [s[j]] + s[j + 1..];
    assert s[i] in s[..j];
  }

  lemma {:induction false} OnceIn(s: seq<nat>, x: nat)
    requires NoRepeats(s)
    ensures multiset(s)[x] <= 1
  {
    if s != [] {
      var n := |s| - 1;
      OnceIn(s[..n], x);
      assert s == s[..n] + [s[n]];
      assert s[n] !in s[..n];
    }
  }

  // ── The rate of relaunches ─────────────────────────────────────────────────

  /** At most three attempts, all within the window's 30 seconds. */
  ghost predicate WindowOk(w: Window) {
    |w.times| <= 3 && forall i :: 0 <= i < |w.times| ==> w.start <= w.times[i] <= w.start + 30_000_000_000
  }

  /** Windows of one app begin more than 30 seconds apart. */
  ghost predicate WindowsOk(ws: seq<Window>) {
    && (forall i :: 0 <= i < |ws| ==> WindowOk(ws[i]))
    && (forall i :: 0 < i < |ws| ==> ws[i - 1].start + 30_000_000_000 < ws[i].start)
  }

  /** The backoff slot is the latest window. */
  ghost predicate Current(ws: seq<Window>, b: Backoff, clock: nat) {
    && ws != [] && WindowsOk(ws)
    && ws[|ws| - 1].start == b.start <= clock && |ws[|ws| - 1].times| == b.attempts <= MAX_RELAUNCHES
  }

  ghost predicate HistoryOk(t: seq<Backoff>, windows: map<nat, seq<Window>>, clock: nat) {
    && (forall i :: 0 <= i < |t| && t[i].app != 0 ==> t[i].app in windows && Current(windows[t[i].app], t[i], clock))
    && (forall i, j :: 0 <= i < j < |t| && t[i].app != 0 ==> t[i].app != t[j].app)
    && (forall app :: app in windows ==> app != 0 && app in BackoffApps(t))
  }

  ghost predicate RatesOk(s: State) {
    && HistoryOk(s.t.history, s.windows, s.clock)
    && forall i :: 0 <= i < |s.taken| ==> s.taken[i].app != 0
  }

  /** A decision keeps an app's windows well formed and its slot the latest of them. */
  lemma DecisionCurrent(ws: seq<Window>, b: Backoff, now: nat)
    requires if ws == [] then b.attempts == 0 && b.start == now else Current(ws, b, now)
    ensures var r := Renewed(b, now);
            var again := r.attempts < MAX_RELAUNCHES;
            var after := Recorded(map[b.app := ws], b.app, now, r, again)[b.app];
            Current(after, if again then r.(attempts := r.attempts + 1) else r, now)
  {
    hide Current, Renewed;
    var r := Renewed(b, now);
    GrownCurrent(ws, b, now);
    var g := Grown(ws, r.start);
    if r.attempts < MAX_RELAUNCHES {
      AttemptMade(g, r, now);
    } else {
      assert g[|g| - 1 := g[|g| - 1]] == g;
    }
  }

  lemma GrownCurrent(ws: seq<Window>, b: Backoff, now: nat)
    requires if ws == [] then b.attempts == 0 && b.start == now else Current(ws, b, now)
    ensures var r := Renewed(b, now);
            Current(Grown(ws, r.start), r, now) && now <= r.start + WINDOW_NS
  {
  }

  lemma AttemptMade(ws: seq<Window>, b: Backoff, now: nat)
    requires Current(ws, b, now) && now <= b.start + WINDOW_NS && b.attempts < MAX_RELAUNCHES
    ensures var n := |ws| - 1;
            Current(ws[n := ws[n].(times := ws[n].times + [now])], b.(attempts := b.attempts + 1), now)
  {
  }

  lemma RecordedElsewhere(windows: map<nat, seq<Window>>, app: nat, now: nat, b: Backoff, again: bool)
    ensures var after := Recorded(windows, app, now, b, again);
            && after.Keys == windows.Keys + {app}
            && (forall other :: other in windows && other != app ==> after[other] == windows[other])
            && after[app] == Recorded(map[app := if app in windows then windows[app] else []], app, now, b, again)[app]
  {
  }

  lemma Later(ws: seq<Window>, b: Backoff, clock: nat, now: nat)
    requires Current(ws, b, clock) && clock <= now
    ensures Current(ws, b, now)
  {
  }

  lemma SlotIs(t: seq<Backoff>, windows: map<nat, seq<Window>>, clock: nat, app: nat, now: nat)
    requires HistoryOk(t, windows, clock) && app != 0
    ensures var slot := BackoffSlot(t, app, now);
            slot.Some? ==>
              var (i, b) := slot.value;
              && i < |t| && b.app == app && (t[i].app == app || (t[i].app == 0 && app !in windows))
              && (forall j :: 0 <= j < |t| && j != i ==> t[j].app != app)
              && (if app in windows then Current(windows[app], b, clock) else b.attempts == 0 && b.start == now)
  {
    hide Current;
    var slot := BackoffSlot(t, app, now);
    if slot.Some? && app in windows {
      assert app in BackoffApps(t);
    }
  }

  /** Updating one app's slot and windows together. */
  lemma HistoryAfter(t: seq<Backoff>, windows: map<nat, seq<Window>>, after: map<nat, seq<Window>>,
                     i: nat, b: Backoff, app: nat, now: nat)
    requires HistoryOk(t, windows, now) && i < |t| && b.app == app != 0
    requires t[i].app == app || (t[i].app == 0 && app !in windows)
    requires forall j :: 0 <= j < |t| && j != i ==> t[j].app != app
    requires after.Keys == windows.Keys + {app} && Current(after[app], b, now)
    requires forall other :: other in windows && other != app ==> after[other] == windows[other]
    ensures HistoryOk(t[i := b], after, now)
  {
    hide Current, BackoffApps;
    KeysAfter(t, i, b, windows, after, app);
  }

  lemma HistoryLater(t: seq<Backoff>, windows: map<nat, seq<Window>>, clock: nat, now: nat)
    requires HistoryOk(t, windows, clock) && clock <= now
    ensures HistoryOk(t, windows, now)
  {
    hide Current, BackoffApps;
    forall i | 0 <= i < |t| && t[i].app != 0 ensures Current(windows[t[i].app], t[i], now) {
      Later(windows[t[i].app], t[i], clock, now);
    }
  }

  lemma DecideRates(s: State, which: nat, now: nat)
    requires RatesOk(s) && Enabled(s, Decide(which, now))
    ensures RatesOk(AfterDecide(s, which, now))
  {
    hide Current, Recorded, BackoffSlot, Renewed, HistoryOk;
    var app := s.taken[which].app;
    var t, s' := s.t.history, AfterDecide(s, which, now);
    HistoryLater(t, s.windows, s.clock, now);
    SlotIs(t, s.windows, now, app, now);
    var slot := BackoffSlot(t, app, now);
    if slot.Some? {
      var (i, b) := slot.value;
      var ws := if app in s.windows then s.windows[app] else [];
      var r := Renewed(b, now);
      RenewedApp(b, now);
      CurrentNonEmpty(s.windows, app, b, now);
      DecisionCurrent(ws, b, now);
      RecordedElsewhere(s.windows, app, now, r, r.attempts < MAX_RELAUNCHES);
      HistoryAfter(t, s.windows, s'.windows, i, s'.t.history[i], app, now);
    }
  }

  lemma CurrentNonEmpty(windows: map<nat, seq<Window>>, app: nat, b: Backoff, clock: nat)
    requires app in windows ==> Current(windows[app], b, clock)
    ensures app in windows ==> windows[app] != []
  {
  }

  lemma RenewedApp(b: Backoff, now: nat)
    ensures Renewed(b, now).app == b.app
  {
  }

  lemma KeysAfter(t: seq<Backoff>, i: nat, b: Backoff, windows: map<nat, seq<Window>>,
                  after: map<nat, seq<Window>>, app: nat)
    requires i < |t| && b.app == app != 0 && after.Keys == windows.Keys + {app}
    requires t[i].app == app || (t[i].app == 0 && app !in windows)
    requires forall a :: a in windows ==> a != 0 && a in BackoffApps(t)
    ensures forall a :: a in after ==> a != 0 && a in BackoffApps(t[i := b])
  {
    forall a | a in after ensures a != 0 && a in BackoffApps(t[i := b]) {
      if a == app {
        assert BackoffApps(t[i := b])[i] == app;
      } else {
        var j :| 0 <= j < |t| && BackoffApps(t)[j] == a;
        assert BackoffApps(t[i := b])[j] == a;
      }
    }
  }

  lemma StepRates(s: State, step: Step)
    requires RatesOk(s) && QueueOk(s) && Enabled(s, step)
    ensures RatesOk(After(s, step))
  {
    hide HistoryOk, AfterDecide, Exited, Queued, NotedRunning;
    if step.Decide? {
      DecideRates(s, step.which, step.now);
    }
  }

  lemma {:induction false} AlwaysRated(states: seq<State>, steps: seq<Step>, k: nat)
    requires IsRun(states, steps) && k < |states|
    ensures RatesOk(states[k])
  {
    hide RatesOk, RunningOk, CondemnedOk, QueueOk, CountsOk, After, Enabled;
    if k == 0 {
      StartRated();
    } else {
      AlwaysKept(states, steps, k - 1);
      AlwaysRated(states, steps, k - 1);
      StepRates(states[k - 1], steps[k - 1]);
    }
  }

  lemma StartRated()
    ensures RatesOk(Start())
  {
  }

  /** Attempts of a window that fall in the 30 seconds from `t` on. */
  function InInterval(times: seq<nat>, t: nat): nat {
    if times == [] then 0
    else InInterval(times[..|times| - 1], t) + if t <= times[|times| - 1] <= t + 30_000_000_000 then 1 else 0
  }

  function AttemptsIn(ws: seq<Window>, t: nat): nat {
    if ws == [] then 0 else AttemptsIn(ws[..|ws| - 1], t) + InInterval(ws[|ws| - 1].times, t)
  }

  lemma {:induction false} AtMostAll(times: seq<nat>, t: nat)
    ensures InInterval(times, t) <= |times|
  {
    if times != [] {
      AtMostAll(times[..|times| - 1], t);
    }
  }

  lemma {:induction false} NoneBefore(times: seq<nat>, t: nat)
    requires forall i :: 0 <= i < |times| ==> times[i] < t
    ensures InInterval(times, t) == 0
  {
    if times != [] {
      NoneBefore(times[..|times| - 1], t);
    }
  }

  lemma {:induction false} NoneAfter(times: seq<nat>, t: nat)
    requires forall i :: 0 <= i < |times| ==> times[i] > t + WINDOW_NS
    ensures InInterval(times, t) == 0
  {
    if times != [] {
      NoneAfter(times[..|times| - 1], t);
    }
  }

  /** Windows that began more than 30 seconds before `t` have no attempt from `t` on. */
  lemma {:induction false} OldWindows(ws: seq<Window>, t: nat)
    requires WindowsOk(ws) && (ws != [] ==> ws[|ws| - 1].start + WINDOW_NS < t)
    ensures AttemptsIn(ws, t) == 0
  {
    if ws != [] {
      var n := |ws| - 1;
      NoneBefore(ws[n].times, t);
      OldWindows(ws[..n], t);
    }
  }

  /** Any 30 seconds see attempts of at most two windows, so at most six. */
  lemma {:induction false} AtMostSix(ws: seq<Window>, t: nat)
    requires WindowsOk(ws)
    ensures AttemptsIn(ws, t) <= 2 * MAX_RELAUNCHES
  {
    if ws != [] {
      var n := |ws| - 1;
      assert WindowsOk(ws[..n]);
      if ws[n].start > t + WINDOW_NS {
        NoneAfter(ws[n].times, t);
        AtMostSix(ws[..n], t);
      } else {
        AtMostAll(ws[n].times, t);
        if n > 0 {
          AtMostAll(ws[n - 1].times, t);
          assert ws[..n][..n - 1] == ws[..n - 1] && WindowsOk(ws[..n - 1]);
          OldWindows(ws[..n - 1], t);
        }
      }
    }
  }

  /** Over every run with a monotone clock an app is relaunched at most three times a window,
      windows begin more than 30 seconds apart, and any 30 seconds hold at most six relaunches. */
  lemma RelaunchRate(states: seq<State>, steps: seq<Step>, k: nat, app: nat, t: nat)
    requires IsRun(states, steps) && k < |states| && app in states[k].windows
    ensures var ws := states[k].windows[app];
            WindowsOk(ws) && AttemptsIn(ws, t) <= 6
  {
    AlwaysRated(states, steps, k);
    var s := states[k];
    assert app in BackoffApps(s.t.history);
    var i :| 0 <= i < |s.t.history| && BackoffApps(s.t.history)[i] == app;
    assert Current(s.windows[s.t.history[i].app], s.t.history[i], s.clock);
    AtMostSix(s.windows[app], t);
  }

  /** A first crash is relaunched: from the start, launching an app, an abnormal death of any of its
      threads, and the four lock sections that follow make one attempt, at the time of the decision. */
  lemma CrashIsRelaunched(pid: nat, app: nat, thread: nat, code: int, now: nat)
      returns (states: seq<State>, steps: seq<Step>)
    requires pid != 0 && app != 0 && code != 0
    ensures IsRun(states, steps)
    ensures steps == [Launch(pid, app), Exit(pid, thread, code, false), Queue(0, false), Take(false), Decide(0, now)]
    ensures var s := states[|steps|];
            && s.attempts == s.decided == 1 && s.windows == map[app := [Window(now, [now])]]
            && |s.t.history| == 8 && s.t.history[0] == Backoff(app, 1, now) && s.t.running == Start().t.running && s.t.pending == Start().t.pending
  {
    hide Pids, CrashApps, BackoffApps;
    var s0 := Start();
    steps := [Launch(pid, app), Exit(pid, thread, code, false), Queue(0, false), Take(false), Decide(0, now)];
    var s1 := After(s0, steps[0]);
    assert s1.t.running == s0.t.running[0 := Running(pid, app)];
    var s2 := After(s1, steps[1]);
    assert s2.t.running == s0.t.running && s2.dying == [Crash(app, pid)];
    var s3 := After(s2, steps[2]);
    assert s3.dying == [] && s3.t.pending == s0.t.pending[0 := Crash(app, pid)];
    var s4 := After(s3, steps[3]);
    assert s4.t.pending == s0.t.pending && s4.taken == [Crash(app, pid)];
    var s5 := After(s4, steps[4]);
    FirstWindow(s4.t.history, app, now);
    assert Grown([], now) == [Window(now, [])] && [] + [now] == [now];
    assert s5.windows[app] == [Window(now, [now])];
    states := [s0, s1, s2, s3, s4, s5];
  }

  lemma FirstWindow(t: seq<Backoff>, app: nat, now: nat)
    requires t == Start().t.history && app != 0
    ensures BackoffSlot(t, app, now) == Some((0, Backoff(app, 0, now)))
    ensures Decided(t, app, now) == (t[0 := Backoff(app, 1, now)], true)
  {
  }

  // ── The tables as the kernel keeps them ────────────────────────────────────

  class Recovery {
    var running: seq<Running>
    var pending: seq<Crash>
    var history: seq<Backoff>

    function Now(): Tables
      reads this
    {
      Tables(running, pending, history)
    }

    constructor ()
      ensures Now() == Start().t && |running| == |pending| == |history| == 8
    {
      running := seq(SLOTS, _ => Running(0, 0));
      pending := seq(SLOTS, _ => Crash(0, 0));
      history := seq(SLOTS, _ => Backoff(0, 0, 0));
    }

    method FindRunning(pid: nat) returns (r: Option<nat>)
      ensures r == IndexOf(Pids(running), pid, 0)
    {
      var i := 0;
      while i < |running|
        invariant 0 <= i <= |running|
        invariant IndexOf(Pids(running), pid, 0) == IndexOf(Pids(running), pid, i)
      {
        if running[i].pid == pid {
          return Some(i);
        }
        i := i + 1;
      }
      return None;
    }

    method FindPending(free: bool) returns (r: Option<nat>)
      ensures r == if free then IndexOf(CrashApps(pending), 0, 0) else FirstUsed(CrashApps(pending), 0)
    {
      var i := 0;
      while i < |pending|
        invariant 0 <= i <= |pending|
        invariant free ==> IndexOf(CrashApps(pending), 0, 0) == IndexOf(CrashApps(pending), 0, i)
        invariant !free ==> FirstUsed(CrashApps(pending), 0) == FirstUsed(CrashApps(pending), i)
      {
        if (pending[i].app == 0) == free {
          return Some(i);
        }
        i := i + 1;
      }
      return None;
    }

    method FindBackoff(app: nat) returns (r: Option<nat>)
      ensures r == IndexOf(BackoffApps(history), app, 0)
    {
      var i := 0;
      while i < |history|
        invariant 0 <= i <= |history|
        invariant IndexOf(BackoffApps(history), app, 0) == IndexOf(BackoffApps(history), app, i)
      {
        if history[i].app == app {
          return Some(i);
        }
        i := i + 1;
      }
      return None;
    }

    method NoteRunning(pid: nat, app: nat)
      modifies this`running
      ensures running == NotedRunning(old(running), pid, app)
    {
      var slot := FindRunning(0);
      if slot.Some? {
        running := running[slot.value := Running(pid, app)];
      }
    }

    /** Both lock sections of an exit, either of which is skipped when its lock is taken. */
    method NoteThreadExit(leader: nat, pid: nat, code: int, runningLocked: bool, pendingLocked: bool)
      modifies this`running, this`pending
      ensures running == if runningLocked then old(running) else Exited(old(running), leader, pid, code).0
      ensures var crash := Exited(old(running), leader, pid, code).1;
              pending == if runningLocked || crash.None? || pendingLocked then old(pending)
                         else Queued(old(pending), crash.value).0
    {
      if runningLocked || leader == 0 {
        return;
      }
      var slot := FindRunning(leader);
      if slot.None? {
        return;
      }
      var app := running[slot.value].app;
      if code == 0 {
        if pid == leader {
          running := running[slot.value := Running(0, 0)];
        }
        return;
      }
      running := running[slot.value := Running(0, 0)];
      if !pendingLocked {
        var free := FindPending(true);
        if free.Some? {
          pending := pending[free.value := Crash(app, leader)];
        }
      }
    }

    method TakePending() returns (crash: Option<Crash>)
      modifies this`pending
      ensures (pending, crash) == Taken(old(pending))
    {
      var slot := FindPending(false);
      if slot.None? {
        return None;
      }
      crash := Some(pending[slot.value]);
      pending := pending[slot.value := Crash(0, 0)];
    }

    method DecideRelaunch(app: nat, now: nat) returns (again: bool)
      modifies this`history
      ensures (history, again) == Decided(old(history), app, now)
    {
      hide IndexOf;
      var at := FindBackoff(app);
      var b: Backoff;
      if at.Some? {
        b := history[at.value];
      } else {
        at := FindBackoff(0);
        if at.None? {
          return false;
        }
        b := Backoff(app, 0, now);
      }
      b := Renewed(b, now);
      if b.attempts >= MAX_RELAUNCHES {
        history := history[at.value := b];
        return false;
      }
      history := history[at.value := b.(attempts := b.attempts + 1)];
      return true;
    }
  }
}
