/** The cache of on-demand packages: sixteen entries, some pinned, the least recently used
    unpinned one evicted when a new package finds no free entry. */
module PackageCache {

  import opened Options

  const MAX_CACHED: nat := 16

  type Hash = seq<bv8>

  datatype Entry = Entry(active: bool, app: nat, hash: Hash, lastUsed: nat, pinned: bool)

  type Entries = seq<Entry>

  // ── The operations as functions ────────────────────────────────────────────

  /** The first active entry with that hash. */
  function ByHash(es: Entries, hash: Hash, k: nat): (r: Option<nat>)
    requires k <= |es|
    ensures r.Some? ==> k <= r.value < |es| && es[r.value].active && es[r.value].hash == hash
    ensures r.None? ==> forall i :: k <= i < |es| ==> !(es[i].active && es[i].hash == hash)
    decreases |es| - k
  {
    if k == |es| then None
    else if es[k].active && es[k].hash == hash then Some(k)
    else ByHash(es, hash, k + 1)
  }

  /** The first active entry of that app. */
  function ByApp(es: Entries, app: nat, k: nat): (r: Option<nat>)
    requires k <= |es|
    ensures r.Some? ==> k <= r.value < |es| && es[r.value].active && es[r.value].app == app
    ensures r.None? ==> forall i :: k <= i < |es| ==> !(es[i].active && es[i].app == app)
    decreases |es| - k
  {
    if k == |es| then None
    else if es[k].active && es[k].app == app then Some(k)
    else ByApp(es, app, k + 1)
  }

  function FirstFree(es: Entries, k: nat): (r: Option<nat>)
    requires k <= |es|
    ensures r.Some? ==> k <= r.value < |es| && !es[r.value].active
    ensures r.None? ==> forall i :: k <= i < |es| ==> es[i].active
    decreases |es| - k
  {
    if k == |es| then None else if !es[k].active then Some(k) else FirstFree(es, k + 1)
  }

  predicate Evictable(e: Entry) {
    e.active && !e.pinned
  }

  /** The least recently used evictable entry among the first `k`, the earliest of equals. */
  function Victim(es: Entries, k: nat): (r: Option<nat>)
    requires k <= |es|
    ensures r.Some? ==> r.value < k && Evictable(es[r.value])
    ensures r.Some? ==> forall i :: 0 <= i < k && Evictable(es[i]) ==> es[r.value].lastUsed <= es[i].lastUsed
    ensures r.None? ==> forall i :: 0 <= i < k ==> !Evictable(es[i])
  {
    if k == 0 then None
    else
      var best := Victim(es, k - 1);
      if Evictable(es[k - 1]) && (best.None? || es[k - 1].lastUsed < es[best.value].lastUsed) then Some(k - 1)
      else best
  }

  /** Where an insert goes. */
  function Place(es: Entries): (r: Option<nat>)
    ensures r.Some? ==> r.value < |es|
  {
    if FirstFree(es, 0).Some? then FirstFree(es, 0) else Victim(es, |es|)
  }

  function Inserted(es: Entries, app: nat, hash: Hash, pinned: bool, now: nat): (Entries, bool) {
    match Place(es)
    case None => (es, false)
    case Some(i) => (es[i := Entry(true, app, hash, now, pinned)], true)
  }

  function Used(es: Entries, at: Option<nat>, now: nat): Entries
    requires at.Some? ==> at.value < |es|
  {
    match at
    case None => es
    case Some(i) => es[i := es[i].(lastUsed := now)]
  }

  function Removed(es: Entries, app: nat): (Entries, bool) {
    match ByApp(es, app, 0)
    case None => (es, false)
    case Some(i) => if es[i].pinned then (es, false) else (es[i := es[i].(active := false)], true)
  }

  // ── Runs ───────────────────────────────────────────────────────────────────

  datatype Op =
    | Lookup(hash: Hash)
    | Insert(app: nat, hash: Hash, pinned: bool)
    | Remove(app: nat)
    | Touch(app: nat)

  datatype Use = Use(app: nat, time: nat)

  /** The entries, the clock, and the record of every use of an app, which no operation reads. */
  datatype State = State(entries: Entries, clock: nat, uses: seq<Use>)

  /** The clock never goes back, though many operations may share a tick; and an app is inserted
      under an id that is not cached. */
  predicate Enabled(s: State, op: Op, now: nat) {
    s.clock <= now && (op.Insert? ==> ByApp(s.entries, op.app, 0).None?)
  }

  function Hit(es: Entries, op: Op): (r: Option<nat>)
    ensures r.Some? ==> r.value < |es| && es[r.value].active
  {
    match op
    case Lookup(hash) => ByHash(es, hash, 0)
    case Touch(app) => ByApp(es, app, 0)
    case _ => None
  }

  function After(s: State, op: Op, now: nat): State {
    var es := s.entries;
    match op
    case Insert(app, hash, pinned) =>
      var (es', ok) := Inserted(es, app, hash, pinned, now);
      State(es', now, if ok then s.uses + [Use(app, now)] else s.uses)
    case Remove(app) => State(Removed(es, app).0, now, s.uses)
    case _ =>
      var at := Hit(es, op);
      State(Used(es, at, now), now, if at.Some? then s.uses + [Use(es[at.value].app, now)] else s.uses)
  }

  function Start(): State {
    State(seq(MAX_CACHED, _ => Entry(false, 0, [], 0, false)), 0, [])
  }

  /** Any operations at any times. */
  ghost predicate IsTrace(states: seq<State>, ops: seq<Op>, times: seq<nat>) {
    && |states| == |ops| + 1 && |times| == |ops| && states[0] == Start()
    && forall k :: 0 <= k < |ops| ==> states[k + 1] == After(states[k], ops[k], times[k])
  }

  ghost predicate IsRun(states: seq<State>, ops: seq<Op>, times: seq<nat>) {
    IsTrace(states, ops, times) && forall k :: 0 <= k < |ops| ==> Enabled(states[k], ops[k], times[k])
  }

  /** An active entry's time is its app's last use. */
  ghost predicate Dated(s: State) {
    && (forall i :: 0 <= i < |s.uses| ==> s.uses[i].time <= s.clock)
    && (forall i :: 0 <= i < |s.entries| && s.entries[i].active ==> LastUse(s.uses, s.entries[i]))
  }

  ghost predicate LastUse(uses: seq<Use>, e: Entry) {
    Use(e.app, e.lastUsed) in uses && forall i :: 0 <= i < |uses| && uses[i].app == e.app ==> uses[i].time <= e.lastUsed
  }

  ghost predicate DistinctApps(es: Entries) {
    forall i, j :: 0 <= i < j < |es| && es[i].active && es[j].active ==> es[i].app != es[j].app
  }

  ghost predicate Inv(s: State) {
    |s.entries| == MAX_CACHED && Dated(s) && DistinctApps(s.entries)
  }

  lemma UsedLater(uses: seq<Use>, u: Use, e: Entry)
    requires LastUse(uses, e) && e.app != u.app
    ensures LastUse(uses + [u], e)
  {
  }

  lemma UsedNow(uses: seq<Use>, u: Use, e: Entry)
    requires e.app == u.app && e.lastUsed == u.time && forall i :: 0 <= i < |uses| ==> uses[i].time <= u.time
    ensures LastUse(uses + [u], e)
  {
  }

  /** Entry `i` is used or replaced at `now`, all other active entries are other apps'. */
  lemma UseKeeps(s: State, i: nat, e: Entry, now: nat)
    requires Inv(s) && s.clock <= now && i < |s.entries| && e.active && e.lastUsed == now
    requires forall j :: 0 <= j < |s.entries| && j != i && s.entries[j].active ==> s.entries[j].app != e.app
    ensures Inv(State(s.entries[i := e], now, s.uses + [Use(e.app, now)]))
  {
    hide LastUse;
    var u := Use(e.app, now);
    UsedNow(s.uses, u, e);
    forall j | 0 <= j < |s.entries| && j != i && s.entries[j].active ensures LastUse(s.uses + [u], s.entries[j]) {
      UsedLater(s.uses, u, s.entries[j]);
    }
  }

  lemma StepKeeps(s: State, op: Op, now: nat)
    requires Inv(s) && Enabled(s, op, now)
    ensures Inv(After(s, op, now))
  {
    hide LastUse, Victim;
    var es := s.entries;
    match op
    case Insert(app, hash, pinned) =>
      var place := Place(es);
      if place.Some? {
        UseKeeps(s, place.value, Entry(true, app, hash, now, pinned), now);
      }
    case Remove(app) =>
    case _ =>
      var at := Hit(es, op);
      if at.Some? {
        UseKeeps(s, at.value, es[at.value].(lastUsed := now), now);
      }
  }

  lemma {:induction false} AlwaysInv(states: seq<State>, ops: seq<Op>, times: seq<nat>, k: nat)
    requires IsRun(states, ops, times) && k < |states|
    ensures Inv(states[k])
  {
    hide Dated, DistinctApps, After, Enabled;
    if k == 0 {
      StartInv();
    } else {
      AlwaysInv(states, ops, times, k - 1);
      StepKeeps(states[k - 1], ops[k - 1], times[k - 1]);
    }
  }

  lemma StartInv()
    ensures Inv(Start())
  {
  }

  /** A successful insert caches the app under its hash; it fails only when all are pinned. */
  lemma InsertMeans(s: State, app: nat, hash: Hash, pinned: bool, now: nat)
    requires Inv(s) && ByApp(s.entries, app, 0).None?
    ensures var (es', ok) := Inserted(s.entries, app, hash, pinned, now);
            && (ok <==> exists i :: 0 <= i < |s.entries| && !(s.entries[i].active && s.entries[i].pinned))
            && (ok ==> ByApp(es', app, 0).Some? && es'[ByApp(es', app, 0).value] == Entry(true, app, hash, now, pinned))
  {
    hide Victim, Dated;
    var place := Place(s.entries);
    if place.Some? {
      var es' := Inserted(s.entries, app, hash, pinned, now).0;
      assert es'[place.value].app == app && es'[place.value].active;
    }
  }

  /** A successful remove leaves the app uncached and every other entry alone; it fails only
      for an app that is pinned or not cached. */
  lemma RemoveMeans(s: State, app: nat)
    requires Inv(s)
    ensures var (es', ok) := Removed(s.entries, app);
            && (ok <==> exists i :: 0 <= i < |s.entries| && Evictable(s.entries[i]) && s.entries[i].app == app)
            && (ok ==> ByApp(es', app, 0).None?)
            && forall i :: 0 <= i < |s.entries| && s.entries[i].app != app ==> es'[i] == s.entries[i]
  {
    hide Dated;
  }

  // ── Pinned apps ────────────────────────────────────────────────────────────

  ghost predicate Pinned(es: Entries, i: nat, app: nat, hash: Hash) {
    i < |es| && es[i].active && es[i].pinned && es[i].app == app && es[i].hash == hash
  }

  lemma PinnedKept(s: State, op: Op, now: nat, i: nat, app: nat, hash: Hash)
    requires Pinned(s.entries, i, app, hash)
    ensures Pinned(After(s, op, now).entries, i, app, hash)
  {
    hide Victim;
  }

  /** A pinned app, once cached, stays cached whatever is done afterwards and whenever. */
  lemma {:induction false} PinnedForever(states: seq<State>, ops: seq<Op>, times: seq<nat>, k: nat, n: nat,
                                         i: nat, app: nat, hash: Hash)
    requires IsTrace(states, ops, times) && k <= n < |states| && Pinned(states[k].entries, i, app, hash)
    ensures Pinned(states[n].entries, i, app, hash)
    decreases n - k
  {
    hide Pinned, After;
    if k < n {
      PinnedKept(states[k], ops[k], times[k], i, app, hash);
      PinnedForever(states, ops, times, k + 1, n, i, app, hash);
    }
  }

  // ── Eviction ───────────────────────────────────────────────────────────────

  /** The apps used at that time or later. */
  ghost function UsedFrom(uses: seq<Use>, time: nat): set<nat> {
    set i | 0 <= i < |uses| && uses[i].time >= time :: uses[i].app
  }

  function PinnedCount(es: Entries, k: nat): nat
    requires k <= |es|
  {
    if k == 0 then 0 else PinnedCount(es, k - 1) + if es[k - 1].active && es[k - 1].pinned then 1 else 0
  }

  /** The apps of the evictable entries below `k` other than entry `v`. */
  ghost function Others(es: Entries, v: nat, k: nat): set<nat>
    requires k <= |es|
  {
    if k == 0 then {}
    else Others(es, v, k - 1) + if k - 1 != v && Evictable(es[k - 1]) then {es[k - 1].app} else {}
  }

  lemma {:induction false} OthersAre(es: Entries, v: nat, k: nat, app: nat)
    requires k <= |es|
    ensures app in Others(es, v, k) <==> exists j :: 0 <= j < k && j != v && Evictable(es[j]) && es[j].app == app
  {
    if k > 0 {
      OthersAre(es, v, k - 1, app);
    }
  }

  lemma {:induction false} OthersCount(es: Entries, v: nat, k: nat)
    requires k <= |es| && DistinctApps(es) && v < |es| && Evictable(es[v])
    requires forall j :: 0 <= j < |es| ==> es[j].active
    ensures |Others(es, v, k)| + PinnedCount(es, k) + (if v < k then 1 else 0) == k
  {
    if k > 0 {
      OthersCount(es, v, k - 1);
      OthersAre(es, v, k - 1, es[k - 1].app);
    }
  }

  predicate Evicts(s: State, op: Op) {
    op.Insert? && FirstFree(s.entries, 0).None? && Victim(s.entries, |s.entries|).Some?
  }

  function Evicted(s: State): Entry
    requires Victim(s.entries, |s.entries|).Some?
  {
    s.entries[Victim(s.entries, |s.entries|).value]
  }

  lemma EvictedGone(s: State, op: Op, now: nat)
    requires Inv(s) && Evicts(s, op) && Enabled(s, op, now)
    ensures var v := Evicted(s);
            Evictable(v) && LastUse(s.uses, v) && ByApp(After(s, op, now).entries, v.app, 0).None?
  {
    hide Victim, LastUse;
  }

  lemma OthersUsedSince(s: State, op: Op, now: nat, app: nat)
    requires Inv(s) && Evicts(s, op) && Enabled(s, op, now)
    requires app in Others(s.entries, Victim(s.entries, MAX_CACHED).value, MAX_CACHED)
    ensures app in UsedFrom(s.uses + [Use(op.app, now)], Evicted(s).lastUsed) && app !in {op.app, Evicted(s).app}
  {
    hide Victim, LastUse, UsedFrom;
    var es, i := s.entries, Victim(s.entries, MAX_CACHED).value;
    OthersAre(es, i, MAX_CACHED, app);
    var j :| 0 <= j < MAX_CACHED && j != i && Evictable(es[j]) && es[j].app == app;
    UsedSince(s, j, es[i].lastUsed, now, op.app);
  }

  lemma NewcomerUsed(s: State, app: nat, now: nat, v: Entry)
    requires Inv(s) && s.clock <= now && LastUse(s.uses, v)
    ensures app in UsedFrom(s.uses + [Use(app, now)], v.lastUsed)
  {
    var uses := s.uses + [Use(app, now)];
    assert uses[|s.uses|] == Use(app, now);
    var x :| 0 <= x < |s.uses| && s.uses[x] == Use(v.app, v.lastUsed);
  }

  /** An insert evicts an app only when every other unpinned app was last used no earlier: at
      least 16 - pinned distinct other apps, counting the newcomer, were used at its last use
      or since. */
  lemma EvictedIsOldest(s: State, op: Op, now: nat)
    requires Inv(s) && Evicts(s, op) && Enabled(s, op, now)
    ensures var v := Evicted(s);
            var s' := After(s, op, now);
            var since := UsedFrom(s'.uses, v.lastUsed) - {v.app};
            && !v.pinned && LastUse(s.uses, v) && ByApp(s'.entries, v.app, 0).None? && op.app in since
            && |since| >= MAX_CACHED - PinnedCount(s.entries, MAX_CACHED)
  {
    hide Victim, LastUse, UsedFrom, Others, PinnedCount;
    EvictedGone(s, op, now);
    var es, i := s.entries, Victim(s.entries, MAX_CACHED).value;
    NewcomerUsed(s, op.app, now, es[i]);
    var since := UsedFrom(s.uses + [Use(op.app, now)], es[i].lastUsed) - {es[i].app};
    var others := Others(es, i, MAX_CACHED);
    forall app | app in others ensures app in since && app != op.app {
      OthersUsedSince(s, op, now, app);
    }
    OthersCount(es, i, MAX_CACHED);
    SubsetSize(others + {op.app}, since);
  }

  /** The same for every eviction of every run, however many operations share a tick. */
  lemma EveryEviction(states: seq<State>, ops: seq<Op>, times: seq<nat>, k: nat)
    requires IsRun(states, ops, times) && k < |ops| && Evicts(states[k], ops[k])
    ensures var v := Evicted(states[k]);
            var since := UsedFrom(states[k + 1].uses, v.lastUsed) - {v.app};
            && !v.pinned && LastUse(states[k].uses, v)
            && |since| >= MAX_CACHED - PinnedCount(states[k].entries, |states[k].entries|)
  {
    hide After, Victim, LastUse, UsedFrom, PinnedCount, Enabled;
    AlwaysInv(states, ops, times, k);
    EvictedIsOldest(states[k], ops[k], times[k]);
  }

  /** Another unpinned app was used strictly after the victim exactly when the two last uses
      did not fall in one tick. */
  lemma StrictlyLaterUnlessTied(s: State, op: Op, j: nat)
    requires Inv(s) && Evicts(s, op) && j < MAX_CACHED && Evictable(s.entries[j])
    requires j != Victim(s.entries, MAX_CACHED).value
    ensures s.entries[j].app in UsedFrom(s.uses, Evicted(s).lastUsed + 1) <==>
              s.entries[j].lastUsed != Evicted(s).lastUsed
  {
    hide Victim;
    var e, v := s.entries[j], Evicted(s);
    var y :| 0 <= y < |s.uses| && s.uses[y] == Use(e.app, e.lastUsed);
    assert LastUse(s.uses, e) && v.lastUsed <= e.lastUsed;
  }

  lemma SubsetSize(a: set<nat>, b: set<nat>)
    requires a <= b
    ensures |a| <= |b|
  {
    assert b == a + (b - a);
  }

  lemma UsedSince(s: State, j: nat, time: nat, now: nat, newcomer: nat)
    requires Inv(s) && j < |s.entries| && s.entries[j].active && time <= s.entries[j].lastUsed
    ensures s.entries[j].app in UsedFrom(s.uses + [Use(newcomer, now)], time)
  {
    var b := s.entries[j];
    var y :| 0 <= y < |s.uses| && s.uses[y] == Use(b.app, b.lastUsed);
    assert (s.uses + [Use(newcomer, now)])[y] == s.uses[y];
  }

  // ── Ties ───────────────────────────────────────────────────────────────────

  /** Apps 0 and 1 inserted and 0 touched again in tick 1, then apps 2 to `n` - 1 in tick 2. */
  function TiedUses(n: nat): seq<Use>
    requires n >= 2
  {
    if n == 2 then [Use(0, 1), Use(1, 1), Use(0, 1)] else TiedUses(n - 1) + [Use(n - 1, 2)]
  }

  function Tied(n: nat): State
    requires 2 <= n <= MAX_CACHED
  {
    State(seq(MAX_CACHED, i => if 0 <= i < n then Entry(true, i, [], if i < 2 then 1 else 2, false)
                               else Entry(false, 0, [], 0, false)),
          if n == 2 then 1 else 2, TiedUses(n))
  }

  lemma {:induction false} TiedFree(n: nat, k: nat)
    requires 2 <= n < MAX_CACHED && k <= n
    ensures FirstFree(Tied(n).entries, k) == Some(n)
    decreases n - k
  {
    if k < n {
      TiedFree(n, k + 1);
    }
  }

  lemma TiedStep(n: nat)
    requires 2 <= n < MAX_CACHED
    ensures Enabled(Tied(n), Insert(n, [], false), 2) && After(Tied(n), Insert(n, [], false), 2) == Tied(n + 1)
  {
    hide FirstFree, ByApp;
    TiedFree(n, 0);
    var s, t := After(Tied(n), Insert(n, [], false), 2), Tied(n + 1);
    assert s.entries == t.entries;
  }

  lemma Longer(states: seq<State>, ops: seq<Op>, times: seq<nat>, op: Op, now: nat)
    returns (states': seq<State>, ops': seq<Op>, times': seq<nat>)
    requires IsRun(states, ops, times) && Enabled(states[|ops|], op, now)
    ensures IsRun(states', ops', times') && |ops'| == |ops| + 1
    ensures states'[|ops'|] == After(states[|ops|], op, now)
  {
    hide After, Enabled;
    states', ops', times' := states + [After(states[|ops|], op, now)], ops + [op], times + [now];
  }

  lemma TiedStart() returns (states: seq<State>, ops: seq<Op>, times: seq<nat>)
    ensures IsRun(states, ops, times) && |ops| == 3 && states[3] == Tied(2)
  {
    var a := After(Start(), Insert(0, [], false), 1);
    var b := After(a, Insert(1, [], false), 1);
    var c := After(b, Touch(0), 1);
    assert FirstFree(Start().entries, 0) == Some(0) && !a.entries[1].active;
    assert FirstFree(a.entries, 1) == Some(1);
    assert ByApp(b.entries, 0, 0) == Some(0);
    assert c.entries == Tied(2).entries;
    states, ops, times := [Start(), a, b, c], [Insert(0, [], false), Insert(1, [], false), Touch(0)], [1, 1, 1];
  }

  lemma {:induction false} TiedRun(n: nat) returns (states: seq<State>, ops: seq<Op>, times: seq<nat>)
    requires 2 <= n <= MAX_CACHED
    ensures IsRun(states, ops, times) && |ops| == n + 1 && states[n + 1] == Tied(n)
  {
    hide After, Enabled;
    if n == 2 {
      states, ops, times := TiedStart();
    } else {
      states, ops, times := TiedRun(n - 1);
      TiedStep(n - 1);
      states, ops, times := Longer(states, ops, times, Insert(n - 1, [], false), 2);
    }
  }

  lemma {:induction false} TiedVictim(k: nat)
    requires 1 <= k <= MAX_CACHED
    ensures Victim(Tied(MAX_CACHED).entries, k) == Some(0)
  {
    if k > 1 {
      TiedVictim(k - 1);
    }
  }

  /** Within one tick the order of uses is lost: a run in which app 0 is used after app 1, in the
      same tick, and is nevertheless the one a full cache evicts. */
  lemma TieEvictsTheLaterUsed() returns (states: seq<State>, ops: seq<Op>, times: seq<nat>)
    ensures IsRun(states, ops, times) && |ops| == 17
    ensures var s := states[17];
            && |s.uses| == 17 && s.uses[1] == Use(1, 1) && s.uses[2] == Use(0, 1)
            && (forall i :: 3 <= i < 17 ==> s.uses[i].app !in {0, 1})
            && Evicts(s, Insert(16, [], false)) && Evicted(s).app == 0
  {
    hide After, Enabled, Victim, FirstFree;
    states, ops, times := TiedRun(MAX_CACHED);
    TiedVictim(MAX_CACHED);
    TiedUsesAre(MAX_CACHED);
  }

  lemma {:induction false} TiedUsesAre(n: nat)
    requires n >= 2
    ensures var u := TiedUses(n);
            && |u| == n + 1 && u[1] == Use(1, 1) && u[2] == Use(0, 1)
            && forall i :: 3 <= i < |u| ==> u[i].app !in {0, 1}
  {
    if n > 2 {
      TiedUsesAre(n - 1);
    }
  }

  // ── Lookups and touches ────────────────────────────────────────────────────

  /** A lookup finds a hash exactly when an active entry has it, and then dates the first such entry
      with the time of the lookup; it changes nothing else. */
  lemma LookupMeans(s: State, hash: Hash, now: nat)
    ensures var es, es' := s.entries, After(s, Lookup(hash), now).entries;
            if exists i :: 0 <= i < |es| && es[i].active && es[i].hash == hash then
              exists i :: && 0 <= i < |es| && es[i].active && es[i].hash == hash
                          && (forall j :: 0 <= j < i ==> !(es[j].active && es[j].hash == hash))
                          && es' == es[i := Entry(true, es[i].app, hash, now, es[i].pinned)]
            else es' == es
  {
    hide ByHash;
    FirstByHash(s.entries, hash, 0);
  }

  lemma {:induction false} FirstByHash(es: Entries, hash: Hash, k: nat)
    requires k <= |es|
    ensures var r := ByHash(es, hash, k);
            r.Some? ==> forall j :: k <= j < r.value ==> !(es[j].active && es[j].hash == hash)
    decreases |es| - k
  {
    if k < |es| && !(es[k].active && es[k].hash == hash) {
      FirstByHash(es, hash, k + 1);
    }
  }

  /** A touch dates the app's entry, if it is cached, and changes nothing else. */
  lemma TouchMeans(s: State, app: nat, now: nat)
    requires DistinctApps(s.entries)
    ensures var es, es' := s.entries, After(s, Touch(app), now).entries;
            && |es'| == |es|
            && forall i :: 0 <= i < |es| ==>
                 es'[i] == if es[i].active && es[i].app == app then es[i].(lastUsed := now) else es[i]
  {
    hide ByApp;
  }

  // ── The cache as the kernel keeps it ───────────────────────────────────────

  class Cache {
    var entries: Entries

    constructor ()
      ensures entries == Start().entries
    {
      entries := seq(MAX_CACHED, _ => Entry(false, 0, [], 0, false));
    }

    method LookupHash(hash: Hash, now: nat) returns (r: Option<nat>)
      modifies this
      ensures var at := ByHash(old(entries), hash, 0);
              entries == Used(old(entries), at, now)
              && r == if at.Some? then Some(old(entries)[at.value].app) else None
    {
      var i := 0;
      while i < |entries|
        invariant 0 <= i <= |entries| && entries == old(entries)
        invariant ByHash(entries, hash, 0) == ByHash(entries, hash, i)
      {
        if entries[i].active && entries[i].hash == hash {
          entries := entries[i := entries[i].(lastUsed := now)];
          return Some(entries[i].app);
        }
        i := i + 1;
      }
      return None;
    }

    method FindApp(app: nat) returns (r: Option<nat>)
      ensures r == ByApp(entries, app, 0)
    {
      var i := 0;
      while i < |entries|
        invariant 0 <= i <= |entries|
        invariant ByApp(entries, app, 0) == ByApp(entries, app, i)
      {
        if entries[i].active && entries[i].app == app {
          return Some(i);
        }
        i := i + 1;
      }
      return None;
    }

    method TouchApp(app: nat, now: nat)
      modifies this
      ensures entries == Used(old(entries), ByApp(old(entries), app, 0), now)
    {
      var at := FindApp(app);
      if at.Some? {
        entries := entries[at.value := entries[at.value].(lastUsed := now)];
      }
    }

    method RemoveApp(app: nat) returns (ok: bool)
      modifies this
      ensures (entries, ok) == Removed(old(entries), app)
    {
      var at := FindApp(app);
      if at.None? || entries[at.value].pinned {
        return false;
      }
      entries := entries[at.value := entries[at.value].(active := false)];
      return true;
    }

    method FindPlace() returns (r: Option<nat>)
      ensures r == Place(entries)
    {
      var i := 0;
      while i < |entries|
        invariant 0 <= i <= |entries|
        invariant FirstFree(entries, 0) == FirstFree(entries, i)
      {
        if !entries[i].active {
          return Some(i);
        }
        i := i + 1;
      }
      r := None;
      i := 0;
      while i < |entries|
        invariant 0 <= i <= |entries| && r == Victim(entries, i)
      {
        if Evictable(entries[i]) && (r.None? || entries[i].lastUsed < entries[r.value].lastUsed) {
          r := Some(i);
        }
        i := i + 1;
      }
    }

    method InsertApp(app: nat, hash: Hash, pinned: bool, now: nat) returns (ok: bool)
      modifies this
      ensures (entries, ok) == Inserted(old(entries), app, hash, pinned, now)
    {
      hide Place;
      var at := FindPlace();
      if at.None? {
        return false;
      }
      entries := entries[at.value := Entry(true, app, hash, now, pinned)];
      return true;
    }
  }
}
