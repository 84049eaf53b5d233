/** Dart isolates and their message inboxes: a table of handles and a table of bounded FIFO
    inboxes that spawn and kill change together. A kill is two lock sections, so other operations
    may come between marking an isolate dead and removing its inbox; every other operation is
    one step. */
module Isolates {

  import opened Options

  const MAX_ISOLATES: nat := 64
  const MAX_MSG_SIZE: nat := 65536
  const INBOX_DEPTH: nat := 128
  const U32: nat := 0x1_0000_0000
  const U64_MAX: nat := 0xFFFF_FFFF_FFFF_FFFF

  type Message = seq<bv8>

  datatype Phase = Running | Paused | Dead

  datatype Handle = Handle(id: nat, phase: Phase, owner: nat)

  datatype Inbox = Inbox(id: nat, msgs: seq<Message>, dropped: nat)

  type Handles = seq<Option<Handle>>
  type Inboxes = seq<Option<Inbox>>

  // ── Handles ────────────────────────────────────────────────────────────────

  predicate IsLive(h: Option<Handle>) {
    h.Some? && h.value.phase != Dead
  }

  predicate LiveAs(h: Option<Handle>, id: nat) {
    IsLive(h) && h.value.id == id
  }

  /** The first live handle of an id. */
  function FindLive(hs: Handles, id: nat, k: nat): (r: Option<nat>)
    requires k <= |hs|
    ensures r.Some? ==> k <= r.value < |hs| && LiveAs(hs[r.value], id)
    ensures r.None? ==> forall i :: k <= i < |hs| ==> !LiveAs(hs[i], id)
    decreases |hs| - k
  {
    if k == |hs| then None else if LiveAs(hs[k], id) then Some(k) else FindLive(hs, id, k + 1)
  }

  /** An empty slot, else the first dead one. */
  function AllocSlot(hs: Handles, k: nat, dead: Option<nat>): (r: Option<nat>)
    requires k <= |hs| && (dead.Some? ==> dead.value < k && hs[dead.value].Some? && !IsLive(hs[dead.value]))
    ensures r.Some? ==> r.value < |hs| && !IsLive(hs[r.value])
    ensures r.None? ==> dead.None? && forall i :: k <= i < |hs| ==> IsLive(hs[i])
    decreases |hs| - k
  {
    if k == |hs| then dead
    else if hs[k].None? then Some(k)
    else AllocSlot(hs, k + 1, if dead.None? && !IsLive(hs[k]) then Some(k) else dead)
  }

  function Live(hs: Handles, k: nat): nat
    requires k <= |hs|
  {
    if k == 0 then 0 else Live(hs, k - 1) + if IsLive(hs[k - 1]) then 1 else 0
  }

  // ── Inboxes ────────────────────────────────────────────────────────────────

  predicate InboxOf(b: Option<Inbox>, id: nat) {
    b.Some? && b.value.id == id
  }

  function FindInbox(bs: Inboxes, id: nat, k: nat): (r: Option<nat>)
    requires k <= |bs|
    ensures r.Some? ==> k <= r.value < |bs| && InboxOf(bs[r.value], id)
    ensures r.None? ==> forall i :: k <= i < |bs| ==> !InboxOf(bs[i], id)
    decreases |bs| - k
  {
    if k == |bs| then None else if InboxOf(bs[k], id) then Some(k) else FindInbox(bs, id, k + 1)
  }

  function FreeInbox(bs: Inboxes, k: nat): (r: Option<nat>)
    requires k <= |bs|
    ensures r.Some? ==> k <= r.value < |bs| && bs[r.value].None?
    ensures r.None? ==> forall i :: k <= i < |bs| ==> bs[i].Some?
    decreases |bs| - k
  {
    if k == |bs| then None else if bs[k].None? then Some(k) else FreeInbox(bs, k + 1)
  }

  function Taken(bs: Inboxes, k: nat): nat
    requires k <= |bs|
  {
    if k == 0 then 0 else Taken(bs, k - 1) + if bs[k - 1].Some? then 1 else 0
  }

  function Saturate(n: nat): nat {
    if n > U64_MAX then U64_MAX else n
  }

  function Push(b: Inbox, m: Message): Inbox {
    if |b.msgs| >= INBOX_DEPTH then b.(msgs := b.msgs[1..] + [m], dropped := Saturate(b.dropped + 1))
    else b.(msgs := b.msgs + [m])
  }

  /** The head message leaves whole; the caller gets as much of it as fits. */
  function Pop(b: Inbox, room: nat): (Inbox, Message) {
    if b.msgs == [] then (b, [])
    else (b.(msgs := b.msgs[1..]), if |b.msgs[0]| > room then b.msgs[0][..room] else b.msgs[0])
  }

  function WithInbox(bs: Inboxes, id: nat): Inboxes {
    match FreeInbox(bs, 0)
    case None => bs
    case Some(i) => bs[i := Some(Inbox(id, [], 0))]
  }

  function WithoutInbox(bs: Inboxes, id: nat): Inboxes {
    match FindInbox(bs, id, 0)
    case None => bs
    case Some(i) => bs[i := None]
  }

  // ── Steps ──────────────────────────────────────────────────────────────────

  /** What went through one inbox: all messages sent, the positions of those received, and
      how many were dropped. No step reads it. */
  datatype Traffic = Traffic(sent: seq<Message>, received: seq<nat>, lost: nat)

  /** The two tables, the kills between their sections, and a record: how many were spawned,
      which died, and which have no inbox because their spawn found the table full. */
  datatype State = State(
    handles: Handles, nextId: nat, inboxes: Inboxes, dying: seq<nat>,
    spawned: nat, dead: set<nat>, missed: set<nat>, traffic: map<nat, Traffic>)

  datatype Step =
    | Spawn(owner: nat)
    | Kill(id: nat)             // marks it dead
    | TearDown(which: nat)      // removes the inbox of a killed isolate
    | Pause(id: nat)
    | Resume(id: nat)
    | Send(id: nat, m: Message)
    | Recv(id: nat, room: nat)

  predicate Enabled(s: State, step: Step) {
    step.TearDown? ==> step.which < |s.dying|
  }

  function NextId(id: nat): nat {
    var next := (id + 1) % U32;
    if next == 0 then 1 else next
  }

  function AfterSpawn(s: State, owner: nat): State {
    match AllocSlot(s.handles, 0, None)
    case None => s
    case Some(i) =>
      s.(handles := s.handles[i := Some(Handle(s.nextId, Running, owner))], nextId := NextId(s.nextId),
         inboxes := WithInbox(s.inboxes, s.nextId), spawned := s.spawned + 1,
         missed := if FreeInbox(s.inboxes, 0).None? then s.missed + {s.nextId} else s.missed,
         traffic := s.traffic[s.nextId := Traffic([], [], 0)])
  }

  function WithPhase(hs: Handles, i: nat, phase: Phase): Handles
    requires i < |hs| && hs[i].Some?
  {
    hs[i := Some(hs[i].value.(phase := phase))]
  }

  function AfterKill(s: State, id: nat): State {
    match FindLive(s.handles, id, 0)
    case None => s
    case Some(i) =>
      s.(handles := WithPhase(s.handles, i, Dead), dying := s.dying + [id], dead := s.dead + {id})
  }

  function AfterTearDown(s: State, which: nat): State
    requires which < |s.dying|
  {
    s.(inboxes := WithoutInbox(s.inboxes, s.dying[which]), dying := s.dying[..which] + s.dying[which + 1..],
       missed := s.missed - {s.dying[which]})
  }

  /** Pause changes a running isolate, resume a paused one; anything else stays. */
  function AfterControl(s: State, id: nat, from: Phase, to: Phase): State {
    match FindLive(s.handles, id, 0)
    case None => s
    case Some(i) => if s.handles[i].value.phase == from then s.(handles := WithPhase(s.handles, i, to)) else s
  }

  function TrafficOf(s: State, id: nat): Traffic {
    if id in s.traffic then s.traffic[id] else Traffic([], [], 0)
  }

  function AfterSend(s: State, id: nat, m: Message): State {
    if |m| > MAX_MSG_SIZE then s
    else
      match FindInbox(s.inboxes, id, 0)
      case None => s
      case Some(i) =>
        var b, t := s.inboxes[i].value, TrafficOf(s, id);
        s.(inboxes := s.inboxes[i := Some(Push(b, m))],
           traffic := s.traffic[id := t.(sent := t.sent + [m],
                                        lost := if |b.msgs| >= INBOX_DEPTH then t.lost + 1 else t.lost)])
  }

  function AfterRecv(s: State, id: nat, room: nat): State {
    match FindInbox(s.inboxes, id, 0)
    case None => s
    case Some(i) =>
      var b, t := s.inboxes[i].value, TrafficOf(s, id);
      if b.msgs == [] || |t.sent| < |b.msgs| then s.(inboxes := s.inboxes[i := Some(Pop(b, room).0)])
      else s.(inboxes := s.inboxes[i := Some(Pop(b, room).0)],
              traffic := s.traffic[id := t.(received := t.received + [|t.sent| - |b.msgs|])])
  }

  function After(s: State, step: Step): State
    requires Enabled(s, step)
  {
    match step
    case Spawn(owner) => AfterSpawn(s, owner)
    case Kill(id) => AfterKill(s, id)
    case TearDown(which) => AfterTearDown(s, which)
    case Pause(id) => AfterControl(s, id, Running, Paused)
    case Resume(id) => AfterControl(s, id, Paused, Running)
    case Send(id, m) => AfterSend(s, id, m)
    case Recv(id, room) => AfterRecv(s, id, room)
  }

  function Start(): State {
    State(seq(MAX_ISOLATES, _ => None), 1, seq(MAX_ISOLATES, _ => None), [], 0, {}, {}, map[])
  }

  // ── What the operations do ─────────────────────────────────────────────────

  lemma {:induction false} FirstLive(hs: Handles, id: nat, i: nat, k: nat)
    requires k <= i < |hs| && LiveAs(hs[i], id) && forall j :: 0 <= j < i ==> !LiveAs(hs[j], id)
    ensures FindLive(hs, id, k) == Some(i)
    decreases i - k
  {
    if k < i {
      FirstLive(hs, id, i, k + 1);
    }
  }

  lemma {:induction false} FirstInbox(bs: Inboxes, id: nat, i: nat, k: nat)
    requires k <= i < |bs| && InboxOf(bs[i], id) && forall j :: 0 <= j < i ==> !InboxOf(bs[j], id)
    ensures FindInbox(bs, id, k) == Some(i)
    decreases i - k
  {
    if k < i {
      FirstInbox(bs, id, i, k + 1);
    }
  }

  /** A message of at most 65536 bytes to an isolate with an inbox goes to the end of that inbox;
      only if 128 are waiting is one lost, the oldest. Any other send changes nothing, and no send
      touches another inbox or any handle. */
  lemma SendMeans(s: State, id: nat, m: Message, i: nat)
    requires i < |s.inboxes| && InboxOf(s.inboxes[i], id) && forall j :: 0 <= j < i ==> !InboxOf(s.inboxes[j], id)
    ensures var s' := AfterSend(s, id, m);
            var b := s.inboxes[i].value;
            && s'.handles == s.handles && s'.nextId == s.nextId && |s'.inboxes| == |s.inboxes|
            && (forall j :: 0 <= j < |s.inboxes| && j != i ==> s'.inboxes[j] == s.inboxes[j])
            && (|m| > 65536 ==> s' == s)
            && (|m| <= 65536 && |b.msgs| < 128 ==> s'.inboxes[i] == Some(Inbox(id, b.msgs + [m], b.dropped)))
            && (|m| <= 65536 && |b.msgs| >= 128 ==>
                  s'.inboxes[i] == Some(Inbox(id, b.msgs[1..] + [m],
                                              if b.dropped >= 0xFFFF_FFFF_FFFF_FFFF then 0xFFFF_FFFF_FFFF_FFFF else b.dropped + 1)))
  {
    hide FindInbox;
    FirstInbox(s.inboxes, id, i, 0);
  }

  /** A receive takes the oldest message off the isolate's inbox, however little of it fits. */
  lemma RecvMeans(s: State, id: nat, room: nat, i: nat)
    requires i < |s.inboxes| && InboxOf(s.inboxes[i], id) && forall j :: 0 <= j < i ==> !InboxOf(s.inboxes[j], id)
    ensures var s' := AfterRecv(s, id, room);
            var b := s.inboxes[i].value;
            && s'.handles == s.handles && |s'.inboxes| == |s.inboxes|
            && (forall j :: 0 <= j < |s.inboxes| && j != i ==> s'.inboxes[j] == s.inboxes[j])
            && s'.inboxes[i] == Some(Inbox(id, if b.msgs == [] then [] else b.msgs[1..], b.dropped))
  {
    hide FindInbox;
    FirstInbox(s.inboxes, id, i, 0);
  }

  /** Sends to and receives from an isolate without an inbox change nothing. */
  lemma NoInbox(s: State, id: nat, m: Message, room: nat)
    requires forall i :: 0 <= i < |s.inboxes| ==> !InboxOf(s.inboxes[i], id)
    ensures AfterSend(s, id, m) == s && AfterRecv(s, id, room) == s
  {
    hide FindInbox;
  }

  /** A spawn that finds a slot puts a running isolate of the next id there, and an empty inbox of
      that id into a free slot if there is one; it touches no live isolate and no inbox. */
  lemma SpawnMeans(s: State, owner: nat)
    ensures var s' := AfterSpawn(s, owner);
            if forall i :: 0 <= i < |s.handles| ==> IsLive(s.handles[i]) then s' == s
            else
              && s'.nextId == (if s.nextId % 0x1_0000_0000 == 0xFFFF_FFFF then 1 else (s.nextId + 1) % 0x1_0000_0000)
              && (exists i :: 0 <= i < |s.handles| && !IsLive(s.handles[i])
                              && s'.handles == s.handles[i := Some(Handle(s.nextId, Running, owner))])
              && (if forall j :: 0 <= j < |s.inboxes| ==> s.inboxes[j].Some? then s'.inboxes == s.inboxes
                  else exists j :: 0 <= j < |s.inboxes| && s.inboxes[j].None?
                                   && s'.inboxes == s.inboxes[j := Some(Inbox(s.nextId, [], 0))])
  {
    hide AllocSlot, FreeInbox;
  }

  /** A kill marks the live isolate of an id dead, pausing stops a running one, resuming starts a
      paused one; in any other case, and for every other isolate, nothing changes. */
  lemma ControlMeans(s: State, id: nat, i: nat)
    requires i < |s.handles| && LiveAs(s.handles[i], id) && forall j :: 0 <= j < i ==> !LiveAs(s.handles[j], id)
    ensures var h := s.handles[i].value;
            && AfterKill(s, id).handles == s.handles[i := Some(Handle(id, Dead, h.owner))]
            && AfterControl(s, id, Running, Paused).handles == s.handles[i := Some(Handle(id, Paused, h.owner))]
            && AfterControl(s, id, Paused, Running).handles == s.handles[i := Some(Handle(id, Running, h.owner))]
            && AfterKill(s, id).inboxes == AfterControl(s, id, Running, Paused).inboxes == s.inboxes
  {
    hide FindLive;
    FirstLive(s.handles, id, i, 0);
    var h := s.handles[i];
    assert h == Some(Handle(id, h.value.phase, h.value.owner));
    assert s.handles[i := h] == s.handles;
  }

  /** Nothing is done to an id that is not live. */
  lemma NotLive(s: State, id: nat)
    requires forall i :: 0 <= i < |s.handles| ==> !LiveAs(s.handles[i], id)
    ensures AfterKill(s, id) == s && AfterControl(s, id, Running, Paused) == s && AfterControl(s, id, Paused, Running) == s
  {
    hide FindLive;
  }

  // ── Isolates and inboxes agree ─────────────────────────────────────────────

  /** Ids are handed out in order; live ones are distinct and none has died. */
  ghost predicate HandlesOk(s: State) {
    && s.spawned < U32 && s.nextId == (if s.spawned == U32 - 1 then 1 else s.spawned + 1)
    && (forall i :: 0 <= i < |s.handles| && IsLive(s.handles[i]) ==>
          1 <= s.handles[i].value.id <= s.spawned && s.handles[i].value.id !in s.dead)
    && (forall i, j :: 0 <= i < j < |s.handles| && IsLive(s.handles[i]) && IsLive(s.handles[j]) ==>
          s.handles[i].value.id != s.handles[j].value.id)
    && (forall id :: id in s.dead || id in s.missed ==> 1 <= id <= s.spawned)
  }

  ghost predicate Alive(hs: Handles, id: nat) {
    exists i :: 0 <= i < |hs| && LiveAs(hs[i], id)
  }

  ghost predicate HasInbox(bs: Inboxes, id: nat) {
    exists i :: 0 <= i < |bs| && InboxOf(bs[i], id)
  }

  ghost predicate DyingOk(s: State) {
    && (forall i, j :: 0 <= i < j < |s.dying| ==> s.dying[i] != s.dying[j])
    && (forall i :: 0 <= i < |s.dying| ==> s.dying[i] in s.dead)
  }

  ghost predicate InboxesDistinct(bs: Inboxes) {
    forall i, j :: 0 <= i < j < |bs| && bs[i].Some? && bs[j].Some? ==> bs[i].value.id != bs[j].value.id
  }

  /** One inbox for every live isolate and every one still being torn down, except those whose
      spawn found no room, and no other. */
  ghost predicate Paired(s: State) {
    && |s.handles| == |s.inboxes| == MAX_ISOLATES && InboxesDistinct(s.inboxes)
    && (forall id :: HasInbox(s.inboxes, id) <==> (Alive(s.handles, id) || id in s.dying) && id !in s.missed)
    && (forall id :: id in s.missed ==> Alive(s.handles, id) || id in s.dying)
    && Taken(s.inboxes, MAX_ISOLATES) + |s.missed| == Live(s.handles, MAX_ISOLATES) + |s.dying|
  }

  ghost predicate Agree(s: State) {
    HandlesOk(s) && DyingOk(s) && Paired(s)
  }

  lemma {:induction false} LiveUpdated(hs: Handles, i: nat, h: Option<Handle>, k: nat)
    requires i < |hs| && k <= |hs|
    ensures Live(hs[i := h], k) + (if i < k && IsLive(hs[i]) then 1 else 0)
         == Live(hs, k) + (if i < k && IsLive(h) then 1 else 0)
  {
    hide IsLive;
    if k > 0 {
      LiveUpdated(hs, i, h, k - 1);
    }
  }

  lemma {:induction false} TakenUpdated(bs: Inboxes, i: nat, b: Option<Inbox>, k: nat)
    requires i < |bs| && k <= |bs|
    ensures Taken(bs[i := b], k) + (if i < k && bs[i].Some? then 1 else 0)
         == Taken(bs, k) + (if i < k && b.Some? then 1 else 0)
  {
    if k > 0 {
      TakenUpdated(bs, i, b, k - 1);
    }
  }

  lemma {:induction false} TakenAll(bs: Inboxes, k: nat)
    requires k <= |bs|
    ensures Taken(bs, k) <= k && (Taken(bs, k) == k <==> forall i :: 0 <= i < k ==> bs[i].Some?)
  {
    if k > 0 {
      TakenAll(bs, k - 1);
    }
  }

  lemma AliveUpdated(hs: Handles, i: nat, h: Option<Handle>, id: nat)
    requires i < |hs|
    ensures Alive(hs[i := h], id) <==> LiveAs(h, id) || exists j :: 0 <= j < |hs| && j != i && LiveAs(hs[j], id)
  {
    hide LiveAs;
    var hs' := hs[i := h];
    if LiveAs(h, id) {
      assert LiveAs(hs'[i], id);
    }
    if j :| 0 <= j < |hs| && j != i && LiveAs(hs[j], id) {
      assert LiveAs(hs'[j], id);
    }
  }

  lemma HasInboxUpdated(bs: Inboxes, i: nat, b: Option<Inbox>, id: nat)
    requires i < |bs|
    ensures HasInbox(bs[i := b], id) <==> InboxOf(b, id) || exists j :: 0 <= j < |bs| && j != i && InboxOf(bs[j], id)
  {
    hide InboxOf;
    var bs' := bs[i := b];
    if InboxOf(b, id) {
      assert InboxOf(bs'[i], id);
    }
    if j :| 0 <= j < |bs| && j != i && InboxOf(bs[j], id) {
      assert InboxOf(bs'[j], id);
    }
  }

  /** A spawn finds room for its inbox exactly when the live isolates and those still being
      torn down, less the ones without an inbox, leave a slot. */
  lemma SpawnFindsInbox(s: State)
    requires Agree(s)
    ensures FreeInbox(s.inboxes, 0).Some? <==>
              Live(s.handles, MAX_ISOLATES) + |s.dying| < MAX_ISOLATES + |s.missed|
  {
    hide Live, Taken, Alive, HasInbox;
    TakenAll(s.inboxes, MAX_ISOLATES);
  }

  lemma {:induction false} NotAllLive(hs: Handles, i: nat, k: nat)
    requires i < |hs| && !IsLive(hs[i]) && k <= |hs|
    ensures Live(hs, k) + (if i < k then 1 else 0) <= k
  {
    if k > 0 {
      NotAllLive(hs, i, k - 1);
    }
  }

  /** With nothing being torn down, a spawn that gets a handle gets an inbox. */
  lemma CalmSpawnFindsInbox(s: State)
    requires Agree(s) && s.dying == [] && AllocSlot(s.handles, 0, None).Some?
    ensures FreeInbox(s.inboxes, 0).Some?
  {
    hide Live, Taken, Alive, HasInbox, AllocSlot, FreeInbox;
    NotAllLive(s.handles, AllocSlot(s.handles, 0, None).value, MAX_ISOLATES);
    SpawnFindsInbox(s);
  }

  lemma SpawnHandles(s: State, owner: nat)
    requires HandlesOk(s) && DyingOk(s) && (AllocSlot(s.handles, 0, None).Some? ==> s.spawned < U32 - 1)
    ensures HandlesOk(AfterSpawn(s, owner)) && DyingOk(AfterSpawn(s, owner))
  {
    hide AllocSlot, WithInbox;
  }

  /** A spawn has an id that was never used, if it gets a handle at all. */
  predicate IdLeft(s: State, step: Step) {
    step.Spawn? && AllocSlot(s.handles, 0, None).Some? ==> s.spawned < U32 - 1
  }

  lemma SpawnPaired(s: State, owner: nat)
    requires Agree(s) && IdLeft(s, Spawn(owner))
    ensures Paired(AfterSpawn(s, owner))
  {
    hide AllocSlot, FreeInbox, Live, Taken, Alive, HasInbox;
    var s' := AfterSpawn(s, owner);
    var at := AllocSlot(s.handles, 0, None);
    if at.Some? {
      var i := at.value;
      LiveUpdated(s.handles, i, s'.handles[i], MAX_ISOLATES);
      FreshId(s);
      forall x: nat ensures Alive(s'.handles, x) <==> Alive(s.handles, x) || x == s.nextId {
        AddedHandle(s.handles, i, s'.handles[i], x);
      }
      SpawnInbox(s);
    }
  }

  /** The inboxes after a spawn: one more, or all as they were. */
  lemma SpawnInbox(s: State)
    requires Agree(s) && !HasInbox(s.inboxes, s.nextId)
    ensures var bs' := WithInbox(s.inboxes, s.nextId);
            var room := FreeInbox(s.inboxes, 0).Some?;
            && |bs'| == MAX_ISOLATES && InboxesDistinct(bs')
            && Taken(bs', MAX_ISOLATES) == Taken(s.inboxes, MAX_ISOLATES) + (if room then 1 else 0)
            && forall x: nat :: HasInbox(bs', x) <==> HasInbox(s.inboxes, x) || (room && x == s.nextId)
  {
    hide AllocSlot, FreeInbox, Live, Taken, Alive, HasInbox, InboxesDistinct, HandlesOk;
    var bs' := WithInbox(s.inboxes, s.nextId);
    var free := FreeInbox(s.inboxes, 0);
    if free.Some? {
      var j := free.value;
      TakenUpdated(s.inboxes, j, bs'[j], MAX_ISOLATES);
      forall x: nat ensures HasInbox(bs', x) <==> HasInbox(s.inboxes, x) || x == s.nextId {
        AddedInbox(s.inboxes, j, bs'[j], x);
      }
      NewInboxDistinct(s.inboxes, j, bs'[j]);
    }
  }

  /** The next id is nobody's yet. */
  lemma FreshId(s: State)
    requires Agree(s) && s.spawned < U32 - 1
    ensures !HasInbox(s.inboxes, s.nextId) && s.nextId !in s.dying && s.nextId !in s.missed
  {
    hide HasInbox, Live, Taken;
  }

  lemma AddedHandle(hs: Handles, i: nat, h: Option<Handle>, id: nat)
    requires i < |hs| && !IsLive(hs[i]) && IsLive(h)
    ensures Alive(hs[i := h], id) <==> Alive(hs, id) || h.value.id == id
  {
    AliveUpdated(hs, i, h, id);
  }

  lemma AddedInbox(bs: Inboxes, i: nat, b: Option<Inbox>, id: nat)
    requires i < |bs| && bs[i].None? && b.Some?
    ensures HasInbox(bs[i := b], id) <==> HasInbox(bs, id) || b.value.id == id
  {
    HasInboxUpdated(bs, i, b, id);
  }

  lemma NewInboxDistinct(bs: Inboxes, i: nat, b: Option<Inbox>)
    requires i < |bs| && b.Some? && !HasInbox(bs, b.value.id) && InboxesDistinct(bs)
    ensures InboxesDistinct(bs[i := b])
  {
  }

  lemma KillKeeps(s: State, id: nat)
    requires Agree(s)
    ensures Agree(AfterKill(s, id))
  {
    hide FindLive, Live, Taken, Alive, HasInbox;
    var s' := AfterKill(s, id);
    var at := FindLive(s.handles, id, 0);
    if at.Some? {
      var i := at.value;
      LiveUpdated(s.handles, i, s'.handles[i], MAX_ISOLATES);
      FoundAlive(s.handles, i, id);
      forall x: nat ensures Alive(s'.handles, x) || x in s'.dying <==> Alive(s.handles, x) || x in s.dying {
        RemovedHandle(s.handles, i, s'.handles[i], x);
        assert x in s'.dying <==> x in s.dying || x == id;
      }
    }
  }

  lemma FoundAlive(hs: Handles, i: nat, id: nat)
    requires i < |hs| && LiveAs(hs[i], id)
    ensures Alive(hs, id)
  {
  }

  lemma RemovedHandle(hs: Handles, i: nat, h: Option<Handle>, id: nat)
    requires i < |hs| && IsLive(hs[i]) && !IsLive(h)
    requires forall i, j :: 0 <= i < j < |hs| && IsLive(hs[i]) && IsLive(hs[j]) ==> hs[i].value.id != hs[j].value.id
    ensures Alive(hs[i := h], id) <==> Alive(hs, id) && hs[i].value.id != id
  {
    AliveUpdated(hs, i, h, id);
  }

  lemma RemovedInbox(bs: Inboxes, i: nat, id: nat)
    requires i < |bs| && bs[i].Some? && InboxesDistinct(bs)
    ensures HasInbox(bs[i := None], id) <==> HasInbox(bs, id) && bs[i].value.id != id
  {
    HasInboxUpdated(bs, i, None, id);
  }

  lemma TearDownKeeps(s: State, which: nat)
    requires Agree(s) && which < |s.dying|
    ensures Agree(AfterTearDown(s, which))
  {
    hide FindInbox, Live, Taken, Alive, HasInbox, FindLive, WithoutInbox, InboxesDistinct;
    var id := s.dying[which];
    StillDying(s.dying, which);
    DeadNotAlive(s, id);
    InboxGone(s, id);
  }

  lemma StillDying(dying: seq<nat>, which: nat)
    requires which < |dying| && forall i, j :: 0 <= i < j < |dying| ==> dying[i] != dying[j]
    ensures var rest := dying[..which] + dying[which + 1..];
            && (forall x: nat :: x in rest <==> x in dying && x != dying[which])
            && forall i, j :: 0 <= i < j < |rest| ==> rest[i] != rest[j]
  {
    assert dying == dying[..which] + [dying[which]] + dying[which + 1..];
  }

  /** Tearing down removes the inbox, or nothing for an isolate that never got one. */
  lemma InboxGone(s: State, id: nat)
    requires Agree(s) && id in s.dying && !Alive(s.handles, id)
    ensures var bs' := WithoutInbox(s.inboxes, id);
            && |bs'| == MAX_ISOLATES && InboxesDistinct(bs')
            && Taken(bs', MAX_ISOLATES) == Taken(s.inboxes, MAX_ISOLATES) - (if id in s.missed then 0 else 1)
            && forall x: nat :: HasInbox(bs', x) <==> HasInbox(s.inboxes, x) && x != id
  {
    hide FindInbox, Live, Taken, Alive, HasInbox, FindLive, HandlesOk;
    InboxFound(s.inboxes, id);
    if id !in s.missed {
      var i := FindInbox(s.inboxes, id, 0).value;
      TakenUpdated(s.inboxes, i, None, MAX_ISOLATES);
      forall x: nat ensures HasInbox(WithoutInbox(s.inboxes, id), x) <==> HasInbox(s.inboxes, x) && x != id {
        RemovedInbox(s.inboxes, i, x);
      }
    }
  }

  lemma InboxFound(bs: Inboxes, id: nat)
    ensures FindInbox(bs, id, 0).Some? <==> HasInbox(bs, id)
  {
  }

  lemma DeadNotAlive(s: State, id: nat)
    requires HandlesOk(s) && id in s.dead
    ensures !Alive(s.handles, id)
  {
  }

  lemma ControlKeeps(s: State, id: nat, from: Phase, to: Phase)
    requires Agree(s) && to != Dead
    ensures Agree(AfterControl(s, id, from, to))
  {
    hide FindLive, Live, Taken, Alive, HasInbox;
    var s' := AfterControl(s, id, from, to);
    var at := FindLive(s.handles, id, 0);
    if at.Some? && s' != s {
      var i := at.value;
      LiveUpdated(s.handles, i, s'.handles[i], MAX_ISOLATES);
      forall x: nat ensures Alive(s'.handles, x) <==> Alive(s.handles, x) {
        RelabelledHandle(s.handles, i, s'.handles[i], x);
      }
    }
  }

  /** Resuming undoes pausing. */
  lemma ResumeUndoesPause(s: State, id: nat, i: nat)
    requires HandlesOk(s) && i < |s.handles| && LiveAs(s.handles[i], id) && s.handles[i].value.phase == Running
    ensures var p := AfterControl(s, id, Running, Paused);
            && p.handles[i].Some? && p.handles[i].value.phase == Paused
            && AfterControl(p, id, Paused, Running).handles == s.handles
  {
    hide FindLive;
    var at := FindLive(s.handles, id, 0);
    assert at == Some(i);
    var p := AfterControl(s, id, Running, Paused);
    assert LiveAs(p.handles[i], id);
    assert FindLive(p.handles, id, 0) == Some(i);
    var r := AfterControl(p, id, Paused, Running);
    assert r.handles[i] == s.handles[i];
  }

  lemma RelabelledHandle(hs: Handles, i: nat, h: Option<Handle>, id: nat)
    requires i < |hs| && IsLive(hs[i]) && IsLive(h) && h.value.id == hs[i].value.id
    ensures Alive(hs[i := h], id) <==> Alive(hs, id)
  {
    AliveUpdated(hs, i, h, id);
  }

  /** Changing an inbox's contents changes nothing about who has one. */
  lemma ContentsKeep(s: State, i: nat, b: Inbox, traffic: map<nat, Traffic>)
    requires Agree(s) && i < |s.inboxes| && s.inboxes[i].Some? && b.id == s.inboxes[i].value.id
    ensures Agree(s.(inboxes := s.inboxes[i := Some(b)], traffic := traffic))
  {
    hide Live, Taken, Alive, HasInbox;
    TakenUpdated(s.inboxes, i, Some(b), MAX_ISOLATES);
    forall x: nat ensures HasInbox(s.inboxes[i := Some(b)], x) <==> HasInbox(s.inboxes, x) {
      RefilledInbox(s.inboxes, i, b, x);
    }
  }

  lemma RefilledInbox(bs: Inboxes, i: nat, b: Inbox, id: nat)
    requires i < |bs| && bs[i].Some? && b.id == bs[i].value.id
    ensures HasInbox(bs[i := Some(b)], id) <==> HasInbox(bs, id)
  {
    HasInboxUpdated(bs, i, Some(b), id);
  }

  lemma StepAgrees(s: State, step: Step)
    requires Agree(s) && Enabled(s, step) && IdLeft(s, step)
    ensures Agree(After(s, step))
  {
    hide HandlesOk, DyingOk, Paired, Live, AfterSpawn, AfterKill, AfterTearDown, AfterControl, FindInbox, Push, Pop;
    match step
    case Spawn(owner) => SpawnHandles(s, owner); SpawnPaired(s, owner);
    case Kill(id) => KillKeeps(s, id);
    case TearDown(which) => TearDownKeeps(s, which);
    case Pause(id) => ControlKeeps(s, id, Running, Paused);
    case Resume(id) => ControlKeeps(s, id, Paused, Running);
    case Send(id, m) =>
      var at := FindInbox(s.inboxes, id, 0);
      if at.Some? && |m| <= MAX_MSG_SIZE {
        PushKeepsId(s.inboxes[at.value].value, m, 0);
        ContentsKeep(s, at.value, Push(s.inboxes[at.value].value, m), AfterSend(s, id, m).traffic);
      }
    case Recv(id, room) =>
      var at := FindInbox(s.inboxes, id, 0);
      if at.Some? {
        PushKeepsId(s.inboxes[at.value].value, [], room);
        ContentsKeep(s, at.value, Pop(s.inboxes[at.value].value, room).0, AfterRecv(s, id, room).traffic);
      }
  }

  lemma PushKeepsId(b: Inbox, m: Message, room: nat)
    ensures Push(b, m).id == b.id && Pop(b, room).0.id == b.id
  {
  }

  // ── Messages ───────────────────────────────────────────────────────────────

  ghost predicate Increasing(s: seq<nat>) {
    forall i, j :: 0 <= i < j < |s| ==> s[i] < s[j]
  }

  /** What waits in an inbox is the end of what was sent to it; what was received came from
      before that, in the order sent; and every message is accounted for. */
  ghost predicate Accounted(b: Inbox, t: Traffic) {
    && |b.msgs| <= INBOX_DEPTH && |t.sent| == |t.received| + t.lost + |b.msgs|
    && b.msgs == t.sent[|t.sent| - |b.msgs|..]
    && Increasing(t.received) && (forall i :: 0 <= i < |t.received| ==> t.received[i] < |t.sent| - |b.msgs|)
    && b.dropped == Saturate(t.lost)
  }

  ghost predicate AllAccounted(s: State) {
    forall i :: 0 <= i < |s.inboxes| && s.inboxes[i].Some? ==>
      s.inboxes[i].value.id in s.traffic && Accounted(s.inboxes[i].value, s.traffic[s.inboxes[i].value.id])
  }

  lemma PushAccounted(b: Inbox, t: Traffic, m: Message)
    requires Accounted(b, t)
    ensures Accounted(Push(b, m), t.(sent := t.sent + [m], lost := if |b.msgs| >= INBOX_DEPTH then t.lost + 1 else t.lost))
  {
  }

  /** A receive hands over the oldest waiting message, cut to the room given. */
  lemma PopAccounted(b: Inbox, t: Traffic, room: nat)
    requires Accounted(b, t) && b.msgs != []
    ensures var head := |t.sent| - |b.msgs|;
            var (b', m) := Pop(b, room);
            && Accounted(b', t.(received := t.received + [head]))
            && m == t.sent[head][..if |t.sent[head]| > room then room else |t.sent[head]|]
  {
  }

  lemma SendAccounted(s: State, id: nat, m: Message)
    requires AllAccounted(s) && InboxesDistinct(s.inboxes)
    ensures AllAccounted(AfterSend(s, id, m))
  {
    hide Accounted, Push, FindInbox;
    var at := FindInbox(s.inboxes, id, 0);
    if at.Some? {
      var b := s.inboxes[at.value].value;
      PushAccounted(b, s.traffic[id], m);
      PushKeepsId(b, m, 0);
    }
  }

  lemma RecvAccounted(s: State, id: nat, room: nat)
    requires AllAccounted(s) && InboxesDistinct(s.inboxes)
    ensures AllAccounted(AfterRecv(s, id, room))
  {
    hide Accounted, Pop, FindInbox;
    var at := FindInbox(s.inboxes, id, 0);
    if at.Some? {
      var b := s.inboxes[at.value].value;
      if b.msgs != [] {
        PopAccounted(b, s.traffic[id], room);
      } else {
        PopEmpty(b, room);
      }
      PushKeepsId(b, [], room);
      WaitingWasSent(b, s.traffic[id]);
    }
  }

  lemma PopEmpty(b: Inbox, room: nat)
    requires b.msgs == []
    ensures Pop(b, room).0 == b
  {
  }

  lemma WaitingWasSent(b: Inbox, t: Traffic)
    requires Accounted(b, t)
    ensures |b.msgs| <= |t.sent|
  {
  }

  lemma SpawnAccounted(s: State, owner: nat)
    requires Agree(s) && AllAccounted(s) && IdLeft(s, Spawn(owner))
    ensures AllAccounted(AfterSpawn(s, owner))
  {
    hide AllocSlot, FreeInbox, Live, Taken, Alive, HasInbox, Accounted;
    if AllocSlot(s.handles, 0, None).Some? {
      FreshId(s);
      NobodysInbox(s.inboxes, s.nextId);
      EmptyAccounted(s.nextId);
    }
  }

  lemma NobodysInbox(bs: Inboxes, id: nat)
    requires !HasInbox(bs, id)
    ensures forall i :: 0 <= i < |bs| && bs[i].Some? ==> bs[i].value.id != id
  {
  }

  lemma EmptyAccounted(id: nat)
    ensures Accounted(Inbox(id, [], 0), Traffic([], [], 0))
  {
  }

  lemma StepAccounted(s: State, step: Step)
    requires Agree(s) && AllAccounted(s) && Enabled(s, step) && IdLeft(s, step)
    ensures AllAccounted(After(s, step))
  {
    hide HandlesOk, DyingOk, Live, Taken, Alive, HasInbox, Accounted, FindLive, FindInbox, AfterSpawn, AfterSend, AfterRecv;
    match step
    case Spawn(owner) => SpawnAccounted(s, owner);
    case Send(id, m) => SendAccounted(s, id, m);
    case Recv(id, room) => RecvAccounted(s, id, room);
    case _ =>
  }

  // ── Runs ───────────────────────────────────────────────────────────────────

  ghost predicate IsRun(states: seq<State>, steps: seq<Step>) {
    && |states| == |steps| + 1 && states[0] == Start()
    && forall k :: 0 <= k < |steps| ==> Enabled(states[k], steps[k]) && states[k + 1] == After(states[k], steps[k])
  }

  lemma {:induction false} NoneLive(k: nat)
    requires k <= MAX_ISOLATES
    ensures Live(Start().handles, k) == 0 == Taken(Start().inboxes, k)
  {
    if k > 0 {
      NoneLive(k - 1);
    }
  }

  lemma StartAgrees()
    ensures Agree(Start()) && AllAccounted(Start())
  {
    hide Live, Taken;
    NoneLive(MAX_ISOLATES);
  }

  lemma SpawnedGrows(s: State, step: Step)
    requires Enabled(s, step)
    ensures s.spawned <= After(s, step).spawned && (After(s, step).spawned < U32 ==> IdLeft(s, step))
    ensures s.dead <= After(s, step).dead
  {
    hide FindLive, FindInbox, AllocSlot;
  }

  /** In every state of every run with at most 2^32 - 1 spawns: a live isolate, or one being
      torn down, has exactly one inbox unless its spawn found the table full, and nobody else
      has one; and in every inbox sent = received + dropped + pending, with delivery in the
      order sent. */
  lemma {:induction false} AlwaysAgree(states: seq<State>, steps: seq<Step>, k: nat)
    requires IsRun(states, steps) && k < |states| && states[k].spawned < U32
    ensures Agree(states[k]) && AllAccounted(states[k])
  {
    hide Agree, AllAccounted, After, Enabled, IdLeft;
    if k == 0 {
      StartAgrees();
    } else {
      SpawnedGrows(states[k - 1], steps[k - 1]);
      AlwaysAgree(states, steps, k - 1);
      StepAgrees(states[k - 1], steps[k - 1]);
      StepAccounted(states[k - 1], steps[k - 1]);
    }
  }

  /** An isolate that died is never live again, in any such run. */
  lemma {:induction false} DeadForever(states: seq<State>, steps: seq<Step>, k: nat, n: nat, id: nat)
    requires IsRun(states, steps) && k <= n < |states| && id in states[k].dead && states[n].spawned < U32
    ensures !Alive(states[n].handles, id)
    decreases n - k
  {
    hide Agree, AllAccounted, After, Enabled, IdLeft, Alive;
    if k < n {
      SpawnedGrows(states[k], steps[k]);
      DeadForever(states, steps, k + 1, n, id);
    } else {
      AlwaysAgree(states, steps, n);
      DeadIsDead(states[n], id);
    }
  }

  lemma DeadIsDead(s: State, id: nat)
    requires Agree(s) && id in s.dead
    ensures !Alive(s.handles, id)
  {
    hide DyingOk, Paired;
    DeadNotAlive(s, id);
  }

  /** When no spawn comes between the two halves of a kill, every spawn gets its inbox, so live
      isolates and inboxes are in bijection. */
  lemma {:induction false} WholeOperationsMissNone(states: seq<State>, steps: seq<Step>, k: nat)
    requires IsRun(states, steps) && k < |states| && states[k].spawned < U32
    requires forall j :: 0 <= j < k && steps[j].Spawn? ==> states[j].dying == []
    ensures states[k].missed == {}
    ensures forall id :: HasInbox(states[k].inboxes, id) <==> Alive(states[k].handles, id) || id in states[k].dying
  {
    hide HandlesOk, DyingOk, AllAccounted, After, Enabled, IdLeft, Alive, HasInbox, Live, Taken;
    AlwaysAgree(states, steps, k);
    if k > 0 {
      var s, step := states[k - 1], steps[k - 1];
      SpawnedGrows(s, step);
      WholeOperationsMissNone(states, steps, k - 1);
      AlwaysAgree(states, steps, k - 1);
      StepMisses(s, step);
    }
  }

  lemma StepMisses(s: State, step: Step)
    requires Agree(s) && Enabled(s, step) && s.missed == {} && (step.Spawn? ==> s.dying == [])
    ensures After(s, step).missed == {}
  {
    hide Agree, FindLive, FindInbox, AllocSlot, FreeInbox;
    if step.Spawn? && AllocSlot(s.handles, 0, None).Some? {
      CalmSpawnFindsInbox(s);
    }
  }

  // ── A spawn inside a kill ──────────────────────────────────────────────────

  function FilledTraffic(n: nat): map<nat, Traffic> {
    if n == 0 then map[] else FilledTraffic(n - 1)[n := Traffic([], [], 0)]
  }

  /** After `n` spawns and nothing else. */
  function Filled(n: nat): State
    requires n <= MAX_ISOLATES
  {
    State(seq(MAX_ISOLATES, i => if 0 <= i < n then Some(Handle(i + 1, Running, 0)) else None), n + 1,
          seq(MAX_ISOLATES, i => if 0 <= i < n then Some(Inbox(i + 1, [], 0)) else None), [],
          n, {}, {}, FilledTraffic(n))
  }

  lemma {:induction false} FilledSlots(n: nat, k: nat)
    requires k <= n < MAX_ISOLATES
    ensures AllocSlot(Filled(n).handles, k, None) == Some(n) && FreeInbox(Filled(n).inboxes, k) == Some(n)
    decreases n - k
  {
    if k < n {
      FilledSlots(n, k + 1);
    }
  }

  lemma FilledStep(n: nat)
    requires n < MAX_ISOLATES
    ensures After(Filled(n), Spawn(0)) == Filled(n + 1)
  {
    hide AllocSlot, FreeInbox;
    FilledSlots(n, 0);
    var s, t := After(Filled(n), Spawn(0)), Filled(n + 1);
    assert s.handles == t.handles && s.inboxes == t.inboxes;
  }

  lemma {:induction false} FilledRun(n: nat) returns (states: seq<State>, steps: seq<Step>)
    requires n <= MAX_ISOLATES
    ensures IsRun(states, steps) && |steps| == n && states[n] == Filled(n)
  {
    hide After;
    if n == 0 {
      states, steps := [Start()], [];
      assert Start() == Filled(0);
    } else {
      states, steps := FilledRun(n - 1);
      FilledStep(n - 1);
      states, steps := Longer(states, steps, Spawn(0));
    }
  }

  lemma Longer(states: seq<State>, steps: seq<Step>, step: Step) returns (states': seq<State>, steps': seq<Step>)
    requires IsRun(states, steps) && Enabled(states[|steps|], step)
    ensures IsRun(states', steps') && |steps'| == |steps| + 1
    ensures states'[..|states|] == states && states'[|steps'|] == After(states[|steps|], step)
  {
    hide After, Enabled;
    states', steps' := states + [After(states[|steps|], step)], steps + [step];
  }

  lemma KillFirst()
    ensures AfterKill(Filled(MAX_ISOLATES), 1).handles == WithPhase(Filled(MAX_ISOLATES).handles, 0, Dead)
    ensures AfterKill(Filled(MAX_ISOLATES), 1).inboxes == Filled(MAX_ISOLATES).inboxes
    ensures AfterKill(Filled(MAX_ISOLATES), 1).nextId == 65
  {
  }

  /** The 65th spawn, after the first isolate was marked dead and before its inbox is removed,
      takes the dead handle's slot and gets no inbox. */
  lemma SpawnInsideKillMisses() returns (states: seq<State>, steps: seq<Step>)
    ensures IsRun(states, steps) && |steps| == 66
    ensures Alive(states[66].handles, 65) && !HasInbox(states[66].inboxes, 65) && states[66].missed == {65}
  {
    hide After, AllocSlot, FreeInbox, FindLive, AfterKill;
    states, steps := FilledRun(64);
    states, steps := Longer(states, steps, Kill(1));
    var s := states[65];
    assert s == AfterKill(Filled(64), 1) by { KillIs(); }
    KillFirst();
    KillMisses();
    states, steps := Longer(states, steps, Spawn(0));
    LastSpawn(s);
    assert states[66] == AfterSpawn(s, 0) by { SpawnIs(s); }
  }

  lemma KillIs()
    ensures After(Filled(64), Kill(1)) == AfterKill(Filled(64), 1)
  {
  }

  lemma KillMisses()
    ensures AfterKill(Filled(64), 1).missed == {}
  {
  }

  lemma SpawnIs(s: State)
    ensures After(s, Spawn(0)) == AfterSpawn(s, 0)
  {
  }

  lemma LastSpawn(s: State)
    requires s.handles == WithPhase(Filled(MAX_ISOLATES).handles, 0, Dead)
    requires s.inboxes == Filled(MAX_ISOLATES).inboxes && s.nextId == 65 && s.missed == {}
    ensures var s' := AfterSpawn(s, 0);
            Alive(s'.handles, 65) && !HasInbox(s'.inboxes, 65) && s'.missed == {65}
  {
    hide AllocSlot, FreeInbox, FilledTraffic;
    var at := AllocSlot(s.handles, 0, None);
    assert !IsLive(s.handles[0]);
    assert FreeInbox(s.inboxes, 0).None?;
    var s' := AfterSpawn(s, 0);
    assert LiveAs(s'.handles[at.value], 65);
  }

  // ── After the ids wrap ─────────────────────────────────────────────────────

  ghost predicate LiveDistinct(hs: Handles) {
    forall i, j :: 0 <= i < j < |hs| && IsLive(hs[i]) && IsLive(hs[j]) ==> hs[i].value.id != hs[j].value.id
  }

  /** Whatever was spawned before, a spawn that gets a handle keeps live ids distinct exactly
      when its id is not live, keeps the dead dead exactly when its id never died, and keeps
      inboxes distinct exactly when its id has none or it gets none itself. */
  lemma WrappedSpawn(s: State, owner: nat)
    requires AllocSlot(s.handles, 0, None).Some? && LiveDistinct(s.handles) && InboxesDistinct(s.inboxes)
    requires forall id :: id in s.dead ==> !Alive(s.handles, id)
    ensures var s' := AfterSpawn(s, owner);
            && (LiveDistinct(s'.handles) <==> !Alive(s.handles, s.nextId))
            && ((forall id :: id in s'.dead ==> !Alive(s'.handles, id)) <==> s.nextId !in s.dead)
            && (InboxesDistinct(s'.inboxes) <==> FreeInbox(s.inboxes, 0).None? || !HasInbox(s.inboxes, s.nextId))
  {
    hide AllocSlot, FreeInbox;
    var s', i := AfterSpawn(s, owner), AllocSlot(s.handles, 0, None).value;
    assert LiveAs(s'.handles[i], s.nextId);
    forall id: nat ensures Alive(s'.handles, id) <==> Alive(s.handles, id) || id == s.nextId {
      AddedHandle(s.handles, i, s'.handles[i], id);
    }
    WrappedHandles(s.handles, i, s'.handles[i]);
    var free := FreeInbox(s.inboxes, 0);
    if free.Some? {
      WrappedInboxes(s.inboxes, free.value, s'.inboxes[free.value]);
    }
  }

  lemma WrappedHandles(hs: Handles, i: nat, h: Option<Handle>)
    requires i < |hs| && !IsLive(hs[i]) && IsLive(h) && LiveDistinct(hs)
    ensures LiveDistinct(hs[i := h]) <==> !Alive(hs, h.value.id)
  {
    var hs' := hs[i := h];
    if Alive(hs, h.value.id) {
      var j :| 0 <= j < |hs| && LiveAs(hs[j], h.value.id);
      assert IsLive(hs'[j]) && IsLive(hs'[i]) && hs'[j].value.id == hs'[i].value.id;
    } else {
      assert forall j :: 0 <= j < |hs| ==> !LiveAs(hs[j], h.value.id);
    }
  }

  lemma WrappedInboxes(bs: Inboxes, i: nat, b: Option<Inbox>)
    requires i < |bs| && bs[i].None? && b.Some? && InboxesDistinct(bs)
    ensures InboxesDistinct(bs[i := b]) <==> !HasInbox(bs, b.value.id)
  {
    var bs' := bs[i := b];
    if HasInbox(bs, b.value.id) {
      var j :| 0 <= j < |bs| && InboxOf(bs[j], b.value.id);
      assert bs'[j].Some? && bs'[i].Some? && bs'[j].value.id == bs'[i].value.id;
    } else {
      assert forall j :: 0 <= j < |bs| ==> !InboxOf(bs[j], b.value.id);
    }
  }

  // ── A run in which they do ─────────────────────────────────────────────────

  /** The id handed out after the first isolate and `n` more. */
  function IdAfter(n: nat): nat {
    if n < U32 - 2 then n + 2 else 1
  }

  /** Isolate 1 is the only one alive, after `n` others came and went. */
  ghost predicate Alone(s: State, n: nat) {
    && |s.handles| == MAX_ISOLATES == |s.inboxes| && s.dying == [] && s.nextId == IdAfter(n)
    && LiveAs(s.handles[0], 1) && (forall i :: 1 <= i < MAX_ISOLATES ==> !IsLive(s.handles[i]))
    && InboxOf(s.inboxes[0], 1) && (forall i :: 1 <= i < MAX_ISOLATES ==> s.inboxes[i].None?)
    && (n >= 1 ==> 2 in s.dead)
  }

  /** Beside isolate 1 another one, in handle slot `i` and inbox slot 1. */
  ghost predicate Beside(s: State, i: nat, id: nat) {
    && |s.handles| == MAX_ISOLATES == |s.inboxes| && s.dying == [] && 1 <= i < MAX_ISOLATES
    && LiveAs(s.handles[0], 1) && LiveAs(s.handles[i], id)
    && (forall j :: 1 <= j < MAX_ISOLATES && j != i ==> !IsLive(s.handles[j]))
    && InboxOf(s.inboxes[0], 1) && InboxOf(s.inboxes[1], id)
    && (forall j :: 2 <= j < MAX_ISOLATES ==> s.inboxes[j].None?)
  }

  lemma OneComes(s: State, n: nat) returns (i: nat)
    requires Alone(s, n)
    ensures var s' := AfterSpawn(s, 0);
            Beside(s', i, s.nextId) && s'.nextId == NextId(s.nextId) && s'.dead == s.dead
  {
    hide AllocSlot, FreeInbox;
    var at, free := AllocSlot(s.handles, 0, None), FreeInbox(s.inboxes, 0);
    assert !IsLive(s.handles[1]) && s.inboxes[1].None?;
    FreeIsOne(s.inboxes);
    i := at.value;
  }

  lemma FreeIsOne(bs: Inboxes)
    requires |bs| == MAX_ISOLATES && bs[0].Some? && bs[1].None?
    ensures FreeInbox(bs, 0) == Some(1)
  {
  }

  lemma OneDies(s: State, i: nat, id: nat)
    requires Beside(s, i, id) && id != 1
    ensures var s' := AfterKill(s, id);
            && s' == s.(handles := WithPhase(s.handles, i, Dead), dying := [id], dead := s.dead + {id})
  {
    hide FindLive;
    var at := FindLive(s.handles, id, 0);
    assert at.Some? && at.value == i;
    assert s.dying + [id] == [id];
  }

  lemma OneGoes(s: State, id: nat)
    requires |s.inboxes| == MAX_ISOLATES && s.dying == [id] && InboxOf(s.inboxes[1], id) && !InboxOf(s.inboxes[0], id)
    ensures AfterTearDown(s, 0) == s.(inboxes := s.inboxes[1 := None], dying := [], missed := s.missed - {id})
  {
    assert FindInbox(s.inboxes, id, 1) == Some(1);
  }

  lemma ComesAndGoes(s: State, n: nat)
    requires Alone(s, n) && n < U32 - 2
    ensures Alone(AfterTearDown(ThenKilled(s), 0), n + 1)
  {
    hide AfterSpawn, AfterKill, AfterTearDown, Beside;
    var id := s.nextId;
    var i := OneComes(s, n);
    var s1 := AfterSpawn(s, 0);
    OneDies(s1, i, id);
    BesideIs(s1, i, id);
    OneGoes(AfterKill(s1, id), id);
  }

  lemma BesideIs(s: State, i: nat, id: nat)
    requires Beside(s, i, id)
    ensures && |s.handles| == MAX_ISOLATES == |s.inboxes| && s.dying == [] && 1 <= i < MAX_ISOLATES
            && LiveAs(s.handles[0], 1) && LiveAs(s.handles[i], id)
            && (forall j :: 1 <= j < MAX_ISOLATES && j != i ==> !IsLive(s.handles[j]))
            && InboxOf(s.inboxes[0], 1) && InboxOf(s.inboxes[1], id)
            && (forall j :: 2 <= j < MAX_ISOLATES ==> s.inboxes[j].None?)
  {
  }

  /** A spawn and the kill of what it spawned. */
  ghost function ThenKilled(s: State): (r: State)
    requires exists n: nat :: Alone(s, n) && n < U32 - 2
    ensures |r.dying| == 1
  {
    var n: nat :| Alone(s, n) && n < U32 - 2;
    assert |AfterKill(AfterSpawn(s, 0), s.nextId).dying| == 1 by {
      var i := OneComes(s, n);
      OneDies(AfterSpawn(s, 0), i, s.nextId);
    }
    AfterKill(AfterSpawn(s, 0), s.nextId)
  }

  lemma {:induction false} AloneRun(n: nat) returns (states: seq<State>, steps: seq<Step>)
    requires n <= U32 - 2
    ensures IsRun(states, steps) && |steps| == 3 * n + 1 && Alone(states[|steps|], n)
  {
    hide After, Alone, AfterSpawn, AfterKill, AfterTearDown;
    if n == 0 {
      states, steps := FilledRun(1);
      assert Alone(states[1], 0) by { FirstAlone(); }
    } else {
      states, steps := AloneRun(n - 1);
      var s := states[|steps|];
      ComesAndGoes(s, n - 1);
      StepsAre(s, n - 1);
      states, steps := Longer(states, steps, Spawn(0));
      states, steps := Longer(states, steps, Kill(s.nextId));
      states, steps := Longer(states, steps, TearDown(0));
    }
  }

  lemma FirstAlone()
    ensures Alone(Filled(1), 0)
  {
  }

  lemma StepsAre(s: State, n: nat)
    requires Alone(s, n) && n < U32 - 2
    ensures After(After(s, Spawn(0)), Kill(s.nextId)) == ThenKilled(s)
    ensures Enabled(ThenKilled(s), TearDown(0)) && After(ThenKilled(s), TearDown(0)) == AfterTearDown(ThenKilled(s), 0)
  {
    hide AfterSpawn, AfterKill, AfterTearDown;
  }

  /** Ids do collide: when isolate 1 outlives 2^32 - 2 others, the next spawn makes a second live
      isolate 1 with a second inbox 1, and the one after that brings isolate 2 back from the dead. */
  lemma IdsCollide() returns (states: seq<State>, steps: seq<Step>)
    ensures IsRun(states, steps) && |steps| == 3 * (U32 - 2) + 3
    ensures var s := states[|steps| - 1];
            !LiveDistinct(s.handles) && !InboxesDistinct(s.inboxes)
    ensures var s := states[|steps|];
            2 in s.dead && Alive(s.handles, 2)
  {
    hide After, AfterSpawn, Beside;
    var n := U32 - 2;
    states, steps := AloneRun(n);
    var s := states[|steps|];
    var i := OneComes(s, n);
    var s1 := AfterSpawn(s, 0);
    assert After(s, Spawn(0)) == s1 by { SpawnIs(s); }
    states, steps := Longer(states, steps, Spawn(0));
    BesideIs(s1, i, 1);
    assert !LiveDistinct(s1.handles) && !InboxesDistinct(s1.inboxes);
    AnotherComes(s1, i);
    assert After(s1, Spawn(0)) == AfterSpawn(s1, 0) by { SpawnIs(s1); }
    states, steps := Longer(states, steps, Spawn(0));
  }

  lemma AnotherComes(s: State, i: nat)
    requires Beside(s, i, 1)
    ensures var s' := AfterSpawn(s, 0);
            Alive(s'.handles, s.nextId) && s'.dead == s.dead
  {
    hide AllocSlot, FreeInbox, WithInbox;
    var at := AllocSlot(s.handles, 0, None);
    assert !IsLive(s.handles[if i == 1 then 2 else 1]);
    assert LiveAs(AfterSpawn(s, 0).handles[at.value], s.nextId);
  }

  // ── The tables as the kernel keeps them ────────────────────────────────────

  class Tables {
    var handles: Handles
    var nextId: nat
    var inboxes: Inboxes

    constructor ()
      ensures handles == Start().handles && nextId == 1 && inboxes == Start().inboxes
    {
      handles := seq(MAX_ISOLATES, _ => None);
      nextId := 1;
      inboxes := seq(MAX_ISOLATES, _ => None);
    }

    method AllocHandle() returns (r: Option<nat>)
      ensures r == AllocSlot(handles, 0, None)
    {
      var dead: Option<nat> := None;
      var i := 0;
      while i < |handles|
        invariant 0 <= i <= |handles|
        invariant dead.Some? ==> dead.value < i && handles[dead.value].Some? && !IsLive(handles[dead.value])
        invariant AllocSlot(handles, 0, None) == AllocSlot(handles, i, dead)
      {
        if handles[i].None? {
          return Some(i);
        }
        if dead.None? && !IsLive(handles[i]) {
          dead := Some(i);
        }
        i := i + 1;
      }
      return dead;
    }

    method LiveHandle(id: nat) returns (r: Option<nat>)
      ensures r == FindLive(handles, id, 0)
    {
      var i := 0;
      while i < |handles|
        invariant 0 <= i <= |handles|
        invariant FindLive(handles, id, 0) == FindLive(handles, id, i)
      {
        if LiveAs(handles[i], id) {
          return Some(i);
        }
        i := i + 1;
      }
      return None;
    }

    method InboxSlot(id: nat) returns (r: Option<nat>)
      ensures r == FindInbox(inboxes, id, 0)
    {
      var i := 0;
      while i < |inboxes|
        invariant 0 <= i <= |inboxes|
        invariant FindInbox(inboxes, id, 0) == FindInbox(inboxes, id, i)
      {
        if InboxOf(inboxes[i], id) {
          return Some(i);
        }
        i := i + 1;
      }
      return None;
    }

    method CreateInbox(id: nat)
      modifies this`inboxes
      ensures inboxes == WithInbox(old(inboxes), id)
    {
      var i := 0;
      while i < |inboxes|
        invariant 0 <= i <= |inboxes| && inboxes == old(inboxes)
        invariant FreeInbox(inboxes, 0) == FreeInbox(inboxes, i)
      {
        if inboxes[i].None? {
          inboxes := inboxes[i := Some(Inbox(id, [], 0))];
          return;
        }
        i := i + 1;
      }
    }

    method DestroyInbox(id: nat)
      modifies this`inboxes
      ensures inboxes == WithoutInbox(old(inboxes), id)
    {
      var at := InboxSlot(id);
      if at.Some? {
        inboxes := inboxes[at.value := None];
      }
    }

    method SpawnIsolate(owner: nat, ghost s: State) returns (r: Option<nat>)
      requires s.handles == handles && s.nextId == nextId && s.inboxes == inboxes
      modifies this
      ensures var s' := AfterSpawn(s, owner);
              handles == s'.handles && nextId == s'.nextId && inboxes == s'.inboxes
      ensures r == if AllocSlot(s.handles, 0, None).Some? then Some(s.nextId) else None
    {
      hide AllocSlot, WithInbox;
      var at := AllocHandle();
      if at.None? {
        return None;
      }
      var id := nextId;
      nextId := NextId(nextId);
      handles := handles[at.value := Some(Handle(id, Running, owner))];
      CreateInbox(id);
      return Some(id);
    }

    method MarkDead(id: nat, ghost s: State) returns (ok: bool)
      requires s.handles == handles
      modifies this`handles
      ensures handles == AfterKill(s, id).handles && ok == FindLive(s.handles, id, 0).Some?
    {
      var at := LiveHandle(id);
      if at.None? {
        return false;
      }
      handles := handles[at.value := Some(handles[at.value].value.(phase := Dead))];
      return true;
    }

    method SetPhase(id: nat, from: Phase, to: Phase, ghost s: State) returns (ok: bool)
      requires s.handles == handles
      modifies this`handles
      ensures handles == AfterControl(s, id, from, to).handles && ok == FindLive(s.handles, id, 0).Some?
    {
      var at := LiveHandle(id);
      if at.None? {
        return false;
      }
      if handles[at.value].value.phase == from {
        handles := handles[at.value := Some(handles[at.value].value.(phase := to))];
      }
      return true;
    }

    method SendTo(id: nat, m: Message, ghost s: State) returns (ok: bool)
      requires s.inboxes == inboxes
      modifies this`inboxes
      ensures inboxes == AfterSend(s, id, m).inboxes
      ensures ok == (|m| <= MAX_MSG_SIZE && FindInbox(s.inboxes, id, 0).Some?)
    {
      hide Push;
      if |m| > MAX_MSG_SIZE {
        return false;
      }
      var at := InboxSlot(id);
      if at.None? {
        return false;
      }
      inboxes := inboxes[at.value := Some(Push(inboxes[at.value].value, m))];
      return true;
    }

    method RecvFrom(id: nat, room: nat, ghost s: State) returns (m: Message)
      requires s.inboxes == inboxes
      modifies this`inboxes
      ensures inboxes == AfterRecv(s, id, room).inboxes
      ensures var at := FindInbox(s.inboxes, id, 0);
              m == if at.Some? then Pop(s.inboxes[at.value].value, room).1 else []
    {
      hide Pop;
      var at := InboxSlot(id);
      if at.None? {
        return [];
      }
      var (b, msg) := Pop(inboxes[at.value].value, room);
      inboxes := inboxes[at.value := Some(b)];
      return msg;
    }
  }
}
