// internal/realm/admin/trace capture.go, lifecycle.go and finalize.go: bounded packet traces,
// persisted by one worker from a bounded queue and uploaded behind a flush barrier.
module TraceLog {
  import opened Wrappers

  // maxEntries and maxBytes bound one trace, capacity the queue of pending writes.
  datatype Limits = Limits(maxEntries: nat, maxBytes: nat, capacity: nat)

  // An encoded line is never empty.
  type Length = n: nat | n > 0 witness 1

  // One encoded line: its seq and ts fields, its length, and the packet it is about.
  datatype Entry = Entry(number: nat, at: int, size: Length, packet: int)

  datatype Session = Session(expiresAt: int, count: nat, bytes: nat, truncated: bool, finalizing: bool)

  datatype Request = Request(player: int, session: Session, line: Option<Entry>, done: Option<nat>)

  // How far a Finalize call has come: session marked, barrier queued, barrier persisted,
  // file uploaded, stored keys removed.
  datatype Phase = Marked | Waiting(barrier: nat) | Flushed | Uploaded | Cleaned
  datatype Final = Final(snapshot: Session, phase: Phase)

  // What happened to a trace: the packets it was offered within its window while not being
  // finalized, the lines it accepted, those of them the store failed to append, and what its
  // list held when it began.
  datatype History = History(activation: nat, offered: seq<int>, accepted: seq<Entry>, lost: set<nat>,
                             stale: seq<Entry>)

  datatype Upload = Upload(player: int, session: Session, history: History, entries: seq<Entry>)

  datatype View = View(
    sessions: map<int, Session>, writes: seq<Request>, lists: map<int, seq<Entry>>, finals: map<int, Final>,
    history: map<int, History>, uploads: seq<Upload>, barriers: nat, activations: nat)

  const EMPTY := View(map[], [], map[], map[], map[], [], 0, 0)

  function ListOf(v: View, player: int): seq<Entry> {
    if player in v.lists then v.lists[player] else []
  }

  // ---------------------------------------------------------------- the steps

  datatype Step =
    | Activate(player: int, expiresAt: int)
    | Capture(player: int, now: int, size: Length, packet: int)
    | Persist(appended: bool, stored: bool)     // did ListAppend succeed, did Set
    | BeginFinalize(player: int)
    | SendBarrier(player: int)
    | GiveUp(player: int)                       // context done, barrier failed, lock or upload failed
    | UploadFile(player: int)
    | Cleanup(player: int, deleted: bool)       // was the entry list deleted
    | Remove(player: int)

  function Activated(v: View, player: int, expiresAt: int): View {
    if player in v.sessions then v
    else v.(sessions := v.sessions[player := Session(expiresAt, 0, 0, false, false)],
            history := v.history[player := History(v.activations, [], [], {}, ListOf(v, player))],
            activations := v.activations + 1)
  }

  predicate Room(limits: Limits, v: View) {
    |v.writes| < limits.capacity
  }

  // The packet falls into the window of a trace that is not being finalized.
  function Offered(h: History, packet: int): History {
    h.(offered := h.offered + [packet])
  }

  function HistoryOf(v: View, player: int): History {
    if player in v.history then v.history[player] else History(0, [], [], {}, [])
  }

  function WithHistory(v: View, player: int, h: History): View {
    if player in v.history then v.(history := v.history[player := h]) else v
  }

  function Captured(limits: Limits, v: View, player: int, now: int, size: Length, packet: int): View {
    if player !in v.sessions then v
    else
      var s := v.sessions[player];
      if s.finalizing || now >= s.expiresAt then v
      else if s.truncated then WithHistory(v, player, Offered(HistoryOf(v, player), packet))
      else if s.count >= limits.maxEntries || s.bytes + size > limits.maxBytes then
        var t := Truncated(v, player, packet);
        if Room(limits, v) then t.(writes := v.writes + [Request(player, t.sessions[player], None, None)]) else t
      else if Room(limits, v) then Accepted(v, player, Entry(s.count + 1, now, size, packet))
      else Truncated(v, player, packet)
  }

  function Truncated(v: View, player: int, packet: int): View
    requires player in v.sessions
  {
    WithHistory(v, player, Offered(HistoryOf(v, player), packet))
      .(sessions := v.sessions[player := v.sessions[player].(truncated := true)])
  }

  function Accepted(v: View, player: int, line: Entry): View
    requires player in v.sessions
  {
    var s := v.sessions[player];
    var next := s.(count := s.count + 1, bytes := s.bytes + line.size);
    var h := HistoryOf(v, player);
    WithHistory(v, player, Offered(h, line.packet).(accepted := h.accepted + [line]))
      .(sessions := v.sessions[player := next], writes := v.writes + [Request(player, next, Some(line), None)])
  }

  function Persisted(v: View, appended: bool, stored: bool): View {
    if v.writes == [] then v
    else
      var r := v.writes[0];
      var w := v.(writes := v.writes[1..]);
      if r.line.Some? then Stored(w, r.player, r.line.value, appended) else Resolved(w, r, stored)
  }

  // The worker appends one line, or fails to.
  function Stored(v: View, player: int, line: Entry, appended: bool): View {
    if appended then v.(lists := v.lists[player := ListOf(v, player) + [line]])
    else if player in v.history
    then v.(history := v.history[player := v.history[player].(lost := v.history[player].lost + {line.number})])
    else v
  }

  // The worker answers a barrier; one that failed leaves its Finalize with nothing but to
  // give up, and so does one nobody waits for any more.
  function Resolved(v: View, r: Request, stored: bool): View {
    if stored && r.done.Some? && r.player in v.finals && v.finals[r.player].phase == Waiting(r.done.value)
    then Moved(v, r.player, Flushed) else v
  }

  function Moved(v: View, player: int, phase: Phase): View
    requires player in v.finals
  {
    v.(finals := v.finals[player := v.finals[player].(phase := phase)])
  }

  function Begun(v: View, player: int): View {
    if player !in v.sessions || v.sessions[player].finalizing then v
    else
      var s := v.sessions[player].(finalizing := true);
      v.(sessions := v.sessions[player := s], finals := v.finals[player := Final(s, Marked)])
  }

  function Sent(limits: Limits, v: View, player: int): View {
    if player in v.finals && v.finals[player].phase == Marked && Room(limits, v)
    then Moved(v, player, Waiting(v.barriers))
         .(writes := v.writes + [Request(player, v.finals[player].snapshot, None, Some(v.barriers))],
           barriers := v.barriers + 1)
    else v
  }

  function GivenUp(v: View, player: int): View {
    if player in v.finals && player in v.sessions
       && !v.finals[player].phase.Uploaded? && !v.finals[player].phase.Cleaned?
    then v.(sessions := v.sessions[player := v.sessions[player].(finalizing := false)], finals := v.finals - {player})
    else v
  }

  function FileUploaded(v: View, player: int): View {
    if player in v.finals && player in v.history && v.finals[player].phase == Flushed
    then Moved(v, player, Uploaded)
         .(uploads := v.uploads + [Upload(player, v.finals[player].snapshot, v.history[player], ListOf(v, player))])
    else v
  }

  function CleanedUp(v: View, player: int, deleted: bool): View {
    if player in v.finals && v.finals[player].phase == Uploaded
    then Moved(v, player, Cleaned).(lists := if deleted then v.lists - {player} else v.lists)
    else v
  }

  function Removed(v: View, player: int): View {
    if player in v.finals && v.finals[player].phase == Cleaned
    then v.(sessions := v.sessions - {player}, finals := v.finals - {player}, history := v.history - {player})
    else v
  }

  function After(limits: Limits, v: View, step: Step): View {
    match step
    case Activate(player, expiresAt) => Activated(v, player, expiresAt)
    case Capture(player, now, size, packet) => Captured(limits, v, player, now, size, packet)
    case Persist(appended, stored) => Persisted(v, appended, stored)
    case BeginFinalize(player) => Begun(v, player)
    case SendBarrier(player) => Sent(limits, v, player)
    case GiveUp(player) => GivenUp(v, player)
    case UploadFile(player) => FileUploaded(v, player)
    case Cleanup(player, deleted) => CleanedUp(v, player, deleted)
    case Remove(player) => Removed(v, player)
  }

  function Run(limits: Limits, steps: seq<Step>): View
    decreases |steps|
  {
    if steps == [] then EMPTY else After(limits, Run(limits, steps[..|steps| - 1]), steps[|steps| - 1])
  }

  // A packet within the window of an active trace that is neither truncated nor being
  // finalized is recorded exactly when the line fits the limits and the queue has room;
  // otherwise the trace is truncated. No other packet changes any trace or the queue.
  lemma CaptureExactly(limits: Limits, v: View, player: int, now: int, size: Length, packet: int)
    requires player in v.sessions
    ensures var s := v.sessions[player];
      var w := After(limits, v, Capture(player, now, size, packet));
      var live := !s.finalizing && !s.truncated && now < s.expiresAt;
      var fits := s.count + 1 <= limits.maxEntries && s.bytes + size <= limits.maxBytes;
      var next := Session(s.expiresAt, s.count + 1, s.bytes + size, false, false);
      && w.lists == v.lists
      && w.sessions == v.sessions[player := if !live then s
                                            else if fits && |v.writes| < limits.capacity then next
                                            else s.(truncated := true)]
      && w.writes == v.writes + (
        if !live || |v.writes| >= limits.capacity then []
        else if fits then [Request(player, next, Some(Entry(s.count + 1, now, size, packet)), None)]
        else [Request(player, s.(truncated := true), None, None)])
  {
    assert v.writes + [] == v.writes;
    assert v.sessions[player := v.sessions[player]] == v.sessions;
  }

  // Activating starts an empty trace, remembering what its list holds, unless there is one.
  lemma ActivatesExactly(limits: Limits, v: View, player: int, expiresAt: int)
    ensures var w := After(limits, v, Activate(player, expiresAt));
      if player in v.sessions then w == v
      else
        && w.sessions == v.sessions[player := Session(expiresAt, 0, 0, false, false)]
        && w.history == v.history[player := History(v.activations, [], [], {}, ListOf(v, player))]
        && w.activations > v.activations
        && (w.writes, w.lists, w.finals, w.uploads) == (v.writes, v.lists, v.finals, v.uploads)
  {
  }

  // A cleanup that fails leaves the list, and with it its lines for the next trace.
  lemma CleanupExactly(limits: Limits, v: View, player: int, deleted: bool)
    requires player in v.finals && v.finals[player].phase == Uploaded
    ensures var w := After(limits, v, Cleanup(player, deleted));
      && ListOf(w, player) == (if deleted then [] else ListOf(v, player))
      && (forall p :: p != player ==> ListOf(w, p) == ListOf(v, p))
      && player in w.finals && w.finals[player] == v.finals[player].(phase := Cleaned)
      && (w.sessions, w.writes, w.history, w.uploads) == (v.sessions, v.writes, v.history, v.uploads)
  {
  }

  // So a trace becomes truncated only by a packet in its window that would go over a limit
  // or finds the queue full.
  lemma TruncatedOnlyWhenFull(limits: Limits, v: View, step: Step, player: int)
    requires player in v.sessions && !v.sessions[player].truncated
    requires player in After(limits, v, step).sessions && After(limits, v, step).sessions[player].truncated
    ensures step.Capture? && step.player == player && step.now < v.sessions[player].expiresAt
    ensures v.sessions[player].count >= limits.maxEntries || v.sessions[player].bytes + step.size > limits.maxBytes
            || |v.writes| >= limits.capacity
  {
  }

  // ---------------------------------------------------------------- lines

  // The lines of one player waiting in the queue.
  function Lines(writes: seq<Request>, player: int): seq<Entry> {
    if writes == [] then []
    else if writes[0].player == player && writes[0].line.Some? then [writes[0].line.value] + Lines(writes[1..], player)
    else Lines(writes[1..], player)
  }

  lemma {:induction false} LinesAppend(writes: seq<Request>, r: Request, player: int)
    ensures Lines(writes + [r], player)
            == Lines(writes, player) + (if r.player == player && r.line.Some? then [r.line.value] else [])
  {
    if writes == [] {
      assert ([] + [r])[1..] == [];
    } else {
      assert (writes + [r])[1..] == writes[1..] + [r];
      LinesAppend(writes[1..], r, player);
    }
  }

  function Total(es: seq<Entry>): nat {
    if es == [] then 0 else Total(es[..|es| - 1]) + es[|es| - 1].size
  }

  predicate Numbered(es: seq<Entry>) {
    forall i :: 0 <= i < |es| ==> es[i].number == i + 1
  }

  // The lines that were not lost.
  function Keep(es: seq<Entry>, lost: set<nat>): seq<Entry> {
    if es == [] then []
    else
      var front := Keep(es[..|es| - 1], lost);
      if es[|es| - 1].number in lost then front else front + [es[|es| - 1]]
  }

  lemma {:induction false} KeepIgnoresLater(es: seq<Entry>, lost: set<nat>, number: nat)
    requires forall i :: 0 <= i < |es| ==> es[i].number < number
    ensures Keep(es, lost + {number}) == Keep(es, lost)
  {
    if es != [] {
      KeepIgnoresLater(es[..|es| - 1], lost, number);
    }
  }

  lemma {:induction false} KeepAll(es: seq<Entry>)
    ensures Keep(es, {}) == es
  {
    if es != [] {
      KeepAll(es[..|es| - 1]);
      assert es == es[..|es| - 1] + [es[|es| - 1]];
    }
  }

  // Something is missing as soon as one of the lines was lost.
  lemma {:induction false} KeepDrops(es: seq<Entry>, lost: set<nat>)
    ensures |Keep(es, lost)| <= |es|
    ensures |Keep(es, lost)| == |es| ==> forall i :: 0 <= i < |es| ==> es[i].number !in lost
  {
    if es != [] {
      KeepDrops(es[..|es| - 1], lost);
    }
  }

  // ---------------------------------------------------------------- the invariant

  // Barrier b sits behind every line of the player.
  predicate Behind(writes: seq<Request>, player: int, barrier: nat)
  {
    writes == [] ||
    (Behind(writes[1..], player, barrier) && (writes[0].done == Some(barrier) ==> Lines(writes, player) == []))
  }

  predicate Older(writes: seq<Request>, barriers: nat) {
    forall i :: 0 <= i < |writes| && writes[i].done.Some? ==> writes[i].done.value < barriers
  }

  // The counters of an active trace.
  predicate CountInv(limits: Limits, s: Session, h: History) {
    && s.count == |h.accepted| <= limits.maxEntries
    && s.bytes == Total(h.accepted) <= limits.maxBytes
    && Numbered(h.accepted)
    && InWindow(h, s.expiresAt)
    && (!s.truncated ==> |h.accepted| == |h.offered|)
  }

  // The accepted lines are about the first packets offered, in order, all within the window.
  predicate InWindow(h: History, expiresAt: int) {
    && |h.accepted| <= |h.offered|
    && forall i :: 0 <= i < |h.accepted| ==> h.accepted[i].packet == h.offered[i] && h.accepted[i].at < expiresAt
  }

  // Its list holds, after what was there before, the lines no longer queued that were not lost.
  predicate ListInv(h: History, list: seq<Entry>, queued: seq<Entry>) {
    && |queued| <= |h.accepted|
    && var n := |h.accepted| - |queued|;
       && h.accepted[n..] == queued
       && list == h.stale + Keep(h.accepted[..n], h.lost)
       && (forall k :: k in h.lost ==> 1 <= k <= n)
  }

  predicate PhaseInv(v: View, player: int)
    requires player in v.finals
  {
    match v.finals[player].phase
    case Marked => true
    case Waiting(barrier) => Behind(v.writes, player, barrier) && barrier < v.barriers
    case _ => Lines(v.writes, player) == []
  }

  predicate IsCleaned(v: View, player: int) {
    player in v.finals && v.finals[player].phase == Cleaned
  }

  predicate PlayerInv(limits: Limits, v: View, player: int) {
    && (player in v.sessions <==> player in v.history)
    && (player in v.finals <==> player in v.sessions && v.sessions[player].finalizing)
    && (player in v.finals ==> v.finals[player].snapshot == v.sessions[player] && PhaseInv(v, player))
    && (player in v.sessions ==> CountInv(limits, v.sessions[player], v.history[player]))
    && (if player in v.sessions
        then !IsCleaned(v, player) ==> ListInv(v.history[player], ListOf(v, player), Lines(v.writes, player))
        else Lines(v.writes, player) == [])
  }

  predicate QueueInv(limits: Limits, v: View) {
    |v.writes| <= limits.capacity && Older(v.writes, v.barriers)
  }

  ghost predicate Inv(limits: Limits, v: View) {
    QueueInv(limits, v) && forall player :: PlayerInv(limits, v, player)
  }

  lemma {:induction false} BehindAppend(writes: seq<Request>, r: Request, player: int, barrier: nat)
    requires Behind(writes, player, barrier)
    requires r.player == player ==> r.line.None?
    ensures Behind(writes + [r], player, barrier)
  {
    LinesAppend(writes, r, player);
    if writes == [] {
      assert (writes + [r])[1..] == [];
    } else {
      assert (writes + [r])[1..] == writes[1..] + [r];
      BehindAppend(writes[1..], r, player, barrier);
    }
  }

  lemma {:induction false} BehindFresh(writes: seq<Request>, r: Request, player: int, barrier: nat)
    requires Older(writes, barrier) && r.line.None?
    ensures Behind(writes + [r], player, barrier)
  {
    if writes == [] {
      assert (writes + [r])[1..] == [];
    } else {
      assert (writes + [r])[1..] == writes[1..] + [r];
      BehindFresh(writes[1..], r, player, barrier);
    }
  }

  // A step that leaves alone what the invariant of a player looks at keeps it.
  lemma PlayerKept(limits: Limits, v: View, w: View, player: int)
    requires PlayerInv(limits, v, player)
    requires (player in v.sessions <==> player in w.sessions) && (player in v.history <==> player in w.history)
    requires player in v.finals <==> player in w.finals
    requires player in v.sessions ==> v.sessions[player] == w.sessions[player]
    requires player in v.history ==> v.history[player] == w.history[player]
    requires player in v.finals ==> v.finals[player] == w.finals[player]
    requires ListOf(v, player) == ListOf(w, player) && Lines(v.writes, player) == Lines(w.writes, player)
    requires player in v.finals && v.finals[player].phase.Waiting?
             && Behind(v.writes, player, v.finals[player].phase.barrier)
             ==> Behind(w.writes, player, v.finals[player].phase.barrier)
    requires v.barriers <= w.barriers
    ensures PlayerInv(limits, w, player)
  {
    hide CountInv, ListInv, Lines, Behind;
  }

  lemma FreshTrace(limits: Limits, expiresAt: int, activation: nat, list: seq<Entry>)
    ensures CountInv(limits, Session(expiresAt, 0, 0, false, false), History(activation, [], [], {}, list))
    ensures ListInv(History(activation, [], [], {}, list), list, [])
  {
    assert list == list + Keep([], {});
  }

  lemma ActivateKeeps(limits: Limits, v: View, who: int, expiresAt: int, player: int)
    requires PlayerInv(limits, v, player)
    ensures PlayerInv(limits, Activated(v, who, expiresAt), player)
  {
    hide Lines, Behind, CountInv, ListInv;
    if who != player || who in v.sessions {
      PlayerKept(limits, v, Activated(v, who, expiresAt), player);
    } else {
      FreshTrace(limits, expiresAt, v.activations, ListOf(v, player));
    }
  }

  lemma QueueOther(v: View, r: Request, player: int)
    requires r.player == player ==> r.line.None?
    ensures Lines(v.writes + [r], player) == Lines(v.writes, player)
    ensures player in v.finals && v.finals[player].phase.Waiting?
            && Behind(v.writes, player, v.finals[player].phase.barrier)
            ==> Behind(v.writes + [r], player, v.finals[player].phase.barrier)
  {
    LinesAppend(v.writes, r, player);
    if player in v.finals && v.finals[player].phase.Waiting?
       && Behind(v.writes, player, v.finals[player].phase.barrier)
    {
      BehindAppend(v.writes, r, player, v.finals[player].phase.barrier);
    }
  }

  lemma AcceptKeepsLists(h: History, list: seq<Entry>, queued: seq<Entry>, line: Entry)
    requires ListInv(h, list, queued)
    ensures ListInv(Offered(h, line.packet).(accepted := h.accepted + [line]), list, queued + [line])
  {
    var n := |h.accepted| - |queued|;
    assert (h.accepted + [line])[..n] == h.accepted[..n];
    assert (h.accepted + [line])[n..] == h.accepted[n..] + [line];
  }

  lemma AcceptKeepsCounts(limits: Limits, s: Session, h: History, line: Entry)
    requires CountInv(limits, s, h) && line.number == s.count + 1 && line.at < s.expiresAt && !s.truncated
    requires s.count < limits.maxEntries && s.bytes + line.size <= limits.maxBytes
    ensures CountInv(limits, s.(count := s.count + 1, bytes := s.bytes + line.size),
                     Offered(h, line.packet).(accepted := h.accepted + [line]))
  {
    assert (h.accepted + [line])[..|h.accepted|] == h.accepted;
  }

  lemma OfferKeepsCounts(limits: Limits, s: Session, h: History, packet: int)
    requires CountInv(limits, s, h)
    ensures CountInv(limits, s.(truncated := true), Offered(h, packet))
  {
  }

  lemma OfferKeepsLists(h: History, packet: int, list: seq<Entry>, queued: seq<Entry>)
    requires ListInv(h, list, queued)
    ensures ListInv(Offered(h, packet), list, queued)
  {
  }

  lemma AcceptKeeps(limits: Limits, v: View, who: int, line: Entry, player: int)
    requires PlayerInv(limits, v, player) && who in v.sessions && who in v.history
    requires line.number == v.sessions[who].count + 1 && line.at < v.sessions[who].expiresAt
    requires !v.sessions[who].finalizing && !v.sessions[who].truncated
    requires v.sessions[who].count < limits.maxEntries && v.sessions[who].bytes + line.size <= limits.maxBytes
    ensures PlayerInv(limits, Accepted(v, who, line), player)
  {
    hide Lines, Behind, CountInv, ListInv;
    var w := Accepted(v, who, line);
    var r := w.writes[|v.writes|];
    if who != player {
      QueueOther(v, r, player);
      PlayerKept(limits, v, w, player);
    } else {
      LinesAppend(v.writes, r, player);
      AcceptKeepsLists(v.history[player], ListOf(v, player), Lines(v.writes, player), line);
      AcceptKeepsCounts(limits, v.sessions[player], v.history[player], line);
    }
  }

  lemma TruncateKeeps(limits: Limits, v: View, who: int, packet: int, player: int)
    requires PlayerInv(limits, v, player) && who in v.sessions && !v.sessions[who].finalizing
    ensures PlayerInv(limits, Truncated(v, who, packet), player)
  {
    hide Lines, Behind, CountInv, ListInv;
    var w := Truncated(v, who, packet);
    if who != player {
      PlayerKept(limits, v, w, player);
    } else {
      OfferKeepsCounts(limits, v.sessions[player], v.history[player], packet);
      OfferKeepsLists(v.history[player], packet, ListOf(v, player), Lines(v.writes, player));
    }
  }

  lemma OfferKeeps(limits: Limits, v: View, who: int, packet: int, player: int)
    requires PlayerInv(limits, v, player)
    requires who in v.sessions && !v.sessions[who].finalizing && v.sessions[who].truncated
    ensures PlayerInv(limits, WithHistory(v, who, Offered(HistoryOf(v, who), packet)), player)
  {
    TruncateKeeps(limits, v, who, packet, player);
    assert Truncated(v, who, packet).sessions == v.sessions;
  }

  lemma CaptureKeeps(limits: Limits, v: View, who: int, now: int, size: Length, packet: int, player: int)
    requires PlayerInv(limits, v, player) && PlayerInv(limits, v, who)
    ensures PlayerInv(limits, Captured(limits, v, who, now, size, packet), player)
  {
    hide Lines, Behind, CountInv, ListInv;
    if who in v.sessions {
      var s := v.sessions[who];
      if s.finalizing || now >= s.expiresAt {
      } else if s.truncated {
        OfferKeeps(limits, v, who, packet, player);
      } else if s.count < limits.maxEntries && s.bytes + size <= limits.maxBytes && Room(limits, v) {
        AcceptKeeps(limits, v, who, Entry(s.count + 1, now, size, packet), player);
      } else {
        TruncateKeeps(limits, v, who, packet, player);
        var t := Truncated(v, who, packet);
        var r := Request(who, t.sessions[who], None, None);
        QueueOther(t, r, player);
        PlayerKept(limits, t, t.(writes := v.writes + [r]), player);
      }
    }
  }

  lemma AppendedKeepsList(h: History, list: seq<Entry>, line: Entry, queued: seq<Entry>)
    requires ListInv(h, list, [line] + queued) && Numbered(h.accepted)
    ensures ListInv(h, list + [line], queued)
  {
    var n := |h.accepted| - |queued| - 1;
    assert h.accepted[n] == h.accepted[n..][0] == line;
    assert h.accepted[n + 1..] == h.accepted[n..][1..] == queued;
    assert h.accepted[..n + 1][..n] == h.accepted[..n];
    assert list + [line] == h.stale + (Keep(h.accepted[..n], h.lost) + [line]);
  }

  lemma LostKeepsList(h: History, list: seq<Entry>, line: Entry, queued: seq<Entry>)
    requires ListInv(h, list, [line] + queued) && Numbered(h.accepted)
    ensures ListInv(h.(lost := h.lost + {line.number}), list, queued)
  {
    var n := |h.accepted| - |queued| - 1;
    assert h.accepted[n] == h.accepted[n..][0] == line;
    assert h.accepted[n + 1..] == h.accepted[n..][1..] == queued;
    assert h.accepted[..n + 1][..n] == h.accepted[..n];
    KeepIgnoresLater(h.accepted[..n], h.lost, line.number);
  }

  lemma StoreKeeps(limits: Limits, v: View, appended: bool, player: int)
    requires PlayerInv(limits, v, player)
    requires v.writes != [] && v.writes[0].line.Some?
    ensures PlayerInv(limits, Persisted(v, appended, true), player)
  {
    hide CountInv, ListInv;
    var r := v.writes[0];
    var w := Persisted(v, appended, true);
    if r.player != player {
      hide Lines, Behind;
      assert Lines(w.writes, player) == Lines(v.writes, player) by { HeadOfOther(v.writes, player); }
      BehindTail(v.writes, player);
      PlayerKept(limits, v, w, player);
    } else {
      CountsNumbered(limits, v.sessions[player], v.history[player]);
      if appended {
        AppendedKeepsList(v.history[player], ListOf(v, player), r.line.value, Lines(w.writes, player));
      } else {
        LostKeepsList(v.history[player], ListOf(v, player), r.line.value, Lines(w.writes, player));
        LostKeepsCounts(limits, v.sessions[player], v.history[player], r.line.value.number);
      }
    }
  }

  lemma HeadOfOther(writes: seq<Request>, player: int)
    requires writes != [] && (writes[0].player != player || writes[0].line.None?)
    ensures Lines(writes, player) == Lines(writes[1..], player)
  {
  }

  lemma BehindTail(writes: seq<Request>, player: int)
    requires writes != []
    ensures forall b: nat :: Behind(writes, player, b) ==> Behind(writes[1..], player, b)
  {
  }

  lemma CountsNumbered(limits: Limits, s: Session, h: History)
    requires CountInv(limits, s, h)
    ensures Numbered(h.accepted)
  {
  }

  lemma LostKeepsCounts(limits: Limits, s: Session, h: History, number: nat)
    requires CountInv(limits, s, h)
    ensures CountInv(limits, s, h.(lost := h.lost + {number}))
  {
  }

  lemma ResolveKeeps(limits: Limits, v: View, appended: bool, stored: bool, player: int)
    requires PlayerInv(limits, v, player)
    requires v.writes != [] && v.writes[0].line.None?
    ensures PlayerInv(limits, Persisted(v, appended, stored), player)
  {
    hide CountInv, ListInv, Lines;
    var r := v.writes[0];
    var w := Persisted(v, appended, stored);
    HeadOfOther(v.writes, player);
    BehindTail(v.writes, player);
    if r.player != player || w.finals == v.finals {
      PlayerKept(limits, v, w, player);
    }
  }

  lemma PersistKeeps(limits: Limits, v: View, appended: bool, stored: bool, player: int)
    requires PlayerInv(limits, v, player)
    ensures PlayerInv(limits, Persisted(v, appended, stored), player)
  {
    hide PlayerInv;
    if v.writes != [] {
      if v.writes[0].line.Some? {
        StoreKeeps(limits, v, appended, player);
      } else {
        ResolveKeeps(limits, v, appended, stored, player);
      }
    }
  }

  lemma FinalizeKeeps(limits: Limits, v: View, step: Step, player: int)
    requires PlayerInv(limits, v, player) && (step.BeginFinalize? || step.GiveUp? || step.UploadFile?)
    ensures PlayerInv(limits, After(limits, v, step), player)
  {
    hide Lines, Behind, ListInv;
  }

  lemma SendKeeps(limits: Limits, v: View, who: int, player: int)
    requires PlayerInv(limits, v, player) && Older(v.writes, v.barriers)
    ensures PlayerInv(limits, Sent(limits, v, who), player)
  {
    hide Lines, Behind, ListInv, CountInv, Older;
    var w := Sent(limits, v, who);
    if w != v {
      var r := w.writes[|v.writes|];
      QueueOther(v, r, player);
      if who == player {
        BehindFresh(v.writes, r, player, v.barriers);
      } else {
        PlayerKept(limits, v, w, player);
      }
    }
  }

  lemma CleanKeeps(limits: Limits, v: View, step: Step, player: int)
    requires PlayerInv(limits, v, player) && (step.Cleanup? || step.Remove?)
    ensures PlayerInv(limits, After(limits, v, step), player)
  {
    hide Lines, Behind, ListInv, CountInv;
  }

  lemma QueueStep(limits: Limits, v: View, step: Step)
    requires QueueInv(limits, v)
    ensures QueueInv(limits, After(limits, v, step))
  {
    hide Captured;
    if step.Capture? {
      CaptureQueues(limits, v, step.player, step.now, step.size, step.packet);
    }
  }

  lemma CaptureQueues(limits: Limits, v: View, who: int, now: int, size: Length, packet: int)
    requires QueueInv(limits, v)
    ensures QueueInv(limits, Captured(limits, v, who, now, size, packet))
  {
  }

  lemma PlayerStep(limits: Limits, v: View, step: Step, player: int)
    requires Inv(limits, v)
    ensures PlayerInv(limits, After(limits, v, step), player)
  {
    hide PlayerInv, Activated, Captured, Persisted, Begun, Sent, GivenUp, FileUploaded, CleanedUp, Removed;
    assert PlayerInv(limits, v, player);
    match step
    case Activate(who, expiresAt) => ActivateKeeps(limits, v, who, expiresAt, player);
    case Capture(who, now, size, packet) =>
      assert PlayerInv(limits, v, who);
      CaptureKeeps(limits, v, who, now, size, packet, player);
    case Persist(appended, stored) => PersistKeeps(limits, v, appended, stored, player);
    case SendBarrier(who) => SendKeeps(limits, v, who, player);
    case BeginFinalize(_) => FinalizeKeeps(limits, v, step, player);
    case GiveUp(_) => FinalizeKeeps(limits, v, step, player);
    case UploadFile(_) => FinalizeKeeps(limits, v, step, player);
    case Cleanup(_, _) => CleanKeeps(limits, v, step, player);
    case Remove(_) => CleanKeeps(limits, v, step, player);
  }

  lemma {:induction false} InvariantHolds(limits: Limits, steps: seq<Step>)
    ensures Inv(limits, Run(limits, steps))
    decreases |steps|
  {
    hide PlayerInv, QueueInv, After;
    if steps == [] {
      InvariantAtStart(limits);
    } else {
      var v, step := Run(limits, steps[..|steps| - 1]), steps[|steps| - 1];
      InvariantHolds(limits, steps[..|steps| - 1]);
      QueueStep(limits, v, step);
      forall player: int ensures PlayerInv(limits, After(limits, v, step), player) {
        PlayerStep(limits, v, step, player);
      }
    }
  }

  lemma InvariantAtStart(limits: Limits)
    ensures Inv(limits, EMPTY)
  {
  }

  // No trace outgrows its limits, its byte count is the length of the lines it accepted,
  // and the queue never holds more than it has room for, in any run.
  lemma WithinLimits(limits: Limits, steps: seq<Step>, player: int)
    requires player in Run(limits, steps).sessions
    ensures player in Run(limits, steps).history
    ensures var s, h := Run(limits, steps).sessions[player], Run(limits, steps).history[player];
            s.count == |h.accepted| <= limits.maxEntries && s.bytes == Total(h.accepted) <= limits.maxBytes
    ensures |Run(limits, steps).writes| <= limits.capacity
  {
    hide Run;
    InvariantHolds(limits, steps);
    assert PlayerInv(limits, Run(limits, steps), player);
  }

  // What a capture leaves alone.
  predicate CaptureFramed(v: View, w: View, player: int) {
    && w.finals == v.finals && w.lists == v.lists && w.uploads == v.uploads
    && w.barriers == v.barriers && w.activations == v.activations
    && (player in w.sessions <==> player in v.sessions) && (player in w.history <==> player in v.history)
    && (player in v.history ==>
          w.history[player].activation == v.history[player].activation
          && w.history[player].lost == v.history[player].lost && w.history[player].stale == v.history[player].stale)
  }

  lemma HistoryFrame(v: View, who: int, h: History, player: int)
    requires who in v.history ==> h.activation == v.history[who].activation && h.lost == v.history[who].lost
                                  && h.stale == v.history[who].stale
    ensures CaptureFramed(v, WithHistory(v, who, h), player)
  {
  }

  lemma SessionsFrame(v: View, w: View, who: int, s: Session, writes: seq<Request>, player: int)
    requires CaptureFramed(v, w, player) && w.sessions == v.sessions && who in v.sessions
    ensures CaptureFramed(v, w.(sessions := v.sessions[who := s], writes := writes), player)
  {
  }

  lemma CaptureFrame(limits: Limits, v: View, who: int, now: int, size: Length, packet: int, player: int)
    ensures CaptureFramed(v, Captured(limits, v, who, now, size, packet), player)
  {
    hide CaptureFramed, WithHistory, HistoryOf;
    var w := Captured(limits, v, who, now, size, packet);
    KeptFrame(v, player);
    if who in v.sessions {
      var s, offered := v.sessions[who], Offered(HistoryOf(v, who), packet);
      var accepted := offered.(accepted := offered.accepted + [Entry(s.count + 1, now, size, packet)]);
      HistoryKnown(v, who);
      HistoryFrame(v, who, offered, player);
      HistoryFrame(v, who, accepted, player);
      SameSessions(v, who, offered);
      SameSessions(v, who, accepted);
      var o, a := WithHistory(v, who, offered), WithHistory(v, who, accepted);
      SessionsFrame(v, o, who, s.(truncated := true), w.writes, player);
      SessionsFrame(v, o, who, s.(truncated := true), o.writes, player);
      SessionsFrame(v, a, who, s.(count := s.count + 1, bytes := s.bytes + size), w.writes, player);
    }
  }

  lemma KeptFrame(v: View, player: int)
    ensures CaptureFramed(v, v, player)
  {
  }

  lemma HistoryKnown(v: View, who: int)
    ensures who in v.history ==> HistoryOf(v, who) == v.history[who]
  {
  }

  lemma SameSessions(v: View, who: int, h: History)
    ensures WithHistory(v, who, h).sessions == v.sessions && WithHistory(v, who, h).writes == v.writes
  {
  }

  // ---------------------------------------------------------------- uploads

  predicate UploadInv(limits: Limits, u: Upload) {
    && CountInv(limits, u.session, u.history)
    && u.entries == u.history.stale + Keep(u.history.accepted, u.history.lost)
    && (forall k :: k in u.history.lost ==> 1 <= k <= u.session.count)
  }

  predicate UploadsInv(limits: Limits, v: View) {
    forall i :: 0 <= i < |v.uploads| ==> UploadInv(limits, v.uploads[i])
  }

  // The barrier has let every line through before the list is read.
  lemma FlushedIsComplete(limits: Limits, v: View, player: int)
    requires PlayerInv(limits, v, player) && player in v.finals && v.finals[player].phase == Flushed
    ensures UploadInv(limits, Upload(player, v.finals[player].snapshot, v.history[player], ListOf(v, player)))
  {
    var h := v.history[player];
    assert h.accepted[..|h.accepted|] == h.accepted;
  }

  lemma OthersUploadNothing(limits: Limits, v: View, step: Step)
    requires !step.UploadFile?
    ensures After(limits, v, step).uploads == v.uploads
  {
    hide Captured;
    if step.Capture? {
      CaptureFrame(limits, v, step.player, step.now, step.size, step.packet, 0);
    }
  }

  lemma {:induction false} UploadsHold(limits: Limits, steps: seq<Step>)
    ensures UploadsInv(limits, Run(limits, steps))
    decreases |steps|
  {
    hide PlayerInv, QueueInv, After, UploadInv;
    if steps != [] {
      var v, step := Run(limits, steps[..|steps| - 1]), steps[|steps| - 1];
      UploadsHold(limits, steps[..|steps| - 1]);
      if step.UploadFile? {
        InvariantHolds(limits, steps[..|steps| - 1]);
        assert PlayerInv(limits, v, step.player);
        UploadStep(limits, v, step.player);
      } else {
        OthersUploadNothing(limits, v, step);
      }
    }
  }

  lemma UploadStep(limits: Limits, v: View, player: int)
    requires PlayerInv(limits, v, player) && UploadsInv(limits, v)
    ensures UploadsInv(limits, After(limits, v, UploadFile(player)))
  {
    hide UploadInv, CountInv, ListInv;
    if player in v.finals && v.finals[player].phase == Flushed {
      FlushedIsComplete(limits, v, player);
    }
  }

  // Every file holds what the list held before the trace, then the accepted lines that the
  // store did not lose, in order. From an empty list it holds exactly Count lines, numbered
  // from 1, if and only if no append failed.
  lemma UploadExact(limits: Limits, steps: seq<Step>, i: nat)
    requires i < |Run(limits, steps).uploads|
    ensures var u := Run(limits, steps).uploads[i];
            && u.entries == u.history.stale + Keep(u.history.accepted, u.history.lost)
            && (u.history.stale == [] ==> (|u.entries| == u.session.count <==> u.history.lost == {}))
            && (u.history.stale == [] && u.history.lost == {} ==>
                  u.entries == u.history.accepted && Numbered(u.entries) && Total(u.entries) == u.session.bytes)
  {
    hide Run;
    UploadsHold(limits, steps);
    var u := Run(limits, steps).uploads[i];
    assert UploadInv(limits, u);
    if u.history.stale == [] {
      UploadCounts(limits, u);
    }
  }

  lemma UploadCounts(limits: Limits, u: Upload)
    requires UploadInv(limits, u) && u.history.stale == []
    ensures |u.entries| == u.session.count <==> u.history.lost == {}
    ensures u.history.lost == {} ==> u.entries == u.history.accepted
  {
    var h := u.history;
    assert h.stale + Keep(h.accepted, h.lost) == Keep(h.accepted, h.lost);
    if h.lost == {} {
      KeepAll(h.accepted);
    } else {
      KeepDrops(h.accepted, h.lost);
      var k :| k in h.lost;
      assert h.accepted[k - 1].number == k;
    }
  }

  // ---------------------------------------------------------------- runs without store failures

  predicate Succeeds(step: Step) {
    (step.Persist? ==> step.appended) && (step.Cleanup? ==> step.deleted)
  }

  predicate WholeAt(v: View, player: int) {
    && (player in v.history ==> v.history[player].lost == {} && v.history[player].stale == [])
    && (player !in v.sessions || IsCleaned(v, player) ==> ListOf(v, player) == [])
  }

  lemma WholePersist(limits: Limits, v: View, stored: bool, player: int)
    requires PlayerInv(limits, v, player) && WholeAt(v, player)
    ensures WholeAt(Persisted(v, true, stored), player)
  {
    hide CountInv, ListInv, Behind;
  }

  lemma WholeOther(limits: Limits, v: View, step: Step, player: int)
    requires PlayerInv(limits, v, player) && WholeAt(v, player) && Succeeds(step) && !step.Persist?
    ensures WholeAt(After(limits, v, step), player)
  {
    hide CountInv, ListInv, Behind, Lines, Persisted, Captured;
    if step.Capture? {
      CaptureFrame(limits, v, step.player, step.now, step.size, step.packet, player);
    }
  }

  lemma WholeStep(limits: Limits, v: View, step: Step, player: int)
    requires PlayerInv(limits, v, player) && WholeAt(v, player) && Succeeds(step)
    ensures WholeAt(After(limits, v, step), player)
  {
    hide PlayerInv, WholeAt, Persisted;
    if step.Persist? {
      WholePersist(limits, v, step.stored, player);
    } else {
      WholeOther(limits, v, step, player);
    }
  }

  ghost predicate Whole(v: View) {
    && (forall player :: WholeAt(v, player))
    && (forall i :: 0 <= i < |v.uploads| ==> v.uploads[i].history.lost == {} && v.uploads[i].history.stale == [])
  }

  lemma WholeUploads(limits: Limits, v: View, step: Step)
    requires Whole(v)
    ensures var w := After(limits, v, step);
            forall i :: 0 <= i < |w.uploads| ==> w.uploads[i].history.lost == {} && w.uploads[i].history.stale == []
  {
    hide After;
    if step.UploadFile? {
      WholeUpload(limits, v, step.player);
    } else {
      OthersUploadNothing(limits, v, step);
    }
  }

  lemma WholeUpload(limits: Limits, v: View, player: int)
    requires Whole(v)
    ensures var w := After(limits, v, UploadFile(player));
            forall i :: 0 <= i < |w.uploads| ==> w.uploads[i].history.lost == {} && w.uploads[i].history.stale == []
  {
    assert WholeAt(v, player);
  }

  lemma {:induction false} StaysWhole(limits: Limits, steps: seq<Step>)
    requires forall i :: 0 <= i < |steps| ==> Succeeds(steps[i])
    ensures Whole(Run(limits, steps))
    decreases |steps|
  {
    hide PlayerInv, QueueInv, WholeAt, After, Succeeds;
    if steps == [] {
      forall player: int ensures WholeAt(EMPTY, player) {
        WholeAtStart(player);
      }
    } else {
      var v, step := Run(limits, steps[..|steps| - 1]), steps[|steps| - 1];
      StaysWhole(limits, steps[..|steps| - 1]);
      InvariantHolds(limits, steps[..|steps| - 1]);
      WholeUploads(limits, v, step);
      forall player: int ensures WholeAt(After(limits, v, step), player) {
        assert PlayerInv(limits, v, player);
        WholeStep(limits, v, step, player);
      }
    }
  }

  lemma WholeAtStart(player: int)
    ensures WholeAt(EMPTY, player)
  {
  }

  // When no append and no cleanup fails, every uploaded file holds exactly the Count lines
  // its trace accepted, numbered 1 to Count in order: one for each of the first packets it
  // was offered, and for all of them unless it is marked truncated.
  lemma UploadsEverything(limits: Limits, steps: seq<Step>, i: nat)
    requires forall k :: 0 <= k < |steps| ==> Succeeds(steps[k])
    requires i < |Run(limits, steps).uploads|
    ensures var u := Run(limits, steps).uploads[i];
            |u.entries| == u.session.count && Numbered(u.entries) && Total(u.entries) == u.session.bytes
            && u.entries == u.history.accepted && InWindow(u.history, u.session.expiresAt)
            && (!u.session.truncated ==> |u.entries| == |u.history.offered|)
  {
    hide Run;
    StaysWhole(limits, steps);
    UploadExact(limits, steps, i);
    UploadsHold(limits, steps);
    assert UploadInv(limits, Run(limits, steps).uploads[i]);
  }

  // ---------------------------------------------------------------- one upload a trace

  predicate Late(v: View, player: int) {
    player in v.finals && (v.finals[player].phase == Uploaded || v.finals[player].phase == Cleaned)
  }

  ghost predicate Once(v: View) {
    && (forall p :: p in v.history ==> v.history[p].activation < v.activations)
    && (forall p, q :: p in v.history && q in v.history && p != q ==>
          v.history[p].activation != v.history[q].activation)
    && (forall i :: 0 <= i < |v.uploads| ==> v.uploads[i].history.activation < v.activations)
    && (forall i, p ::
          (0 <= i < |v.uploads| && p in v.history && v.uploads[i].history.activation == v.history[p].activation)
          ==> Late(v, p))
    && (forall i, j :: 0 <= i < j < |v.uploads| ==>
          v.uploads[i].history.activation != v.uploads[j].history.activation)
  }

  // Most steps start no trace and upload none.
  predicate Steady(v: View, w: View, player: int) {
    player in w.history ==>
      && player in v.history && w.history[player].activation == v.history[player].activation
      && (Late(v, player) ==> Late(w, player))
  }

  lemma SteadyKeepsOnce(v: View, w: View)
    requires Once(v) && w.uploads == v.uploads && w.activations == v.activations
    requires forall player :: Steady(v, w, player)
    ensures Once(w)
  {
    hide Late;
    forall p | p in w.history
      ensures p in v.history && w.history[p].activation == v.history[p].activation && (Late(v, p) ==> Late(w, p))
    {
      assert Steady(v, w, p);
    }
  }

  lemma StepSteady(limits: Limits, v: View, step: Step, player: int)
    requires PlayerInv(limits, v, player) && !step.Activate? && !step.UploadFile?
    ensures Steady(v, After(limits, v, step), player)
  {
    hide CountInv, ListInv, Behind, Lines, Captured;
    if step.Capture? {
      CaptureFrame(limits, v, step.player, step.now, step.size, step.packet, player);
    }
  }

  lemma ActivationsKept(limits: Limits, v: View, step: Step)
    requires !step.Activate?
    ensures After(limits, v, step).activations == v.activations
  {
    hide Captured;
    if step.Capture? {
      CaptureFrame(limits, v, step.player, step.now, step.size, step.packet, 0);
    }
  }

  lemma ActivateOnce(v: View, player: int, expiresAt: int)
    requires Once(v) && (player in v.history <==> player in v.sessions)
    ensures Once(Activated(v, player, expiresAt))
  {
    hide Late;
    var w := Activated(v, player, expiresAt);
    if player !in v.sessions {
      forall p | p in v.history ensures p != player && Late(w, p) == Late(v, p) {
        LateSame(v, w, p);
      }
    }
  }

  lemma LateSame(v: View, w: View, player: int)
    requires v.finals == w.finals
    ensures Late(w, player) == Late(v, player)
  {
  }

  lemma UploadOnce(v: View, player: int)
    requires Once(v)
    ensures Once(FileUploaded(v, player))
  {
    var w := FileUploaded(v, player);
    if w != v {
      var n := |v.uploads|;
      assert !Late(v, player) && Late(w, player);
      assert w.uploads[n].history.activation == v.history[player].activation;
      assert forall i :: 0 <= i < n ==> w.uploads[i] == v.uploads[i];
      assert forall p :: Late(v, p) ==> Late(w, p);
    }
  }

  lemma {:induction false} OnceHolds(limits: Limits, steps: seq<Step>)
    ensures Once(Run(limits, steps))
    decreases |steps|
  {
    hide QueueInv, PlayerInv, After, Once, Steady;
    if steps == [] {
      OnceAtStart();
    } else {
      var v, step := Run(limits, steps[..|steps| - 1]), steps[|steps| - 1];
      OnceHolds(limits, steps[..|steps| - 1]);
      InvariantHolds(limits, steps[..|steps| - 1]);
      OnceStep(limits, v, step);
    }
  }

  lemma OnceStep(limits: Limits, v: View, step: Step)
    requires Inv(limits, v) && Once(v)
    ensures Once(After(limits, v, step))
  {
    hide QueueInv, PlayerInv, Once, Steady, Late;
    if step.Activate? {
      assert PlayerInv(limits, v, step.player);
      SessionsHaveHistory(limits, v, step.player);
      ActivateOnce(v, step.player, step.expiresAt);
    } else if step.UploadFile? {
      UploadOnce(v, step.player);
    } else {
      hide After;
      forall player: int ensures Steady(v, After(limits, v, step), player) {
        assert PlayerInv(limits, v, player);
        StepSteady(limits, v, step, player);
      }
      OthersUploadNothing(limits, v, step);
      ActivationsKept(limits, v, step);
      SteadyKeepsOnce(v, After(limits, v, step));
    }
  }

  lemma SessionsHaveHistory(limits: Limits, v: View, player: int)
    requires PlayerInv(limits, v, player)
    ensures player in v.history <==> player in v.sessions
  {
  }

  lemma OnceAtStart()
    ensures Once(EMPTY)
  {
  }

  // No trace is uploaded twice, in any run.
  lemma UploadedAtMostOnce(limits: Limits, steps: seq<Step>, i: nat, j: nat)
    requires i < j < |Run(limits, steps).uploads|
    ensures Run(limits, steps).uploads[i].history.activation != Run(limits, steps).uploads[j].history.activation
  {
    hide Run;
    OnceHolds(limits, steps);
  }

  predicate SameCounts(v: View, w: View, player: int) {
    player in w.sessions ==>
      player in v.sessions && player in v.history && player in w.history
      && w.sessions[player].count == v.sessions[player].count && w.sessions[player].bytes == v.sessions[player].bytes
      && w.sessions[player].truncated == v.sessions[player].truncated
      && w.history[player].accepted == v.history[player].accepted
  }

  lemma FrozenPersist(limits: Limits, v: View, appended: bool, stored: bool, player: int)
    requires PlayerInv(limits, v, player) && player in v.sessions
    ensures SameCounts(v, Persisted(v, appended, stored), player)
  {
    hide CountInv, ListInv, Behind, Lines;
  }

  // A trace that was cut short, or is being finalized, accepts nothing more.
  lemma FrozenStep(limits: Limits, v: View, step: Step, player: int)
    requires PlayerInv(limits, v, player) && player in v.sessions
    requires v.sessions[player].truncated || v.sessions[player].finalizing
    ensures SameCounts(v, After(limits, v, step), player)
  {
    hide CountInv, ListInv, Behind, Lines, Persisted;
    if step.Persist? {
      FrozenPersist(limits, v, step.appended, step.stored, player);
    }
  }

  // ---------------------------------------------------------------- finalization comes to an end

  // The run that a Finalize without failures takes once the worker has caught up.
  function Onward(limits: Limits, v: View, steps: seq<Step>): View
    decreases |steps|
  {
    if steps == [] then v else Onward(limits, After(limits, v, steps[0]), steps[1..])
  }

  lemma {:induction false} RunOnward(limits: Limits, a: seq<Step>, b: seq<Step>)
    ensures Run(limits, a + b) == Onward(limits, Run(limits, a), b)
    decreases |b|
  {
    hide After;
    if b == [] {
      assert a + b == a;
    } else {
      var all := a + [b[0]];
      assert all[..|all| - 1] == a && a + b == all + b[1..];
      RunOnward(limits, all, b[1..]);
    }
  }

  function Persists(n: nat): seq<Step> {
    if n == 0 then [] else [Persist(true, true)] + Persists(n - 1)
  }

  lemma {:induction false} OnwardJoins(limits: Limits, v: View, a: seq<Step>, b: seq<Step>)
    ensures Onward(limits, v, a + b) == Onward(limits, Onward(limits, v, a), b)
    decreases |a|
  {
    hide After;
    if a == [] {
      assert a + b == b;
    } else {
      assert (a + b)[1..] == a[1..] + b;
      OnwardJoins(limits, After(limits, v, a[0]), a[1..], b);
    }
  }

  // Where a trace waits for its barrier, the last request of the queue.
  predicate Awaits(v: View, player: int, snapshot: Session, barrier: nat) {
    && player in v.finals && v.finals[player] == Final(snapshot, Waiting(barrier))
    && v.writes != [] && v.writes[|v.writes| - 1] == Request(player, snapshot, None, Some(barrier))
    && forall i :: 0 <= i < |v.writes| - 1 ==> v.writes[i].done != Some(barrier)
  }

  // What the worker leaves alone.
  predicate SameTraces(v: View, w: View) {
    w.sessions == v.sessions && w.history == v.history && w.uploads == v.uploads
  }

  lemma PersistLine(v: View, player: int)
    requires v.writes != []
    ensures var w := Persisted(v, true, true);
      && SameTraces(v, w) && w.writes == v.writes[1..]
      && ListOf(w, player) == ListOf(v, player)
           + (if v.writes[0].player == player && v.writes[0].line.Some? then [v.writes[0].line.value] else [])
  {
  }

  lemma PersistEarlier(v: View, player: int, snapshot: Session, barrier: nat)
    requires Awaits(v, player, snapshot, barrier) && |v.writes| > 1
    ensures Awaits(Persisted(v, true, true), player, snapshot, barrier)
  {
    var r := v.writes[0];
    assert r.done != Some(barrier);
  }

  lemma PersistBarrier(v: View, player: int, snapshot: Session, barrier: nat)
    requires Awaits(v, player, snapshot, barrier) && |v.writes| == 1
    ensures var w := Persisted(v, true, true);
      w.writes == [] && player in w.finals && w.finals[player] == Final(snapshot, Flushed)
  {
  }

  lemma {:induction false} WorkerCatchesUp(limits: Limits, v: View, player: int, snapshot: Session, barrier: nat)
    requires Awaits(v, player, snapshot, barrier)
    ensures var w := Onward(limits, v, Persists(|v.writes|));
      && SameTraces(v, w) && w.writes == []
      && player in w.finals && w.finals[player] == Final(snapshot, Flushed)
      && ListOf(w, player) == ListOf(v, player) + Lines(v.writes, player)
    decreases |v.writes|
  {
    hide Persisted, Awaits, ListOf;
    var n := |v.writes|;
    AwaitsSomething(v, player, snapshot, barrier);
    var next := Persisted(v, true, true);
    assert Persists(n)[0] == Persist(true, true) && Persists(n)[1..] == Persists(n - 1);
    PersistLine(v, player);
    if n > 1 {
      PersistEarlier(v, player, snapshot, barrier);
      WorkerCatchesUp(limits, next, player, snapshot, barrier);
    } else {
      PersistBarrier(v, player, snapshot, barrier);
      assert v.writes[1..] == [];
    }
  }

  lemma AwaitsSomething(v: View, player: int, snapshot: Session, barrier: nat)
    requires Awaits(v, player, snapshot, barrier)
    ensures v.writes != []
  {
  }

  lemma BarrierQueued(limits: Limits, v: View, player: int)
    requires QueueInv(limits, v) && player in v.sessions && !v.sessions[player].finalizing && Room(limits, v)
    ensures var snapshot := v.sessions[player].(finalizing := true);
      var w := Sent(limits, Begun(v, player), player);
      && Awaits(w, player, snapshot, v.barriers) && |w.writes| == |v.writes| + 1
      && w.sessions == v.sessions[player := snapshot] && w.history == v.history && w.uploads == v.uploads
      && ListOf(w, player) == ListOf(v, player) && Lines(w.writes, player) == Lines(v.writes, player)
  {
    var snapshot := v.sessions[player].(finalizing := true);
    var r := Request(player, snapshot, None, Some(v.barriers));
    LinesAppend(v.writes, r, player);
  }

  lemma FileGoesOut(limits: Limits, v: View, player: int, snapshot: Session)
    requires player in v.finals && player in v.history && v.finals[player] == Final(snapshot, Flushed)
    ensures var w := Removed(CleanedUp(FileUploaded(v, player), player, true), player);
      && w.uploads == v.uploads + [Upload(player, snapshot, v.history[player], ListOf(v, player))]
      && w.sessions == v.sessions - {player} && player !in w.history && player !in w.finals && ListOf(w, player) == []
  {
  }

  // An active trace can always be finalized: its barrier joins the queue, the worker catches
  // up, and the file that goes out holds what the list held and every line still queued, in
  // order; then the trace is gone and its list empty.
  lemma FinalizeCompletes(limits: Limits, steps: seq<Step>, player: int)
    requires var v := Run(limits, steps);
      player in v.sessions && !v.sessions[player].finalizing && Room(limits, v)
    ensures var v := Run(limits, steps);
      var more := [BeginFinalize(player), SendBarrier(player)] + Persists(|v.writes| + 1)
                  + [UploadFile(player), Cleanup(player, true), Remove(player)];
      var w := Run(limits, steps + more);
      && player in v.history
      && w.uploads == v.uploads + [Upload(player, v.sessions[player].(finalizing := true), v.history[player],
                                          ListOf(v, player) + Lines(v.writes, player))]
      && player !in w.sessions && ListOf(w, player) == [] && w.writes == []
  {
    hide Run, After, Onward, Begun, Sent, Awaits, FileUploaded, CleanedUp, Removed, Inv, Lines, ListOf, Persists;
    var v := Run(limits, steps);
    InvariantHolds(limits, steps);
    ActiveKnown(limits, v, player);
    BarrierQueued(limits, v, player);
    var a := [BeginFinalize(player), SendBarrier(player)];
    var b := Persists(|v.writes| + 1);
    var c := [UploadFile(player), Cleanup(player, true), Remove(player)];
    RunOnward(limits, steps, a + b + c);
    OnwardJoins(limits, v, a + b, c);
    OnwardJoins(limits, v, a, b);
    TwoOnward(limits, v, player);
    var sent := Onward(limits, v, a);
    WorkerCatchesUp(limits, sent, player, v.sessions[player].(finalizing := true), v.barriers);
    var flushed := Onward(limits, sent, b);
    ThreeOnward(limits, flushed, player);
    FileGoesOut(limits, flushed, player, v.sessions[player].(finalizing := true));
    WritesKept(flushed, player);
  }

  lemma ActiveKnown(limits: Limits, v: View, player: int)
    requires Inv(limits, v) && player in v.sessions
    ensures QueueInv(limits, v) && player in v.history
  {
    assert PlayerInv(limits, v, player);
  }

  lemma TwoOnward(limits: Limits, v: View, player: int)
    ensures Onward(limits, v, [BeginFinalize(player), SendBarrier(player)]) == Sent(limits, Begun(v, player), player)
  {
    hide Begun, Sent;
    var a, b := BeginFinalize(player), SendBarrier(player);
    OnwardFirst(limits, v, a, [b]);
    OnwardFirst(limits, After(limits, v, a), b, []);
    OnwardFirst(limits, After(limits, After(limits, v, a), b), b, []);
    assert [a] + [b] == [a, b] && [b] + [] == [b];
  }

  lemma OnwardFirst(limits: Limits, v: View, step: Step, rest: seq<Step>)
    ensures Onward(limits, v, [step] + rest) == Onward(limits, After(limits, v, step), rest)
    ensures Onward(limits, v, []) == v
  {
    hide After;
    assert ([step] + rest)[1..] == rest;
  }

  lemma ThreeOnward(limits: Limits, v: View, player: int)
    ensures Onward(limits, v, [UploadFile(player), Cleanup(player, true), Remove(player)])
            == Removed(CleanedUp(FileUploaded(v, player), player, true), player)
  {
    hide FileUploaded, CleanedUp, Removed;
    var a, b, c := UploadFile(player), Cleanup(player, true), Remove(player);
    var w := After(limits, v, a);
    OnwardFirst(limits, v, a, [b, c]);
    OnwardFirst(limits, w, b, [c]);
    OnwardFirst(limits, After(limits, w, b), c, []);
    OnwardFirst(limits, After(limits, After(limits, w, b), c), c, []);
    assert [a] + [b, c] == [a, b, c] && [b] + [c] == [b, c] && [c] + [] == [c];
  }

  lemma WritesKept(v: View, player: int)
    ensures Removed(CleanedUp(FileUploaded(v, player), player, true), player).writes == v.writes
  {
  }

  // A Finalize that gives up before the upload leaves the trace active, as it was but for
  // what its queue has done since, and it can be finalized again.
  lemma GiveUpReopens(limits: Limits, v: View, player: int)
    requires Inv(limits, v) && player in v.finals && !Late(v, player)
    ensures var w := After(limits, v, GiveUp(player));
      && player in w.sessions && w.sessions[player] == v.sessions[player].(finalizing := false)
      && player !in w.finals && w.history == v.history && w.lists == v.lists && w.writes == v.writes
      && player in After(limits, w, BeginFinalize(player)).finals
  {
    assert PlayerInv(limits, v, player);
  }

  // ---------------------------------------------------------------- the tracer

  datatype Refusal = Inactive | AlreadyFinalizing | LockFailed | LockHeld | ListFailed | UploadFailed

  // writes is the channel and lists the store; finals, history and uploads record what the
  // running Finalize calls have done.
  class Tracer {
    const limits: Limits
    var sessions: map<int, Session>
    var writes: seq<Request>
    var lists: map<int, seq<Entry>>
    var barriers: nat
    ghost var finals: map<int, Final>
    ghost var history: map<int, History>
    ghost var uploads: seq<Upload>
    ghost var activations: nat

    ghost function Seen(): View
      reads this
    {
      View(sessions, writes, lists, finals, history, uploads, barriers, activations)
    }

    constructor (limits: Limits)
      ensures Seen() == EMPTY && this.limits == limits
    {
      this.limits := limits;
      sessions, writes, lists, barriers := map[], [], map[], 0;
      finals, history, uploads, activations := map[], map[], [], 0;
    }

    function Listed(player: int): seq<Entry>
      reads this
      ensures Listed(player) == ListOf(Seen(), player)
    {
      if player in lists then lists[player] else []
    }

    method Activate(player: int, expiresAt: int) returns (session: Session, started: bool)
      modifies this
      ensures Seen() == Activated(old(Seen()), player, expiresAt)
      ensures player in sessions && session == sessions[player] && started == (player !in old(sessions))
    {
      if player in sessions {
        return sessions[player], false;
      }
      history := history[player := History(activations, [], [], {}, Listed(player))];
      activations := activations + 1;
      session, started := Session(expiresAt, 0, 0, false, false), true;
      sessions := sessions[player := session];
    }

    method Capture(player: int, now: int, size: Length, packet: int)
      requires player in sessions <==> player in history
      modifies this
      ensures Seen() == Captured(limits, old(Seen()), player, now, size, packet)
    {
      if player !in sessions {
        return;
      }
      if !sessions[player].finalizing && now < sessions[player].expiresAt {
        history := history[player := Offered(history[player], packet)];
      }
      var session := sessions[player];
      if session.finalizing || session.truncated {
        return;
      }
      if !(now < session.expiresAt) {
        return;
      }
      var line := Entry(session.count + 1, now, size, packet);
      if session.count >= limits.maxEntries || session.bytes + size > limits.maxBytes {
        sessions := sessions[player := session.(truncated := true)];
        EnqueueMetadata(player, sessions[player]);
        return;
      }
      var next := session.(count := session.count + 1, bytes := session.bytes + size);
      if |writes| < limits.capacity {
        writes := writes + [Request(player, next, Some(line), None)];
        sessions := sessions[player := next];
        history := history[player := history[player].(accepted := history[player].accepted + [line])];
      } else {
        sessions := sessions[player := session.(truncated := true)];
      }
    }

    method EnqueueMetadata(player: int, session: Session)
      modifies this`writes
      ensures writes == if |old(writes)| < limits.capacity
                        then old(writes) + [Request(player, session, None, None)] else old(writes)
    {
      if |writes| < limits.capacity {
        writes := writes + [Request(player, session, None, None)];
      }
    }

    // One turn of the worker; done reports the barrier that was answered, and how.
    method PersistWrite(appended: bool, stored: bool) returns (done: Option<nat>, failed: bool)
      requires writes != []
      modifies this
      ensures Seen() == Persisted(old(Seen()), appended, stored)
      ensures done == old(writes)[0].done
      ensures failed == !(if old(writes)[0].line.Some? then appended && stored else stored)
    {
      var request := writes[0];
      writes := writes[1..];
      failed := false;
      if request.line.Some? {
        var line := request.line.value;
        if appended {
          lists := lists[request.player := Listed(request.player) + [line]];
        } else {
          failed := true;
          if request.player in history {
            history := history[request.player :=
                               history[request.player].(lost := history[request.player].lost + {line.number})];
          }
        }
      }
      if !failed && !stored {
        failed := true;
      }
      done := request.done;
      if !failed && request.line.None? {
        ResolveBarrier(request);
      }
    }

    ghost method ResolveBarrier(r: Request)
      modifies this`finals
      ensures Seen() == Resolved(old(Seen()), r, true)
    {
      if r.done.Some? && r.player in finals && finals[r.player].phase == Waiting(r.done.value) {
        finals := finals[r.player := finals[r.player].(phase := Flushed)];
      }
    }

    // Finalize up to where it first unlocks.
    method BeginFinalize(player: int) returns (snapshot: Option<Session>, refusal: Option<Refusal>)
      modifies this
      ensures Seen() == Begun(old(Seen()), player)
      ensures player !in old(sessions) ==> snapshot == None && refusal == Some(Inactive)
      ensures player in old(sessions) && old(sessions)[player].finalizing ==>
                snapshot == None && refusal == Some(AlreadyFinalizing)
      ensures player in old(sessions) && !old(sessions)[player].finalizing ==>
                snapshot == Some(sessions[player]) && refusal == None
    {
      if player !in sessions {
        return None, Some(Inactive);
      }
      if sessions[player].finalizing {
        return None, Some(AlreadyFinalizing);
      }
      var session := sessions[player].(finalizing := true);
      sessions := sessions[player := session];
      finals := finals[player := Final(session, Marked)];
      return Some(session), None;
    }

    // flush, once the queue has room for the barrier.
    method EnqueueBarrier(player: int, snapshot: Session) returns (barrier: nat)
      requires |writes| < limits.capacity
      requires player in finals && finals[player] == Final(snapshot, Marked)
      modifies this
      ensures Seen() == Sent(limits, old(Seen()), player)
      ensures player in finals && finals[player].phase == Waiting(barrier)
    {
      barrier := barriers;
      barriers := barriers + 1;
      writes := writes + [Request(player, snapshot, None, Some(barrier))];
      finals := finals[player := finals[player].(phase := Waiting(barrier))];
    }

    method ResetFinalizing(player: int)
      requires player in finals && !Late(Seen(), player)
      modifies this
      ensures Seen() == GivenUp(old(Seen()), player)
    {
      if player in sessions {
        sessions := sessions[player := sessions[player].(finalizing := false)];
        finals := finals - {player};
      }
    }

    // finalizeStored after a flush that succeeded: the file is uploaded, then the stored
    // keys are removed; a failed removal is only logged. The store may fail to answer about
    // the lock, another process may hold it, and the list or the upload may fail.
    method FinalizeStored(player: int, lock: Option<bool>, listed: bool, put: bool, deleted: bool)
      returns (entries: seq<Entry>, refusal: Option<Refusal>)
      requires player in finals && player in history && finals[player].phase == Flushed
      modifies this
      ensures refusal == (
        if lock.None? then Some(LockFailed) else if !lock.value then Some(LockHeld)
        else if !listed then Some(ListFailed) else if !put then Some(UploadFailed) else None)
      ensures refusal.Some? ==> entries == [] && Seen() == old(Seen())
      ensures refusal.None? ==>
                entries == ListOf(old(Seen()), player)
                && Seen() == CleanedUp(FileUploaded(old(Seen()), player), player, deleted)
    {
      if lock.None? {
        return [], Some(LockFailed);
      }
      if !lock.value {
        return [], Some(LockHeld);
      }
      if !listed {
        return [], Some(ListFailed);
      }
      entries := Listed(player);
      if !put {
        return [], Some(UploadFailed);
      }
      uploads := uploads + [Upload(player, finals[player].snapshot, history[player], entries)];
      finals := finals[player := finals[player].(phase := Cleaned)];
      if deleted {
        lists := lists - {player};
      }
      return entries, None;
    }

    method Remove(player: int)
      requires player in finals && finals[player].phase == Cleaned
      modifies this
      ensures Seen() == Removed(old(Seen()), player)
    {
      sessions := sessions - {player};
      finals := finals - {player};
      history := history - {player};
    }
  }
}
