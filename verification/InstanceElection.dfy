/**
 tryRun of cockatrice/src/single_instance_manager.cpp: how a process becomes the primary instance or hands
 its files over, and what holds when many processes do so at once.
 */
module InstanceElection {
  import opened InstanceReceiver
  import opened Bytes

  datatype ForwardResult = Delivered | NoPrimary | PrimaryBusy

  datatype Action = Forwarded(result: ForwardResult) | Listened(ok: bool) | Removed

  /** Where a process is in tryRun: what it does next, or how it came out. */
  datatype Phase = Probe1 | Listen1 | Probe2 | Remove | Listen2 | Probe3 | Primary | Secondary | Dead

  predicate Probing(phase: Phase) { phase.Probe1? || phase.Probe2? || phase.Probe3? }

  predicate Listening(phase: Phase) { phase.Listen1? || phase.Listen2? }

  /** What tryRun does after an action. */
  function Next(phase: Phase, action: Action): Phase {
    match (phase, action)
    case (Probe1, Forwarded(NoPrimary)) => Listen1
    case (Probe2, Forwarded(NoPrimary)) => Remove
    case (Listen1, Listened(false)) => Probe2
    case (Remove, Removed) => Listen2
    case (Listen2, Listened(false)) => Probe3
    case (_, Listened(true)) => Primary
    case (_, _) => Secondary
  }

  predicate Fits(phase: Phase, action: Action) {
    match action
    case Forwarded(_) => Probing(phase)
    case Listened(_) => Listening(phase)
    case Removed => phase.Remove?
  }

  function PhaseAfter(log: seq<Action>): Phase {
    if log == [] then Probe1 else Next(PhaseAfter(log[..|log| - 1]), log[|log| - 1])
  }

  /** Every action is the one tryRun is at. */
  predicate FollowsCode(log: seq<Action>) {
    forall k :: 0 <= k < |log| ==> Fits(PhaseAfter(log[..k]), log[k])
  }

  /** One process: what it did, and every message it wrote to a primary. */
  class SingleInstanceManager {
    const codec: Codec
    var log: seq<Action>
    var sent: seq<bytes>

    constructor (codec: Codec)
      ensures this.codec == codec && log == [] && sent == []
    {
      this.codec, log, sent := codec, [], [];
    }

    /** forwardToPrimary; whether it connects and what comes back is up to the primary. */
    method ForwardToPrimary(files: Files) returns (result: ForwardResult)
      requires FollowsCode(log) && Probing(PhaseAfter(log))
      modifies this
      ensures log == old(log) + [Forwarded(result)] && FollowsCode(log)
      ensures PhaseAfter(log) == Next(old(PhaseAfter(log)), Forwarded(result))
      ensures sent == old(sent) + if result == NoPrimary then [] else [Message(codec.encode(files))]
      ensures files == [] ==> result != PrimaryBusy
    {
      hide Next, Fits;
      var connected, replied: bool, reply: string := *, *, *;
      if !connected {
        result := NoPrimary;
      } else {
        sent := sent + [Message(codec.encode(files))];
        result := if files == [] then Delivered else if !replied then PrimaryBusy
                  else if reply == ACK_MESSAGE then Delivered else PrimaryBusy;
      }
      OneMoreAction(log, Forwarded(result));
      log := log + [Forwarded(result)];
    }

    method Listen() returns (ok: bool)
      requires FollowsCode(log) && Listening(PhaseAfter(log))
      modifies `log
      ensures log == old(log) + [Listened(ok)] && FollowsCode(log)
      ensures PhaseAfter(log) == Next(old(PhaseAfter(log)), Listened(ok))
    {
      hide Next, Fits;
      ok := *;
      OneMoreAction(log, Listened(ok));
      log := log + [Listened(ok)];
    }

    method RemoveServer()
      requires FollowsCode(log) && PhaseAfter(log) == Remove
      modifies `log
      ensures log == old(log) + [Removed] && FollowsCode(log) && PhaseAfter(log) == Listen2
    {
      OneMoreAction(log, Removed);
      log := log + [Removed];
    }

    /**
     tryRun. It follows the phases, says truthfully whether it became the primary, writes its payload at
     most once, and has written nothing if it is the primary.
     */
    method TryRun(files: Files) returns (primary: bool)
      requires log == [] && sent == []
      modifies this
      ensures FollowsCode(log) && PhaseAfter(log) == if primary then Primary else Secondary
      ensures primary ==> sent == []
      ensures sent == [] || sent == [Message(codec.encode(files))]
      ensures !primary && sent == [] ==> log[|log| - 1] == Forwarded(NoPrimary) && PhaseAfter(log[..|log| - 1]) == Probe3
    {
      hide FollowsCode, PhaseAfter;
      StartOfRun();
      var result := ForwardToPrimary(files);
      if result != NoPrimary { return false; }
      var listening := Listen();
      if listening { return true; }
      result := ForwardToPrimary(files);
      if result != NoPrimary { return false; }
      RemoveServer();
      listening := Listen();
      if listening { return true; }
      ghost var before := log;
      result := ForwardToPrimary(files);
      assert log[..|log| - 1] == before;
      return false;
    }
  }

  lemma StartOfRun()
    ensures FollowsCode([]) && PhaseAfter([]) == Probe1
  {}

  lemma OneMoreAction(log: seq<Action>, action: Action)
    requires FollowsCode(log) && Fits(PhaseAfter(log), action)
    ensures FollowsCode(log + [action]) && PhaseAfter(log + [action]) == Next(PhaseAfter(log), action)
  {
    var more := log + [action];
    assert more[..|log|] == log;
    forall k | 0 <= k < |more| ensures Fits(PhaseAfter(more[..k]), more[k]) {
      if k < |log| { assert more[..k] == log[..k]; }
    }
  }

  // ----- many processes -----

  /** Who listens on the name: nobody, a process, or nobody any more but the name is still there. */
  datatype Name = Unbound | Bound(pid: nat) | Stale

  /** A process; plain if it has no files to send; waiting while it has written and awaits the acknowledgement. */
  datatype Process = Process(phase: Phase, plain: bool, writes: nat, waiting: bool)

  /** The world: inFlight maps a sender to the primary that has its message unread; received holds the senders read. */
  datatype World = World(name: Name, processes: map<nat, Process>, inFlight: map<nat, nat>, received: set<nat>)

  const EMPTY: World := World(Unbound, map[], map[], {})

  datatype Event =
    | Start(pid: nat, plain: bool)
    | Act(pid: nat)
    | Reply(pid: nat, acknowledged: bool)
    | Receive(pid: nat)
    | Crash(pid: nat)
    | Quit(pid: nat)

  predicate Acting(phase: Phase) { Probing(phase) || Listening(phase) || phase.Remove? }

  predicate Enabled(w: World, e: Event) {
    match e
    case Start(p, _) => p !in w.processes
    case Act(p) => p in w.processes && Acting(w.processes[p].phase) && !w.processes[p].waiting
    // an empty list is not acknowledged; otherwise there is an acknowledgement only once the message has been read,
    // and the process may give up at any time
    case Reply(p, acknowledged) =>
      && p in w.processes && w.processes[p].waiting && Probing(w.processes[p].phase)
      && (if w.processes[p].plain then acknowledged else acknowledged ==> p in w.received)
    case Receive(p) => p in w.inFlight
    case Crash(p) => p in w.processes && !w.processes[p].phase.Dead?
    case Quit(p) => p in w.processes && w.processes[p].phase.Primary?
  }

  /** A bound name is reached, and only an unbound one can be taken. */
  function Acted(w: World, p: nat): World
    requires Enabled(w, Act(p))
  {
    var was := w.processes[p];
    if Probing(was.phase) then
      match w.name
      case Bound(q) =>
        w.(processes := w.processes[p := was.(writes := was.writes + 1, waiting := true)], inFlight := w.inFlight[p := q])
      case _ => w.(processes := w.processes[p := was.(phase := Next(was.phase, Forwarded(NoPrimary)))])
    else if Listening(was.phase) then
      w.(name := if w.name.Unbound? then Bound(p) else w.name,
         processes := w.processes[p := was.(phase := Next(was.phase, Listened(w.name.Unbound?)))])
    else
      w.(name := Unbound, processes := w.processes[p := was.(phase := Next(was.phase, Removed))])
  }

  /** A process ends: what it has not read is lost, and so is the name unless it leaves it behind. */
  function Ended(w: World, p: nat, left: Name): World
    requires p in w.processes
  {
    World(if w.name == Bound(p) then left else w.name, w.processes[p := w.processes[p].(phase := Dead)],
          map s | s in w.inFlight && w.inFlight[s] != p :: w.inFlight[s], w.received)
  }

  function Apply(w: World, e: Event): World
    requires Enabled(w, e)
  {
    match e
    case Start(p, plain) => w.(processes := w.processes[p := Process(Probe1, plain, 0, false)])
    case Act(p) => Acted(w, p)
    case Reply(p, acknowledged) =>
      var was := w.processes[p];
      var result := if acknowledged then Delivered else PrimaryBusy;
      w.(processes := w.processes[p := was.(phase := Next(was.phase, Forwarded(result)), waiting := false)])
    case Receive(p) => w.(inFlight := w.inFlight - {p}, received := w.received + {p})
    case Crash(p) => Ended(w, p, Stale)
    case Quit(p) => Ended(w, p, Unbound)
  }

  ghost predicate Possible(run: seq<Event>)
    decreases |run|, 0
  {
    run == [] || (Possible(run[..|run| - 1]) && Enabled(After(run[..|run| - 1]), run[|run| - 1]))
  }

  ghost function After(run: seq<Event>): World
    requires Possible(run)
    decreases |run|, 1
  {
    if run == [] then EMPTY else Apply(After(run[..|run| - 1]), run[|run| - 1])
  }

  ghost predicate OnePrimary(w: World) {
    forall p, q ::
      p in w.processes && q in w.processes && w.processes[p].phase.Primary? && w.processes[q].phase.Primary? ==> p == q
  }

  // ----- at most one write, and none by a primary -----

  predicate WriteFits(c: Process) {
    && c.writes <= 1 && (c.waiting ==> c.writes == 1 && (Probing(c.phase) || c.phase.Dead?))
    && (!c.waiting && c.phase !in {Secondary, Dead} ==> c.writes == 0)
  }

  ghost predicate WritesFit(w: World) { forall p <- w.processes :: WriteFits(w.processes[p]) }

  /** In every run each process writes at most once, and one that is or may yet become primary has written nothing. */
  lemma {:induction false} AtMostOneWrite(run: seq<Event>)
    requires Possible(run)
    ensures WritesFit(After(run))
    ensures forall p <- After(run).processes :: After(run).processes[p].phase.Primary? ==> After(run).processes[p].writes == 0
    decreases |run|
  {
    if run != [] {
      var init := run[..|run| - 1];
      AtMostOneWrite(init);
      WritesStep(After(init), run[|run| - 1]);
    }
  }

  lemma WritesStep(w: World, e: Event)
    requires WritesFit(w) && Enabled(w, e)
    ensures WritesFit(Apply(w, e))
  {}

  // ----- at most one primary -----

  /** A removal that takes the name from a live process. */
  predicate Steals(w: World, e: Event) {
    e.Act? && e.pid in w.processes && w.processes[e.pid].phase.Remove? && w.name.Bound?
  }

  ghost predicate NeverSteals(run: seq<Event>)
    requires Possible(run)
    decreases |run|
  {
    run == [] || (NeverSteals(run[..|run| - 1]) && !Steals(After(run[..|run| - 1]), run[|run| - 1]))
  }

  /** The one that listens on the name is a primary, and there is no other. */
  ghost predicate NameIsHeld(w: World) {
    && (w.name.Bound? ==> w.name.pid in w.processes && w.processes[w.name.pid].phase.Primary?)
    && forall p <- w.processes :: w.processes[p].phase.Primary? ==> w.name == Bound(p)
  }

  lemma NameStep(w: World, e: Event)
    requires NameIsHeld(w) && Enabled(w, e) && !Steals(w, e)
    ensures NameIsHeld(Apply(w, e))
  {}

  lemma {:induction false} NameHolds(run: seq<Event>)
    requires Possible(run) && NeverSteals(run)
    ensures NameIsHeld(After(run))
    decreases |run|
  {
    if run != [] {
      NameHolds(run[..|run| - 1]);
      NameStep(After(run[..|run| - 1]), run[|run| - 1]);
    }
  }

  /** After a removal that steals, the thief's second listen makes two primaries. */
  lemma StealingMakesTwo(w: World, p: nat)
    requires NameIsHeld(w) && Enabled(w, Act(p)) && Steals(w, Act(p))
    ensures var stolen := Apply(w, Act(p));
            && Enabled(stolen, Act(p))
            && !OnePrimary(Apply(stolen, Act(p)))
  {
    var q := w.name.pid;
    var twice := Apply(Apply(w, Act(p)), Act(p));
    assert twice.processes[p].phase.Primary? && twice.processes[q].phase.Primary? && p != q;
  }

  /** Every way of going on from here keeps one primary. */
  ghost predicate SafeSoFar(run: seq<Event>) {
    forall k :: 0 <= k <= |run| ==> Possible(run[..k]) && OnePrimary(After(run[..k]))
  }

  lemma {:induction false} PrefixPossible(run: seq<Event>, k: nat)
    requires Possible(run) && k <= |run|
    ensures Possible(run[..k])
    ensures NeverSteals(run) ==> NeverSteals(run[..k])
    decreases |run|
  {
    if k < |run| {
      PrefixPossible(run[..|run| - 1], k);
      assert run[..|run| - 1][..k] == run[..k];
    } else {
      assert run[..k] == run;
    }
  }

  /** A run in which no removal takes the name from a live process has at most one primary throughout. */
  lemma NoStealingIsSafe(run: seq<Event>)
    requires Possible(run) && NeverSteals(run)
    ensures SafeSoFar(run)
  {
    forall k | 0 <= k <= |run| ensures Possible(run[..k]) && OnePrimary(After(run[..k])) {
      PrefixPossible(run, k);
      NameHolds(run[..k]);
    }
  }

  /** The first removal that steals can be followed by a second primary. */
  lemma {:induction false} FirstSteal(run: seq<Event>) returns (k: nat)
    requires Possible(run) && !NeverSteals(run)
    ensures k < |run| && Possible(run[..k]) && NeverSteals(run[..k]) && Steals(After(run[..k]), run[k])
    decreases |run|
  {
    var n := |run| - 1;
    if NeverSteals(run[..n]) {
      k := n;
    } else {
      k := FirstSteal(run[..n]);
      assert run[..n][..k] == run[..k];
    }
  }

  lemma Extend(run: seq<Event>, e: Event)
    requires Possible(run) && Enabled(After(run), e)
    ensures Possible(run + [e]) && After(run + [e]) == Apply(After(run), e)
  {
    assert (run + [e])[..|run|] == run;
  }

  /** Whatever comes next after any part of the run, there is at most one primary. */
  ghost predicate SafeWhateverNext(run: seq<Event>)
    requires Possible(run)
  {
    forall k, e :: 0 <= k <= |run| && Possible(run[..k]) && Enabled(After(run[..k]), e) ==>
      OnePrimary(Apply(After(run[..k]), e))
  }

  lemma OneStepMore(w: World, e: Event)
    requires NameIsHeld(w) && Enabled(w, e)
    ensures OnePrimary(Apply(w, e))
  {
    if !Steals(w, e) { NameStep(w, e); }
  }

  /** Two primaries can come about if and only if some removal took the name from a live process. */
  lemma SafeExactlyWithoutStealing(run: seq<Event>)
    requires Possible(run)
    ensures SafeWhateverNext(run) <==> NeverSteals(run)
  {
    hide OnePrimary, Apply, Enabled, Steals;
    if NeverSteals(run) {
      forall k, e | 0 <= k <= |run| && Possible(run[..k]) && Enabled(After(run[..k]), e)
        ensures OnePrimary(Apply(After(run[..k]), e))
      {
        PrefixPossible(run, k);
        NameHolds(run[..k]);
        OneStepMore(After(run[..k]), e);
      }
    } else {
      var k := FirstSteal(run);
      var w := After(run[..k]);
      NameHolds(run[..k]);
      PrefixPossible(run, k + 1);
      assert run[..k + 1][..k] == run[..k] && run[..k + 1][k] == run[k];
      StealerActs(w, run[k]);
      StealingMakesTwo(w, run[k].pid);
      assert After(run[..k + 1]) == Apply(w, run[k]);
    }
  }

  lemma StealerActs(w: World, e: Event)
    requires Steals(w, e)
    ensures e == Act(e.pid)
  {}

  /** The assumption: while a process is between its second probe and its removal, no other starts listening. */
  ghost predicate Quiet(w: World, e: Event) {
    e.Act? && e.pid in w.processes && Listening(w.processes[e.pid].phase) && w.name.Unbound? ==>
      forall p <- w.processes :: !w.processes[p].phase.Remove?
  }

  ghost predicate AlwaysQuiet(run: seq<Event>)
    requires Possible(run)
    decreases |run|
  {
    run == [] || (AlwaysQuiet(run[..|run| - 1]) && Quiet(After(run[..|run| - 1]), run[|run| - 1]))
  }

  ghost predicate RemoversSeeNobody(w: World) {
    forall p <- w.processes :: w.processes[p].phase.Remove? ==> !w.name.Bound?
  }

  lemma QuietStep(w: World, e: Event)
    requires RemoversSeeNobody(w) && Enabled(w, e) && Quiet(w, e)
    ensures RemoversSeeNobody(Apply(w, e)) && !Steals(w, e)
  {}

  lemma {:induction false} QuietNeverSteals(run: seq<Event>)
    requires Possible(run) && AlwaysQuiet(run)
    ensures NeverSteals(run) && RemoversSeeNobody(After(run))
    decreases |run|
  {
    if run != [] {
      QuietNeverSteals(run[..|run| - 1]);
      QuietStep(After(run[..|run| - 1]), run[|run| - 1]);
    }
  }

  /** Under that assumption there is at most one live primary in every reachable state. */
  lemma QuietRunsAreSafe(run: seq<Event>)
    requires Possible(run) && AlwaysQuiet(run)
    ensures SafeSoFar(run)
  {
    QuietNeverSteals(run);
    NoStealingIsSafe(run);
  }

  // ----- who receives the files -----

  /** The third probe of the process finds nobody. */
  predicate ReachesNobody(w: World, e: Event, p: nat) {
    e == Act(p) && p in w.processes && w.processes[p].phase.Probe3? && !w.processes[p].waiting && !w.name.Bound?
  }

  /** The primary that has the process's message ends before it has read it. */
  predicate EndsUnread(w: World, e: Event, p: nat) {
    (e.Crash? || e.Quit?) && p in w.inFlight && w.inFlight[p] == e.pid
  }

  ghost predicate ThirdProbeFailed(run: seq<Event>, p: nat)
    requires Possible(run)
    decreases |run|
  {
    run != [] && (ThirdProbeFailed(run[..|run| - 1], p) || ReachesNobody(After(run[..|run| - 1]), run[|run| - 1], p))
  }

  ghost predicate PrimaryEndedUnread(run: seq<Event>, p: nat)
    requires Possible(run)
    decreases |run|
  {
    run != [] && (PrimaryEndedUnread(run[..|run| - 1], p) || EndsUnread(After(run[..|run| - 1]), run[|run| - 1], p))
  }

  /** What has become of a process's message: nothing was written, or it is unread, read, or lost with its primary. */
  ghost predicate Fate(w: World, p: nat, failed: bool, lost: bool) {
    && (p in w.received || p in w.inFlight || failed || lost ==> p in w.processes)
    && (p in w.processes ==>
          var c := w.processes[p];
          && (failed ==> c.phase in {Secondary, Dead} && c.writes == 0 && !c.waiting)
          && (c.phase.Secondary? && c.writes == 0 ==> failed)
          && (c.writes == 0 ==> p !in w.inFlight && p !in w.received && !lost)
          && (c.writes > 0 ==> p in w.inFlight || p in w.received || lost))
    && !(p in w.inFlight && p in w.received) && !(lost && p in w.inFlight) && !(lost && p in w.received)
  }

  lemma {:induction false} MessageFate(run: seq<Event>, p: nat)
    requires Possible(run)
    ensures Fate(After(run), p, ThirdProbeFailed(run, p), PrimaryEndedUnread(run, p))
    decreases |run|
  {
    hide Apply, Enabled, ReachesNobody, EndsUnread, WritesFit, Fate;
    if run == [] {
      NoMessageYet(p);
    } else {
      var init := run[..|run| - 1];
      MessageFate(init, p);
      AtMostOneWrite(init);
      FateStep(After(init), run[|run| - 1], p, ThirdProbeFailed(init, p), PrimaryEndedUnread(init, p));
    }
  }

  lemma NoMessageYet(p: nat)
    ensures Fate(EMPTY, p, false, false)
  {}

  lemma FateStep(w: World, e: Event, p: nat, failed: bool, lost: bool)
    requires Fate(w, p, failed, lost) && WritesFit(w) && Enabled(w, e)
    ensures Fate(Apply(w, e), p, failed || ReachesNobody(w, e, p), lost || EndsUnread(w, e, p))
  {}

  /**
   In every run a process that answered false has handed over its files if and only if its third probe did
   not fail, its primary did not end before reading them, and they are not still unread.
   */
  lemma FalseMeansReceived(run: seq<Event>, p: nat)
    requires Possible(run) && p in After(run).processes && After(run).processes[p].phase.Secondary?
    ensures p in After(run).received <==>
              !ThirdProbeFailed(run, p) && !PrimaryEndedUnread(run, p) && p !in After(run).inFlight
    ensures After(run).processes[p].writes == if ThirdProbeFailed(run, p) then 0 else 1
  {
    hide Possible, After, ThirdProbeFailed, PrimaryEndedUnread;
    MessageFate(run, p);
    AtMostOneWrite(run);
  }

  /** The process has been answered, and its files were acknowledged. */
  ghost predicate Acknowledged(run: seq<Event>, p: nat)
    requires Possible(run)
    decreases |run|
  {
    run != [] && (Acknowledged(run[..|run| - 1], p)
                  || (run[|run| - 1] == Reply(p, true) && !After(run[..|run| - 1]).processes[p].plain))
  }

  /** An acknowledgement is always truthful. */
  lemma {:induction false} AcknowledgedIsReceived(run: seq<Event>, p: nat)
    requires Possible(run) && Acknowledged(run, p)
    ensures p in After(run).received
    decreases |run|
  {
    var init := run[..|run| - 1];
    if Acknowledged(init, p) {
      AcknowledgedIsReceived(init, p);
      ReceivedForGood(After(init), run[|run| - 1], p);
    }
  }

  lemma ReceivedForGood(w: World, e: Event, p: nat)
    requires p in w.received && Enabled(w, e)
    ensures p in Apply(w, e).received
  {}

  // ----- launches that reach nobody -----

  lemma NothingYet()
    ensures Possible([]) && After([]) == EMPTY && NeverSteals([])
  {}

  lemma Then(run: seq<Event>, e: Event, now: World, next: World) returns (longer: seq<Event>)
    requires Possible(run) && NeverSteals(run) && After(run) == now
    requires Enabled(now, e) && Apply(now, e) == next && !Steals(now, e)
    ensures Possible(longer) && NeverSteals(longer) && After(longer) == next
  {
    longer := run + [e];
    Extend(run, e);
    assert longer[..|run|] == run;
  }

  function At(phase: Phase): Process { Process(phase, false, 0, false) }

  /** A world in which nothing has been written. */
  function Silent(name: Name, processes: map<nat, Process>): World { World(name, processes, map[], {}) }

  /**
   The answer false does not mean that another instance has the files: two primaries that crash in turn, each
   just after a listen has failed, leave a launch that has written nothing.
   */
  lemma LaunchMayReachNobody() returns (run: seq<Event>)
    ensures Possible(run) && NeverSteals(run)
    ensures var w := After(run); 2 in w.processes && w.processes[2] == At(Secondary) && 2 !in w.received && 2 !in w.inFlight
  {
    hide Possible, After, NeverSteals, Apply, Enabled, Steals;
    run := FirstPrimary();
    run := FirstPrimaryCrashes(run);
    run := SecondListenFails(run);
    run := ThirdProbeFails(run);
  }

  const AFTER_FIRST_LISTEN: World := Silent(Bound(1), map[2 := At(Listen1), 1 := At(Primary)])
  const AFTER_REMOVAL: World := Silent(Unbound, map[2 := At(Listen2), 1 := At(Dead)])
  const AFTER_SECOND_LISTEN: World := Silent(Bound(3), map[2 := At(Listen2), 1 := At(Dead), 3 := At(Primary)])

  lemma FirstPrimary() returns (run: seq<Event>)
    ensures Possible(run) && NeverSteals(run) && After(run) == AFTER_FIRST_LISTEN
  {
    hide Possible, After, NeverSteals;
    NothingYet();
    run := Then([], Start(2, false), EMPTY, Silent(Unbound, map[2 := At(Probe1)]));
    run := Then(run, Act(2), After(run), Silent(Unbound, map[2 := At(Listen1)]));
    run := Then(run, Start(1, false), After(run), Silent(Unbound, map[2 := At(Listen1), 1 := At(Probe1)]));
    run := Then(run, Act(1), After(run), Silent(Unbound, map[2 := At(Listen1), 1 := At(Listen1)]));
    run := Then(run, Act(1), After(run), AFTER_FIRST_LISTEN);
  }

  lemma FirstPrimaryCrashes(before: seq<Event>) returns (run: seq<Event>)
    requires Possible(before) && NeverSteals(before) && After(before) == AFTER_FIRST_LISTEN
    ensures Possible(run) && NeverSteals(run) && After(run) == AFTER_REMOVAL
  {
    hide Possible, After, NeverSteals;
    run := Then(before, Act(2), After(before), Silent(Bound(1), map[2 := At(Probe2), 1 := At(Primary)]));
    run := Then(run, Crash(1), After(run), Silent(Stale, map[2 := At(Probe2), 1 := At(Dead)]));
    run := Then(run, Act(2), After(run), Silent(Stale, map[2 := At(Remove), 1 := At(Dead)]));
    run := Then(run, Act(2), After(run), AFTER_REMOVAL);
  }

  lemma SecondListenFails(before: seq<Event>) returns (run: seq<Event>)
    requires Possible(before) && NeverSteals(before) && After(before) == AFTER_REMOVAL
    ensures Possible(run) && NeverSteals(run) && After(run) == AFTER_SECOND_LISTEN
  {
    hide Possible, After, NeverSteals;
    run := Then(before, Start(3, false), After(before), Silent(Unbound, map[2 := At(Listen2), 1 := At(Dead), 3 := At(Probe1)]));
    run := Then(run, Act(3), After(run), Silent(Unbound, map[2 := At(Listen2), 1 := At(Dead), 3 := At(Listen1)]));
    run := Then(run, Act(3), After(run), AFTER_SECOND_LISTEN);
  }

  lemma ThirdProbeFails(before: seq<Event>) returns (run: seq<Event>)
    requires Possible(before) && NeverSteals(before) && After(before) == AFTER_SECOND_LISTEN
    ensures Possible(run) && NeverSteals(run)
    ensures After(run) == Silent(Stale, map[2 := At(Secondary), 1 := At(Dead), 3 := At(Dead)])
  {
    hide Possible, After, NeverSteals;
    run := Then(before, Act(2), After(before), Silent(Bound(3), map[2 := At(Probe3), 1 := At(Dead), 3 := At(Primary)]));
    run := Then(run, Crash(3), After(run), Silent(Stale, map[2 := At(Probe3), 1 := At(Dead), 3 := At(Dead)]));
    run := Then(run, Act(2), After(run), Silent(Stale, map[2 := At(Secondary), 1 := At(Dead), 3 := At(Dead)]));
  }

  /** Nor does it when the files have been written: the primary may be busy until the launch gives up, and then quit. */
  lemma BusyPrimaryMayNotRead() returns (run: seq<Event>)
    ensures Possible(run) && NeverSteals(run)
    ensures var w := After(run);
            2 in w.processes && w.processes[2] == Process(Secondary, false, 1, false) && 2 !in w.received && 2 !in w.inFlight
  {
    hide Possible, After, NeverSteals;
    NothingYet();
    run := Then([], Start(1, false), EMPTY, Silent(Unbound, map[1 := At(Probe1)]));
    run := Then(run, Act(1), After(run), Silent(Unbound, map[1 := At(Listen1)]));
    run := Then(run, Act(1), After(run), Silent(Bound(1), map[1 := At(Primary)]));
    run := Then(run, Start(2, false), After(run), Silent(Bound(1), map[1 := At(Primary), 2 := At(Probe1)]));
    run := WriteAndGiveUp(run);
  }

  lemma WriteAndGiveUp(before: seq<Event>) returns (run: seq<Event>)
    requires Possible(before) && NeverSteals(before)
    requires After(before) == Silent(Bound(1), map[1 := At(Primary), 2 := At(Probe1)])
    ensures Possible(run) && NeverSteals(run)
    ensures After(run) == Silent(Unbound, map[1 := At(Dead), 2 := Process(Secondary, false, 1, false)])
  {
    hide Possible, After, NeverSteals;
    var sent := Process(Probe1, false, 1, true);
    var gone := Process(Secondary, false, 1, false);
    run := Then(before, Act(2), After(before), World(Bound(1), map[1 := At(Primary), 2 := sent], map[2 := 1], {}));
    run := Then(run, Reply(2, false), After(run), World(Bound(1), map[1 := At(Primary), 2 := gone], map[2 := 1], {}));
    run := Then(run, Quit(1), After(run), Silent(Unbound, map[1 := At(Dead), 2 := gone]));
  }
}
