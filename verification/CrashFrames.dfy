/** Frame callbacks: when the standby process is torn down, and when the application gives up. */
module CrashFrames {
  import opened Options
  import R = RecoveryChain

  type WindowId = nat
  datatype Render = Successful | Errored
  datatype Event = UserAcknowledgedCrash | CrashRecoveryProcessTornDown

  const ERRORS_BEFORE_EXITING: nat := 3
  const FRAMES_BEFORE_TEARDOWN: nat := 10

  // ---------------------------------------------------------------- one callback, as a function

  /** The three maps of a live recovery process. */
  datatype Log = Log(
    errors: map<WindowId, nat>,
    successes: map<WindowId, nat>,
    renders: map<WindowId, seq<Render>>)

  /** `child` is the stored, live recovery process; `running` the global flag. */
  datatype State = State(child: Option<Log>, running: bool, exited: bool)

  datatype Callback = FrameDrawn(window: WindowId) | DrawFrameError(window: WindowId) | Teardown

  function Count(m: map<WindowId, nat>, w: WindowId): nat {
    if w in m then m[w] else 0
  }

  function Renders(m: map<WindowId, seq<Render>>, w: WindowId): seq<Render> {
    if w in m then m[w] else []
  }

  function Step(s: State, c: Callback): (State, seq<Event>) {
    if s.exited || s.child.None? then (s, [])
    else
      var log := s.child.value;
      match c
      case Teardown => (State(None, false, false), [])
      case DrawFrameError(w) =>
        var log' := log.(renders := log.renders[w := Renders(log.renders, w) + [Errored]],
                         errors := log.errors[w := Count(log.errors, w) + 1]);
        (State(Some(log'), s.running, log'.errors[w] >= ERRORS_BEFORE_EXITING), [])
      case FrameDrawn(w) =>
        var log' := Log(log.errors[w := 0],
                        log.successes[w := Count(log.successes, w) + 1],
                        log.renders[w := Renders(log.renders, w) + [Successful]]);
        if log'.successes[w] >= FRAMES_BEFORE_TEARDOWN
        then (State(None, false, false), [CrashRecoveryProcessTornDown])
        else (State(Some(log'), s.running, false), [])
  }

  // ---------------------------------------------------------------- one callback, in place

  /** What the operating system and the rest of the process see. */
  class System {
    var recoveryRunning: bool
    var exited: bool
  }

  class CrashRecoveryProcess {
    var consecutiveErrorsPerWindow: map<WindowId, nat>
    var successfulFramesPerWindow: map<WindowId, nat>
    var sequenceOfRendersPerWindow: map<WindowId, seq<Render>>
    var isAlive: bool

    function Contents(): Log
      reads this
    {
      Log(consecutiveErrorsPerWindow, successfulFramesPerWindow, sequenceOfRendersPerWindow)
    }

    constructor ()
      ensures isAlive && Contents() == Log(map[], map[], map[])
    {
      consecutiveErrorsPerWindow, successfulFramesPerWindow, sequenceOfRendersPerWindow := map[], map[], map[];
      isAlive := true;
    }

    method Kill(system: System)
      modifies this, system
      ensures Contents() == old(Contents()) && !isAlive && system.exited == old(system.exited)
      ensures system.recoveryRunning == (old(system.recoveryRunning) && !old(isAlive))
    {
      if !isAlive {
        return;
      }
      system.recoveryRunning := false;
      isAlive := false;
    }

    method HandleDrawFrameError(window: WindowId, system: System)
      modifies this, system`exited
      ensures isAlive == old(isAlive)
      ensures Contents() == old(Contents()).(
                renders := old(Contents()).renders[window := Renders(old(Contents()).renders, window) + [Errored]],
                errors := old(Contents()).errors[window := Count(old(Contents()).errors, window) + 1])
      ensures system.exited == (old(system.exited) || Contents().errors[window] >= ERRORS_BEFORE_EXITING)
    {
      var sequence := if window in sequenceOfRendersPerWindow then sequenceOfRendersPerWindow[window] else [];
      sequenceOfRendersPerWindow := sequenceOfRendersPerWindow[window := sequence + [Errored]];
      var numErrors := if window in consecutiveErrorsPerWindow then consecutiveErrorsPerWindow[window] else 0;
      numErrors := numErrors + 1;
      consecutiveErrorsPerWindow := consecutiveErrorsPerWindow[window := numErrors];
      if numErrors >= ERRORS_BEFORE_EXITING {
        system.exited := true;
      }
    }

    method HandleFrameDrawn(window: WindowId, system: System)
      requires isAlive
      modifies this, system
      ensures Contents() == Log(
                old(Contents()).errors[window := 0],
                old(Contents()).successes[window := Count(old(Contents()).successes, window) + 1],
                old(Contents()).renders[window := Renders(old(Contents()).renders, window) + [Successful]])
      ensures isAlive == (Contents().successes[window] < FRAMES_BEFORE_TEARDOWN)
      ensures system.recoveryRunning == (old(system.recoveryRunning) && isAlive)
      ensures system.exited == old(system.exited)
    {
      consecutiveErrorsPerWindow := consecutiveErrorsPerWindow[window := 0];
      var sequence := if window in sequenceOfRendersPerWindow then sequenceOfRendersPerWindow[window] else [];
      sequenceOfRendersPerWindow := sequenceOfRendersPerWindow[window := sequence + [Successful]];
      var numSuccessful := if window in successfulFramesPerWindow then successfulFramesPerWindow[window] else 0;
      numSuccessful := numSuccessful + 1;
      successfulFramesPerWindow := successfulFramesPerWindow[window := numSuccessful];
      if numSuccessful >= FRAMES_BEFORE_TEARDOWN {
        Kill(system);
      }
    }
  }

  class CrashRecovery {
    var childProcess: CrashRecoveryProcess?
    var shouldNotifyUserAboutCrash: Option<R.Mechanism>
    const system: System

    /** The stored child is alive, and the global flag says whether there is one. */
    ghost predicate Valid()
      reads this, system, childProcess
    {
      && (childProcess != null ==> childProcess.isAlive)
      && (system.recoveryRunning <==> childProcess != null)
    }

    function Contents(): State
      reads this, system, childProcess
    {
      State(if childProcess == null then None else Some(childProcess.Contents()), system.recoveryRunning, system.exited)
    }

    /** `CrashRecovery::new`: handle the crash this process was started for, if any, then stand
        up a recovery process of its own. `spawns` says whether starting it succeeds. */
    constructor (recovering: Option<R.Mechanism>, enabled: bool, env: R.Env, preferences: R.UserPreferences,
                 spawns: bool, system: System)
      requires !system.recoveryRunning && !system.exited
      modifies system, preferences
      ensures Valid() && this.system == system
      ensures
        var s := R.NewRecovery(recovering, enabled, env, old(preferences.Contents()), preferences.writable, spawns);
        && shouldNotifyUserAboutCrash == s.notify
        && preferences.Contents() == s.prefs
        && Contents() == if s.child.Some? then Standby() else State(None, false, false)
    {
      var notify: Option<R.Mechanism> := None;
      if recovering.Some? {
        var notifyUser := preferences.HandleParentCrash(recovering.value);
        notify := if notifyUser then recovering else None;
      }
      var child: CrashRecoveryProcess? := null;
      var chosen := if enabled then R.Choose(env, preferences.Contents()) else None;
      if chosen.Some? {
        if spawns {
          child := new CrashRecoveryProcess();
          system.recoveryRunning := true;
        }
      } else {
        notify := None;
      }
      this.system := system;
      this.childProcess := child;
      this.shouldNotifyUserAboutCrash := notify;
    }

    method HandleUserAcknowledgedCrash() returns (events: seq<Event>)
      modifies this`shouldNotifyUserAboutCrash
      ensures shouldNotifyUserAboutCrash == None && events == [UserAcknowledgedCrash]
    {
      shouldNotifyUserAboutCrash := None;
      events := [UserAcknowledgedCrash];
    }

    method OnDrawFrameError(window: WindowId)
      requires Valid() && !system.exited
      modifies childProcess, system
      ensures Valid()
      ensures (Contents(), []) == Step(old(Contents()), DrawFrameError(window))
    {
      if childProcess != null {
        childProcess.HandleDrawFrameError(window, system);
      }
    }

    method OnFrameDrawn(window: WindowId) returns (events: seq<Event>)
      requires Valid() && !system.exited
      modifies this`childProcess, childProcess, system
      ensures Valid()
      ensures (Contents(), events) == Step(old(Contents()), FrameDrawn(window))
    {
      events := [];
      var child := childProcess;
      childProcess := null;
      if child != null {
        child.HandleFrameDrawn(window, system);
        if !child.isAlive {
          events := [CrashRecoveryProcessTornDown];
        }
      }
      if child != null && child.isAlive {
        childProcess := child;
      }
    }

    method Teardown()
      requires Valid() && !system.exited
      modifies this`childProcess, childProcess, system
      ensures Valid()
      ensures (Contents(), []) == Step(old(Contents()), Callback.Teardown)
    {
      var child := childProcess;
      childProcess := null;
      if child != null {
        child.Kill(system);
      }
    }
  }

  // ---------------------------------------------------------------- runs

  function Standby(): State {
    State(Some(Log(map[], map[], map[])), true, false)
  }

  /** The state and all events after a run of callbacks. */
  function Run(callbacks: seq<Callback>): (State, seq<Event>) {
    if callbacks == [] then (Standby(), [])
    else
      var (s, events) := Run(callbacks[..|callbacks| - 1]);
      var (s', more) := Step(s, callbacks[|callbacks| - 1]);
      (s', events + more)
  }

  /** The recorded sequence of one window: its frames, in order. */
  function Frames(callbacks: seq<Callback>, w: WindowId): seq<Render> {
    if callbacks == [] then []
    else
      var before := Frames(callbacks[..|callbacks| - 1], w);
      match callbacks[|callbacks| - 1]
      case FrameDrawn(v) => if v == w then before + [Successful] else before
      case DrawFrameError(v) => if v == w then before + [Errored] else before
      case Teardown => before
  }

  function Successes(frames: seq<Render>): nat {
    if frames == [] then 0
    else Successes(frames[..|frames| - 1]) + if frames[|frames| - 1].Successful? then 1 else 0
  }

  function TrailingErrors(frames: seq<Render>): nat {
    if frames == [] || frames[|frames| - 1].Successful? then 0
    else TrailingErrors(frames[..|frames| - 1]) + 1
  }

  datatype Cause = TenthFrame | ThirdError | TornDown

  /** Why the standby ends at the last of these callbacks, if it has not ended before: decided
      from the frames alone. */
  function LastCause(callbacks: seq<Callback>): Option<Cause>
    requires callbacks != []
  {
    match callbacks[|callbacks| - 1]
    case Teardown => Some(TornDown)
    case FrameDrawn(w) =>
      if Successes(Frames(callbacks, w)) >= FRAMES_BEFORE_TEARDOWN then Some(TenthFrame) else None
    case DrawFrameError(w) =>
      if TrailingErrors(Frames(callbacks, w)) >= ERRORS_BEFORE_EXITING then Some(ThirdError) else None
  }

  /** Why the standby has ended: the first cause in the run. */
  function FirstCause(callbacks: seq<Callback>): Option<Cause> {
    if callbacks == [] then None
    else
      var before := FirstCause(callbacks[..|callbacks| - 1]);
      if before.Some? then before else LastCause(callbacks)
  }

  /** The three maps say, for every window, what its recorded frames say. */
  ghost predicate LogMatches(log: Log, callbacks: seq<Callback>) {
    forall w: WindowId ::
      && Renders(log.renders, w) == Frames(callbacks, w)
      && Count(log.errors, w) == TrailingErrors(Frames(callbacks, w))
      && Count(log.successes, w) == Successes(Frames(callbacks, w))
  }

  ghost predicate StateMatches(s: State, callbacks: seq<Callback>) {
    match FirstCause(callbacks)
    case None => s.child.Some? && s.running && !s.exited && LogMatches(s.child.value, callbacks)
    case Some(ThirdError) => s.exited
    case Some(_) => s == State(None, false, false)
  }

  /** Every run: the counters are those of the recorded frames while the standby lasts, it ends
      at the first cause, and the teardown event is emitted once, for a tenth frame only. */
  lemma {:induction false} RunMatchesFrames(callbacks: seq<Callback>)
    ensures StateMatches(Run(callbacks).0, callbacks)
    ensures Run(callbacks).1 == if FirstCause(callbacks) == Some(TenthFrame) then [CrashRecoveryProcessTornDown] else []
  {
    hide Frames, Successes, TrailingErrors, LogMatches;
    if callbacks == [] {
      NothingRecorded();
    } else {
      var before, c := callbacks[..|callbacks| - 1], callbacks[|callbacks| - 1];
      RunMatchesFrames(before);
      if FirstCause(before).None? {
        assert before + [c] == callbacks;
        LogStep(Run(before).0.child.value, before, c);
      }
    }
  }

  lemma NothingRecorded()
    ensures LogMatches(Log(map[], map[], map[]), [])
  {
  }

  lemma FramesAppend(before: seq<Callback>, c: Callback, w: WindowId)
    ensures Frames(before + [c], w) ==
      if c == FrameDrawn(w) then Frames(before, w) + [Successful]
      else if c == DrawFrameError(w) then Frames(before, w) + [Errored]
      else Frames(before, w)
  {
    assert (before + [c])[..|before|] == before;
  }

  lemma LogStep(log: Log, before: seq<Callback>, c: Callback)
    requires LogMatches(log, before)
    ensures var (s, events) := Step(State(Some(log), true, false), c);
      && events == (if LastCause(before + [c]) == Some(TenthFrame) then [CrashRecoveryProcessTornDown] else [])
      && match LastCause(before + [c])
         case None => s.child.Some? && s.running && !s.exited && LogMatches(s.child.value, before + [c])
         case Some(ThirdError) => s.exited
         case Some(_) => s == State(None, false, false)
  {
    hide Frames, Successes, TrailingErrors;
    forall w: WindowId
      ensures Frames(before + [c], w) ==
        if c == FrameDrawn(w) then Frames(before, w) + [Successful]
        else if c == DrawFrameError(w) then Frames(before, w) + [Errored]
        else Frames(before, w)
    {
      FramesAppend(before, c, w);
    }
    if !c.Teardown? {
      FrameAdded(Frames(before, c.window), if c.FrameDrawn? then Successful else Errored);
    }
  }

  lemma FrameAdded(frames: seq<Render>, r: Render)
    ensures Successes(frames + [r]) == Successes(frames) + if r.Successful? then 1 else 0
    ensures TrailingErrors(frames + [r]) == if r.Successful? then 0 else TrailingErrors(frames) + 1
  {
    assert (frames + [r])[..|frames|] == frames;
  }

  /** The stored child is present exactly when the global flag is set, in every state of a process
      that has not exited; and once the standby is over no callback changes anything. */
  lemma StandbyOverStaysOver(callbacks: seq<Callback>, c: Callback)
    ensures var s := Run(callbacks).0;
      && (!s.exited ==> (s.child.Some? <==> s.running))
      && (FirstCause(callbacks).Some? ==> Step(s, c) == (s, []))
  {
    RunMatchesFrames(callbacks);
  }

  // ---------------------------------------------------------------- when the standby lasts

  /** Three errors in a row somewhere in the frames. */
  predicate ErrorRun(frames: seq<Render>) {
    exists k :: 0 <= k <= |frames| && TrailingErrors(frames[..k]) >= ERRORS_BEFORE_EXITING
  }

  /** A window that has neither drawn ten frames nor failed three times in a row. */
  predicate WithinLimits(callbacks: seq<Callback>, w: WindowId) {
    Successes(Frames(callbacks, w)) < FRAMES_BEFORE_TEARDOWN && !ErrorRun(Frames(callbacks, w))
  }

  /** The standby lasts through a run exactly when nobody tore it down and every window stayed
      within its limits. */
  lemma {:induction false} StandbyLastsIff(callbacks: seq<Callback>)
    ensures FirstCause(callbacks).None? <==>
      Callback.Teardown !in callbacks && forall w: WindowId :: WithinLimits(callbacks, w)
  {
    if callbacks == [] {
      assert forall w: WindowId :: Frames(callbacks, w) == [];
    } else {
      var before := callbacks[..|callbacks| - 1];
      var c := callbacks[|callbacks| - 1];
      StandbyLastsIff(before);
      assert callbacks == before + [c];
      forall w: WindowId
        ensures WithinLimits(callbacks, w) <==>
          WithinLimits(before, w) && (!c.Teardown? && c.window == w ==> LastCause(callbacks).None?)
      {
        LimitsStep(before, c, w);
      }
      if !c.Teardown? && LastCause(callbacks).Some? {
        assert !WithinLimits(callbacks, c.window);
      }
    }
  }

  lemma LimitsStep(before: seq<Callback>, c: Callback, w: WindowId)
    ensures WithinLimits(before + [c], w) <==>
      WithinLimits(before, w) && (!c.Teardown? && c.window == w ==> LastCause(before + [c]).None?)
  {
    assert (before + [c])[..|before|] == before;
    if !c.Teardown? && c.window == w {
      var r := if c.FrameDrawn? then Successful else Errored;
      FrameAdded(Frames(before, w), r);
      ErrorRunAdded(Frames(before, w), r);
    }
  }

  lemma ErrorRunAdded(frames: seq<Render>, r: Render)
    ensures ErrorRun(frames + [r]) <==> ErrorRun(frames) || TrailingErrors(frames + [r]) >= ERRORS_BEFORE_EXITING
    ensures r.Successful? ==> TrailingErrors(frames + [r]) == 0
  {
    var all := frames + [r];
    assert all[..|all|] == all;
    assert forall k :: 0 <= k <= |frames| ==> all[..k] == frames[..k];
    if ErrorRun(all) {
      var k :| 0 <= k <= |all| && TrailingErrors(all[..k]) >= ERRORS_BEFORE_EXITING;
      if k <= |frames| {
        assert TrailingErrors(frames[..k]) >= ERRORS_BEFORE_EXITING;
      }
    }
    if ErrorRun(frames) {
      var k :| 0 <= k <= |frames| && TrailingErrors(frames[..k]) >= ERRORS_BEFORE_EXITING;
      assert TrailingErrors(all[..k]) >= ERRORS_BEFORE_EXITING;
    }
  }

  // ---------------------------------------------------------------- the length of the log

  lemma {:induction false} LengthBound(frames: seq<Render>)
    requires !ErrorRun(frames)
    ensures TrailingErrors(frames) < ERRORS_BEFORE_EXITING
    ensures |frames| <= ERRORS_BEFORE_EXITING * Successes(frames) + TrailingErrors(frames)
  {
    assert frames[..|frames|] == frames;
    if frames != [] {
      var before := frames[..|frames| - 1];
      assert frames == before + [frames[|frames| - 1]];
      ErrorRunAdded(before, frames[|frames| - 1]);
      LengthBound(before);
      FrameAdded(before, frames[|frames| - 1]);
    }
  }

  /** While the standby lasts, a window's log has at most 29 entries. */
  lemma LogStaysShort(callbacks: seq<Callback>, w: WindowId)
    requires FirstCause(callbacks).None?
    ensures Run(callbacks).0.child.Some?
    ensures Renders(Run(callbacks).0.child.value.renders, w) == Frames(callbacks, w)
    ensures |Frames(callbacks, w)| <= 29
  {
    RunMatchesFrames(callbacks);
    StandbyLastsIff(callbacks);
    assert WithinLimits(callbacks, w);
    LengthBound(Frames(callbacks, w));
  }

  /** The standby lasts, and window 0 has drawn `n` of `k` frames and failed the last `e`. */
  predicate Lasting(callbacks: seq<Callback>, n: nat, k: nat, e: nat) {
    && FirstCause(callbacks).None?
    && |Frames(callbacks, 0)| == k
    && Successes(Frames(callbacks, 0)) == n
    && TrailingErrors(Frames(callbacks, 0)) == e
  }

  lemma LastsThroughError(callbacks: seq<Callback>, n: nat, k: nat, e: nat)
    requires Lasting(callbacks, n, k, e) && e + 1 < ERRORS_BEFORE_EXITING
    ensures Lasting(callbacks + [DrawFrameError(0)], n, k + 1, e + 1)
  {
    assert (callbacks + [DrawFrameError(0)])[..|callbacks|] == callbacks;
    FrameAdded(Frames(callbacks, 0), Errored);
  }

  lemma LastsThroughFrame(callbacks: seq<Callback>, n: nat, k: nat, e: nat)
    requires Lasting(callbacks, n, k, e) && n + 1 < FRAMES_BEFORE_TEARDOWN
    ensures Lasting(callbacks + [FrameDrawn(0)], n + 1, k + 1, 0)
  {
    assert (callbacks + [FrameDrawn(0)])[..|callbacks|] == callbacks;
    FrameAdded(Frames(callbacks, 0), Successful);
  }

  lemma LastsThroughTwoErrors(callbacks: seq<Callback>, n: nat, k: nat)
    requires Lasting(callbacks, n, k, 0)
    ensures Lasting(callbacks + [DrawFrameError(0), DrawFrameError(0)], n, k + 2, 2)
  {
    LastsThroughError(callbacks, n, k, 0);
    LastsThroughError(callbacks + [DrawFrameError(0)], n, k + 1, 1);
    assert callbacks + [DrawFrameError(0)] + [DrawFrameError(0)] == callbacks + [DrawFrameError(0), DrawFrameError(0)];
  }

  /** Two failures and a success, `n` times over, then two more failures. */
  lemma {:induction false} FlakyRun(n: nat) returns (callbacks: seq<Callback>)
    requires n < FRAMES_BEFORE_TEARDOWN
    ensures Lasting(callbacks, n, 3 * n + 2, 2)
  {
    if n == 0 {
      LastsThroughTwoErrors([], 0, 0);
      callbacks := [] + [DrawFrameError(0), DrawFrameError(0)];
    } else {
      var before := FlakyRun(n - 1);
      LastsThroughFrame(before, n - 1, 3 * n - 1, 2);
      LastsThroughTwoErrors(before + [FrameDrawn(0)], n, 3 * n);
      callbacks := before + [FrameDrawn(0)] + [DrawFrameError(0), DrawFrameError(0)];
    }
  }

  /** The bound is reached: 29 frames of one window, and the standby still lasts. */
  lemma LogCanReachTheBound()
    ensures exists callbacks :: FirstCause(callbacks).None? && |Frames(callbacks, 0)| == 29
  {
    var callbacks := FlakyRun(9);
    assert |Frames(callbacks, 0)| == 29;
  }
}
