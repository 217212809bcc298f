/** Which recovery process follows which: the chain of processes that stand by for a crash. */
module RecoveryChain {
  import opened Options

  datatype Platform = Linux | Windows | OtherPlatform
  datatype Mechanism = X11 | DedicatedGpu | DisableOpenGL | ForceVulkan
  datatype Backend = Vulkan | Metal | Dx12 | Gl | WebGpu

  /** What a process finds in its environment; `backends` is the parsed `WGPU_BACKEND`. */
  datatype Env = Env(platform: Platform, integration: bool, wayland: bool, backends: Option<set<Backend>>)

  datatype Prefs = Prefs(forceX11: Option<bool>, preferLowPowerGpu: Option<bool>)

  /** `choose_crash_recovery_mechanism`. */
  function Choose(env: Env, prefs: Prefs): Option<Mechanism> {
    if env.integration then None
    else if env.platform.Linux? && prefs.forceX11 == Some(false) && env.wayland then Some(X11)
    else if env.platform.Windows? && env.backends.None? then Some(DisableOpenGL)
    else if env.platform.Windows? && env.backends != Some({Vulkan}) then Some(ForceVulkan)
    else if prefs.preferLowPowerGpu.None? then Some(DedicatedGpu)
    else None
  }

  /** The environment `spawn_recovery_process` gives the child. */
  function ChildEnv(env: Env, m: Mechanism): Env {
    match m
    case DisableOpenGL => env.(backends := Some({Vulkan, Dx12}))
    case ForceVulkan => env.(backends := Some({Vulkan}))
    case _ => env
  }

  /** `handle_parent_crash`: the preferences it leaves, and whether the user is to be notified. */
  function AfterParentCrash(prefs: Prefs, m: Mechanism, writable: bool): (Prefs, bool) {
    match m
    case X11 => (if prefs.forceX11 != Some(true) && writable then prefs.(forceX11 := Some(true)) else prefs, true)
    case DedicatedGpu =>
      (if prefs.preferLowPowerGpu.None? && writable then prefs.(preferLowPowerGpu := Some(false)) else prefs, false)
    case _ => (prefs, false)
  }

  /** The preferences as stored; a write that fails is reported and otherwise ignored. */
  class UserPreferences {
    var forceX11: Option<bool>
    var preferLowPowerGpu: Option<bool>
    const writable: bool

    function Contents(): Prefs
      reads this
    {
      Prefs(forceX11, preferLowPowerGpu)
    }

    method HandleParentCrash(m: Mechanism) returns (notify: bool)
      modifies this
      ensures (Contents(), notify) == AfterParentCrash(old(Contents()), m, writable)
    {
      match m
      case X11 =>
        if forceX11 != Some(true) && writable {
          forceX11 := Some(true);
        }
        notify := true;
      case DedicatedGpu =>
        if preferLowPowerGpu.None? && writable {
          preferLowPowerGpu := Some(false);
        }
        notify := false;
      case DisableOpenGL => notify := false;
      case ForceVulkan => notify := false;
    }
  }

  /** A process that runs the application, as its recovery decisions see it. */
  datatype Process = Process(env: Env, prefs: Prefs)

  /** What `CrashRecovery::new` decides: the child it stands up, the notification it keeps, and
      the preferences it leaves. */
  datatype Startup = Startup(child: Option<Mechanism>, notify: Option<Mechanism>, prefs: Prefs)

  /** `CrashRecovery::new` in a process started for `recovering` (None for the first process). */
  function NewRecovery(recovering: Option<Mechanism>, enabled: bool, env: Env, prefs: Prefs,
                       writable: bool, spawns: bool): Startup {
    var (prefs', crashNotify) :=
      if recovering.Some? then AfterParentCrash(prefs, recovering.value, writable) else (prefs, false);
    var notify := if crashNotify then recovering else None;
    var chosen := if enabled then Choose(env, prefs') else None;
    if chosen.None? then Startup(None, None, prefs')
    else Startup(if spawns then chosen else None, notify, prefs')
  }

  /** The process that takes over when `p`, itself past its own startup, crashes. */
  function Successor(p: Process, writable: bool): Option<Process> {
    match Choose(p.env, p.prefs)
    case None => None
    case Some(m) => Some(Process(ChildEnv(p.env, m), AfterParentCrash(p.prefs, m, writable).0))
  }

  /** Successor is what the child's own `CrashRecovery::new` makes of the parent's choice. */
  lemma SuccessorIsStartup(p: Process, writable: bool)
    ensures Successor(p, writable).Some? <==> NewRecovery(None, true, p.env, p.prefs, writable, true).child.Some?
    ensures Successor(p, writable).Some? ==>
      var m := NewRecovery(None, true, p.env, p.prefs, writable, true).child;
      var q := Successor(p, writable).value;
      && q.env == ChildEnv(p.env, m.value)
      && q.prefs == NewRecovery(m, true, q.env, p.prefs, writable, true).prefs
      && NewRecovery(m, true, q.env, p.prefs, writable, true).child == Choose(q.env, q.prefs)
  {
  }

  // ---------------------------------------------------------------- termination

  /** How many recoveries are still possible. */
  function Measure(p: Process): nat {
    if p.env.integration then 0
    else
      (if p.env.platform.Linux? && p.prefs.forceX11 == Some(false) && p.env.wayland then 1 else 0)
      + (if !p.env.platform.Windows? then 0
         else if p.env.backends.None? then 2
         else if p.env.backends != Some({Vulkan}) then 1
         else 0)
      + (if p.prefs.preferLowPowerGpu.None? then 1 else 0)
  }

  lemma RecoveryUsesUpMeasure(p: Process)
    requires Successor(p, true).Some?
    ensures Measure(Successor(p, true).value) == Measure(p) - 1
  {
    assert {Vulkan, Dx12} != {Vulkan} by {
      assert Dx12 in {Vulkan, Dx12};
    }
  }

  /** The mechanisms used if every process of the chain crashes, when preferences can be written. */
  function Chain(p: Process): seq<Mechanism>
    decreases Measure(p)
  {
    match Choose(p.env, p.prefs)
    case None => []
    case Some(m) =>
      RecoveryUsesUpMeasure(p);
      [m] + Chain(Successor(p, true).value)
  }

  /** The chain read off the starting state, without following it. */
  function ExpectedChain(p: Process): seq<Mechanism> {
    if p.env.integration then []
    else
      (if p.env.platform.Linux? && p.prefs.forceX11 == Some(false) && p.env.wayland then [X11] else [])
      + (if p.env.platform.Windows? && p.env.backends.None? then [DisableOpenGL] else [])
      + (if p.env.platform.Windows? && p.env.backends != Some({Vulkan}) then [ForceVulkan] else [])
      + (if p.prefs.preferLowPowerGpu.None? then [DedicatedGpu] else [])
  }

  lemma {:induction false} ChainIsExpected(p: Process)
    ensures Chain(p) == ExpectedChain(p)
    decreases Measure(p)
  {
    if Choose(p.env, p.prefs).Some? {
      RecoveryUsesUpMeasure(p);
      ChainIsExpected(Successor(p, true).value);
      assert Dx12 in {Vulkan, Dx12} && Dx12 !in {Vulkan};
    }
  }

  /** When preferences can be written the chain ends: no mechanism is used twice, and there are
      at most 2 recoveries on Linux, 3 on Windows and 1 elsewhere. */
  lemma ChainTerminates(p: Process)
    ensures forall i, j :: 0 <= i < j < |Chain(p)| ==> Chain(p)[i] != Chain(p)[j]
    ensures |Chain(p)| == Measure(p)
    ensures |Chain(p)| <= match p.env.platform case Linux => 2 case Windows => 3 case OtherPlatform => 1
  {
    ChainIsExpected(p);
  }

  /** What a mechanism is for has been done, for good. */
  predicate Cured(m: Mechanism, p: Process) {
    match m
    case X11 => p.prefs.forceX11 == Some(true)
    case DedicatedGpu => p.prefs.preferLowPowerGpu == Some(false)
    case DisableOpenGL => p.env.backends.Some? && Gl !in p.env.backends.value
    case ForceVulkan => p.env.backends == Some({Vulkan})
  }

  /** Each recovery cures its own crash and changes nothing else. */
  lemma RecoveryCuresItsCrash(p: Process)
    requires Successor(p, true).Some?
    ensures var m, q := Choose(p.env, p.prefs).value, Successor(p, true).value;
      && Cured(m, q)
      && q.env.(backends := None) == p.env.(backends := None)
      && (m.X11? || m.DedicatedGpu? ==> q.env == p.env)
      && (!m.X11? ==> q.prefs.forceX11 == p.prefs.forceX11)
      && (!m.DedicatedGpu? ==> q.prefs.preferLowPowerGpu == p.prefs.preferLowPowerGpu)
      && (m.DisableOpenGL? ==> q.env.backends == Some({Vulkan, Dx12}))
  {
  }

  lemma CuredStaysCured(p: Process, m: Mechanism)
    requires Successor(p, true).Some? && Cured(m, p)
    ensures Cured(m, Successor(p, true).value)
  {
  }

  /** The chain has as many processes as recoveries, and each process has every crash before it cured. */
  lemma {:induction false} ChainCures(p: Process, n: nat)
    ensures AfterCrashes(p, true, n).Some? <==> n <= |Chain(p)|
    ensures n <= |Chain(p)| ==>
      && Chain(AfterCrashes(p, true, n).value) == Chain(p)[n..]
      && forall k :: 0 <= k < n ==> Cured(Chain(p)[k], AfterCrashes(p, true, n).value)
  {
    if n > 0 {
      ChainCures(p, n - 1);
      var before := AfterCrashes(p, true, n - 1);
      if before.Some? && Successor(before.value, true).Some? {
        RecoveryCuresItsCrash(before.value);
        RecoveryUsesUpMeasure(before.value);
        assert Chain(p)[n - 1..][1..] == Chain(p)[n..];
        forall k | 0 <= k < n
          ensures Cured(Chain(p)[k], Successor(before.value, true).value)
        {
          if k < n - 1 {
            CuredStaysCured(before.value, Chain(p)[k]);
          }
        }
      }
    }
  }

  /** The process after `n` crashes; None when the chain is over before that. */
  function AfterCrashes(p: Process, writable: bool, n: nat): Option<Process> {
    if n == 0 then Some(p)
    else
      var before := AfterCrashes(p, writable, n - 1);
      if before.None? then None else Successor(before.value, writable)
  }

  /** What keeps choosing the same mechanism when its preference cannot be written. */
  predicate Stuck(p: Process) {
    && !p.env.integration
    && ((p.env.platform.Linux? && p.prefs.forceX11 == Some(false) && p.env.wayland) || p.prefs.preferLowPowerGpu.None?)
  }

  lemma {:induction false} UnwritableKeepsPrefs(p: Process, n: nat)
    requires AfterCrashes(p, false, n).Some?
    ensures var q := AfterCrashes(p, false, n).value;
      q.prefs == p.prefs && q.env.(backends := None) == p.env.(backends := None)
  {
    if n > 0 {
      UnwritableKeepsPrefs(p, n - 1);
    }
  }

  /** When preferences cannot be written, the chain goes on for ever exactly when the state is
      stuck: then some mechanism is chosen again and again. */
  lemma UnwritableChainIsEndlessIff(p: Process)
    ensures (forall n: nat :: AfterCrashes(p, false, n).Some?) <==> Stuck(p)
  {
    if Stuck(p) {
      forall n: nat ensures AfterCrashes(p, false, n).Some? {
        StuckGoesOn(p, n);
      }
    } else {
      NotStuckEnds(p);
    }
  }

  /** A first start on Linux whose preferences cannot be written chooses the dedicated GPU for ever. */
  lemma ReadOnlyFirstStartIsEndless(n: nat)
    ensures AfterCrashes(Process(Env(Linux, false, false, None), Prefs(None, None)), false, n).Some?
  {
    StuckGoesOn(Process(Env(Linux, false, false, None), Prefs(None, None)), n);
  }

  lemma {:induction false} StuckGoesOn(p: Process, n: nat)
    requires Stuck(p)
    ensures AfterCrashes(p, false, n).Some?
  {
    if n > 0 {
      StuckGoesOn(p, n - 1);
      UnwritableKeepsPrefs(p, n - 1);
    }
  }

  lemma NotStuckEnds(p: Process)
    requires !Stuck(p)
    ensures AfterCrashes(p, false, 3).None?
  {
    assert {Vulkan, Dx12} != {Vulkan} by {
      assert Dx12 in {Vulkan, Dx12};
    }
    assert AfterCrashes(p, false, 0) == Some(p);
    var p1 := AfterCrashes(p, false, 1);
    assert p1 == Successor(p, false);
    var p2 := AfterCrashes(p, false, 2);
    assert p2 == if p1.None? then None else Successor(p1.value, false);
    assert AfterCrashes(p, false, 3) == if p2.None? then None else Successor(p2.value, false);
  }

  /** Which child a process stands up, and which preferences it starts with: those it was given, apart
      from the one that cures the crash it was started for. */
  lemma StartupIff(recovering: Option<Mechanism>, enabled: bool, env: Env, prefs: Prefs, writable: bool, spawns: bool)
    ensures var s := NewRecovery(recovering, enabled, env, prefs, writable, spawns);
      && (s.child.Some? <==> enabled && spawns && ExpectedChain(Process(env, s.prefs)) != [])
      && (s.child.Some? ==> s.child.value == ExpectedChain(Process(env, s.prefs))[0])
      && s.prefs.forceX11 == (if recovering == Some(X11) && writable then Some(true) else prefs.forceX11)
      && s.prefs.preferLowPowerGpu ==
         if recovering == Some(DedicatedGpu) && writable && prefs.preferLowPowerGpu.None? then Some(false)
         else prefs.preferLowPowerGpu
  {
  }

  // ---------------------------------------------------------------- notification

  /** The user hears of a recovered crash exactly when this process switched to X11 and goes on
      to choose a further recovery mechanism, whether or not that child then spawns. */
  lemma NotifiedIff(recovering: Option<Mechanism>, enabled: bool, env: Env, prefs: Prefs, writable: bool, spawns: bool)
    ensures var s := NewRecovery(recovering, enabled, env, prefs, writable, spawns);
      && (s.notify.Some? <==> recovering == Some(X11) && enabled && Choose(env, s.prefs).Some?)
      && (s.notify.Some? ==> s.notify == Some(X11))
  {
  }

  /** So a Linux user who was moved from Wayland to X11 is told only if they never chose between
      the GPUs: a stored GPU preference makes the process forget the notification. */
  lemma WaylandCrashIsReportedIff(p: Process, spawns: bool)
    requires p.env.platform.Linux? && Choose(p.env, p.prefs) == Some(X11)
    ensures NewRecovery(Some(X11), true, ChildEnv(p.env, X11), p.prefs, true, spawns).notify == Some(X11)
            <==> p.prefs.preferLowPowerGpu.None?
  {
  }

  /** A user of Wayland who has chosen a GPU is moved to X11 and not told. */
  lemma WaylandCrashGoesUnreported(spawns: bool)
    ensures var p := Process(Env(Linux, false, true, None), Prefs(Some(false), Some(true)));
      && Choose(p.env, p.prefs) == Some(X11)
      && NewRecovery(Some(X11), true, ChildEnv(p.env, X11), p.prefs, true, spawns).notify == None
  {
  }
}
