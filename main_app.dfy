/**
 * The application's phase machine: the current phase, and a pending phase
 * that other threads request and that the machine adopts only when it
 * passes through the idle phase.
 */
module MainApp {
  import opened Wrappers

  // The phases, with the values the source's enumeration gives them. A
  // phase is kept as a plain int, since any value may be requested.
  const NoChangeState: int := 0
  const StartApp: int := 1
  const InitCli: int := 2
  const AppIdle: int := 3
  const QuitApp: int := 4
  const DeinitCli: int := 5
  const DeinitApp: int := 6
  const CloseApp: int := 7

  /** The current phase and the pending one. */
  datatype Machine = Machine(state: int, next: int)

  /** A phase the main loop's switch has a case for. */
  predicate IsKnown(state: int) { StartApp <= state <= CloseApp }

  /**
   * One pass of the main loop: the phase that follows, or None when
   * CLOSE_APP ends the program. The idle phase adopts a pending phase and
   * clears it; no other phase touches the pending one.
   */
  function Transition(m: Machine): (r: Option<Machine>)
    ensures r.None? <==> m.state == CloseApp
    ensures r.Some? && m.state != AppIdle ==> r.value.next == m.next
    ensures r.Some? && m.state == AppIdle ==> r.value.next == NoChangeState
    ensures r.Some? && m.state != AppIdle && r.value.state != AppIdle ==> r.value.state == m.state + 1
    ensures IsKnown(m.state) && m.state != AppIdle && m.state != CloseApp ==> r == Some(Machine(m.state + 1, m.next))
  {
    if m.state == StartApp then Some(Machine(InitCli, m.next))
    else if m.state == InitCli then Some(Machine(AppIdle, m.next))
    else if m.state == AppIdle then
      if m.next != NoChangeState then Some(Machine(m.next, NoChangeState))
      else Some(Machine(AppIdle, m.next))
    else if m.state == QuitApp then Some(Machine(DeinitCli, m.next))
    else if m.state == DeinitCli then Some(Machine(DeinitApp, m.next))
    else if m.state == DeinitApp then Some(Machine(CloseApp, m.next))
    else if m.state == CloseApp then None
    else Some(Machine(AppIdle, m.next))
  }

  /** The machine after `k` passes of the main loop, or None once it has ended. */
  function Steps(m: Machine, k: nat): Option<Machine>
  {
    if k == 0 then Some(m)
    else match Steps(m, k - 1)
      case None => None
      case Some(m') => Transition(m')
  }

  /** Once ended, the machine stays ended. */
  lemma {:induction false} EndedStaysEnded(m: Machine, k: nat, j: nat)
    requires k <= j && Steps(m, k).None?
    ensures Steps(m, j).None?
    decreases j - k
  {
    if k < j {
      EndedStaysEnded(m, k, j - 1);
    }
  }

  /** Steps compose: `j` passes after `k` passes are `k + j` passes. */
  lemma {:induction false} StepsCompose(m: Machine, k: nat, j: nat)
    requires Steps(m, k).Some?
    ensures Steps(m, k + j) == Steps(Steps(m, k).value, j)
    decreases j
  {
    if j > 0 {
      StepsCompose(m, k, j - 1);
    }
  }

  /** START_APP reaches INIT_CLI and then the idle phase, keeping any pending request. */
  lemma StartupReachesIdle(next: int)
    ensures Steps(Machine(StartApp, next), 1) == Some(Machine(InitCli, next))
    ensures Steps(Machine(StartApp, next), 2) == Some(Machine(AppIdle, next))
  {
  }

  /** With nothing pending the machine stays idle, however many passes are made. */
  lemma {:induction false} IdleIsStable(k: nat)
    ensures Steps(Machine(AppIdle, NoChangeState), k) == Some(Machine(AppIdle, NoChangeState))
  {
    if k > 0 {
      IdleIsStable(k - 1);
    }
  }

  /** The idle phase makes a pending phase current and clears the pending slot. */
  lemma IdleAdoptsPending(next: int)
    requires next != NoChangeState
    ensures Transition(Machine(AppIdle, next)) == Some(Machine(next, NoChangeState))
  {
  }

  /** Any value the switch has no case for, NO_CHANGE_STATE included, falls back to the idle phase. */
  lemma UnknownFallsBackToIdle(m: Machine)
    requires !IsKnown(m.state)
    ensures Transition(m) == Some(Machine(AppIdle, m.next))
  {
  }

  /**
   * From the idle phase with a quit request, the machine passes QUIT_APP,
   * DEINIT_CLI and DEINIT_APP and reaches CLOSE_APP in exactly four passes;
   * the fifth ends the program.
   */
  lemma QuitClosesInFour()
    ensures Steps(Machine(AppIdle, QuitApp), 1) == Some(Machine(QuitApp, NoChangeState))
    ensures Steps(Machine(AppIdle, QuitApp), 2) == Some(Machine(DeinitCli, NoChangeState))
    ensures Steps(Machine(AppIdle, QuitApp), 3) == Some(Machine(DeinitApp, NoChangeState))
    ensures Steps(Machine(AppIdle, QuitApp), 4) == Some(Machine(CloseApp, NoChangeState))
    ensures Steps(Machine(AppIdle, QuitApp), 5) == None
  {
  }

  /**
   * A quit that a command line requests while start-up is under way is
   * acted on. The command lines are started during the INIT_CLI pass, so
   * their request is pending when that pass ends: the program then ends on
   * the sixth pass from INIT_CLI. A request already pending at START_APP
   * ends it on the seventh pass.
   */
  lemma QuitDuringStartupCloses()
    ensures Steps(Machine(InitCli, QuitApp), 5) == Some(Machine(CloseApp, NoChangeState))
    ensures Steps(Machine(InitCli, QuitApp), 6) == None
    ensures Steps(Machine(StartApp, QuitApp), 6) == Some(Machine(CloseApp, NoChangeState))
    ensures Steps(Machine(StartApp, QuitApp), 7) == None
  {
    StepsCompose(Machine(InitCli, QuitApp), 1, 4);
    StepsCompose(Machine(InitCli, QuitApp), 1, 5);
    StepsCompose(Machine(StartApp, QuitApp), 2, 4);
    StepsCompose(Machine(StartApp, QuitApp), 2, 5);
    QuitClosesInFour();
  }

  /**
   * Once the quit phase is under way, shutdown runs to its end whatever is
   * requested meanwhile: QUIT_APP reaches CLOSE_APP in three passes with the
   * request still pending, and the fourth pass ends the program.
   */
  lemma ShutdownIgnoresRequests(next: int)
    ensures Steps(Machine(QuitApp, next), 3) == Some(Machine(CloseApp, next))
    ensures Steps(Machine(QuitApp, next), 4) == None
  {
    assert Steps(Machine(QuitApp, next), 1) == Some(Machine(DeinitCli, next));
    assert Steps(Machine(QuitApp, next), 2) == Some(Machine(DeinitApp, next));
  }

  /**
   * The application state the main loop and the command lines share: the
   * two globals `main_app_state` and `main_app_state_next`.
   */
  class App {
    var state: int
    var next: int

    /** The state `main` sets up before entering its loop. */
    constructor ()
      ensures state == StartApp && next == NoChangeState
    {
      state := StartApp;
      next := NoChangeState;
    }

    function Current(): Machine
      reads this
    {
      Machine(state, next)
    }

    /** One pass of the main loop's switch; returns false when CLOSE_APP ends the program. */
    method Step() returns (running: bool)
      modifies this
      ensures running <==> Transition(old(Current())).Some?
      ensures running ==> Some(Current()) == Transition(old(Current()))
      ensures !running ==> Current() == old(Current())
    {
      if state == StartApp {
        state := InitCli;
      } else if state == InitCli {
        state := AppIdle;
      } else if state == AppIdle {
        state := AppIdle;
        if next != NoChangeState {
          state := next;
          next := NoChangeState;
        }
      } else if state == QuitApp {
        state := DeinitCli;
      } else if state == DeinitCli {
        state := DeinitApp;
      } else if state == DeinitApp {
        state := CloseApp;
      } else if state == CloseApp {
        return false;
      } else {
        state := AppIdle;
      }
      return true;
    }

    /**
     * The main loop, run for at most `fuel` passes; returns whether the
     * program ended within them.
     */
    method Run(fuel: nat) returns (ended: bool)
      modifies this
      ensures ended <==> Steps(old(Current()), fuel).None?
      ensures !ended ==> Some(Current()) == Steps(old(Current()), fuel)
      ensures ended ==> state == CloseApp
    {
      ghost var m := Current();
      var i := 0;
      while i < fuel
        invariant i <= fuel && Steps(m, i) == Some(Current())
      {
        var running := Step();
        if !running {
          EndedStaysEnded(m, i + 1, fuel);
          return true;
        }
        i := i + 1;
      }
      return false;
    }

    /** `_cli_set_machine_state`: requests a phase; the current one is not touched. */
    method SetMachineState(s: int)
      modifies this
      ensures next == s && state == old(state)
    {
      next := s;
    }

    /** `cli_quit_application`: requests the quit phase. */
    method QuitApplication()
      modifies this
      ensures next == QuitApp && state == old(state)
    {
      SetMachineState(QuitApp);
    }
  }
}
