/**
 What the coordinator learns from the operating system about the two workers
 it spawns for the halves of a range, and how it classifies a joined worker.

 Forking, waiting and allocating are not modelled as system calls. Instead
 every coordinator call above the threshold is handed the answers the system
 gives it, as a tree `Env` that follows the recursion: the root holds the
 answers for the call itself, the two subtrees those for its left and right
 halves. `Healthy` stands for a subtree in which every fork, waitpid and
 allocation succeeds and every worker exits normally.
 */
module Workers {

  /** Why a coordinator call failed. */
  datatype Error =
    | LaunchFailed      // fork() returned -1
    | WaitFailed        // waitpid() returned -1
    | AbnormalExit      // the worker was signalled or crashed (!WIFEXITED)
    | NonZeroExit       // the worker exited with a status other than 0
    | ScratchFailed     // malloc() of the scratch buffer returned NULL

  /** The result a coordinator call reports to its caller. */
  datatype Outcome = Done | Failed(error: Error)

  /** How a spawned worker ended, as seen by waitpid on it. */
  datatype ChildEnd =
    | Exited    // waitpid succeeded and the worker called exit()
    | Killed    // waitpid succeeded but the worker did not exit normally
    | Lost      // waitpid itself failed

  /** The system's answers to the calls one coordinator invocation makes. */
  datatype Sys = Sys(
    forkLeft: bool,       // the fork for the left half succeeds
    forkRight: bool,      // the fork for the right half succeeds
    endLeft: ChildEnd,    // how the left worker is reaped
    endRight: ChildEnd,   // how the right worker is reaped
    scratch: bool         // the scratch allocation succeeds
  )

  /** The answers of a system in which nothing goes wrong. */
  const Reliable := Sys(true, true, Exited, Exited, true)

  /** Every call answered by `sys` succeeds and both workers exit normally. */
  predicate AllSucceed(sys: Sys) {
    sys.forkLeft && sys.forkRight && sys.endLeft.Exited? && sys.endRight.Exited? && sys.scratch
  }

  /** System answers for a whole recursion tree. */
  datatype Env = Healthy | Node(sys: Sys, left: Env, right: Env)

  function SysAt(env: Env): Sys {
    if env.Healthy? then Reliable else env.sys
  }

  function LeftEnv(env: Env): Env {
    if env.Healthy? then Healthy else env.left
  }

  function RightEnv(env: Env): Env {
    if env.Healthy? then Healthy else env.right
  }

  /**
   The status a worker passes to exit() after running the coordinator on its
   half: 0 exactly when its own call succeeded, so that failure travels up
   through every ancestor.
   */
  function ExitCode(o: Outcome): (status: nat)
    ensures status == 0 <==> o.Done?
  {
    if o.Done? then 0 else 1
  }

  /**
   Classification of a joined worker: success only when waitpid succeeded,
   the worker exited normally and its exit status is 0; otherwise the error
   names the first of these checks that failed.
   */
  function Classify(end: ChildEnd, status: nat): (o: Outcome)
    ensures o.Done? <==> end.Exited? && status == 0
    ensures end.Lost? ==> o == Failed(WaitFailed)
    ensures end.Killed? ==> o == Failed(AbnormalExit)
    ensures end.Exited? && status != 0 ==> o == Failed(NonZeroExit)
  {
    match end
    case Lost => Failed(WaitFailed)
    case Killed => Failed(AbnormalExit)
    case Exited => if status != 0 then Failed(NonZeroExit) else Done
  }

  /** A joined worker counts as a success exactly when it succeeded and was reaped normally. */
  lemma JoinSucceedsIffWorkerSucceeded(end: ChildEnd, o: Outcome)
    ensures Classify(end, ExitCode(o)).Done? <==> end.Exited? && o.Done?
  {
  }
}
