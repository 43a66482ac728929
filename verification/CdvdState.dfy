/**
  CD/DVD calls over the RPC layer: two command locks, a staged initialisation, and callbacks
  that run when the IOP answers.  Every call and every callback advances one statement group
  at a time, in any interleaving.
 */
module CdvdState {

  datatype Lock = LockN | LockS

  /** The RPC clients of cdvd.c, ncmd.c and scmd.c. */
  datatype Name = ClientInit | ClientSearchFile | ClientDiskReady | ClientNCmd | ClientSCmd

  datatype NKind = Read | ReadVideo | GetToc | Stop
  datatype SKind = ReadRtc | WriteRtc | GetType | GetError | TrayRequest | Mmode

  datatype Command =
    | Init(stage: nat)
    | Reset
    | DiskReady
    | NCmd(n: NKind)
    | SCmd(k: SKind)

  /** The globals: both mutexes, cdvdInitCounter, the bind variables that guard commands (true
      when not negative), and the number of "mutex err" messages of sbios_unlock. */
  datatype Globals = Globals(n: bool, s: bool, counter: nat, boundN: bool, boundS: bool, boundReady: bool, errs: nat)

  function Locked(g: Globals, l: Lock): bool {
    if l == LockN then g.n else g.s
  }

  function SetLock(g: Globals, l: Lock, v: bool): Globals {
    if l == LockN then g.(n := v) else g.(s := v)
  }

  /** sbios_tryLock on a valid mutex: 0 when taken, -2 when it was locked. */
  function TryLock(g: Globals, l: Lock): (Globals, int) {
    if Locked(g, l) then (g, -2) else (SetLock(g, l, true), 0)
  }

  /** sbios_unlock */
  function Unlock(g: Globals, l: Lock): Globals {
    if Locked(g, l) then SetLock(g, l, false) else g.(errs := g.errs + 1)
  }

  /** The lock that sbcall_cdvdinit takes at a stage; its callback releases by the same table. */
  function StageLock(stage: nat): Lock {
    if stage == 4 then LockN else LockS
  }

  function StageClient(stage: nat): Name {
    match stage
    case 0 => ClientInit
    case 1 => ClientSearchFile
    case 2 => ClientDiskReady
    case 3 => ClientInit
    case 4 => ClientNCmd
    case _ => ClientSCmd
  }

  /** Stage 0 forgets all bindings before it binds the first client. */
  function Forget(g: Globals, stage: nat): Globals {
    if stage == 0 then g.(boundN := false, boundS := false, boundReady := false) else g
  }

  /** cdvdInitCallback up to its unlock; `bound` says whether the client of the stage has a server. */
  function InitCallback(g: Globals, bound: bool): Globals {
    match g.counter
    case 0 => if bound then g.(counter := 1) else g
    case 1 => if bound then g.(counter := 2) else g
    case 2 => if bound then g.(counter := 3, boundReady := true) else g
    case 3 => g.(counter := 4)
    case 4 => if bound then g.(counter := 5, boundN := true) else g
    case 5 => if bound then g.(counter := 6, boundS := true) else g
    case _ => g
  }

  /** The lock cdvdInitCallback releases, from the stage it finds; none once all stages are done. */
  function CallbackLock(counter: nat): Lock
    requires counter <= 5
  {
    StageLock(counter)
  }

  function LockOf(c: Command): Lock {
    match c
    case Init(k) => StageLock(k)
    case Reset => LockS
    case DiskReady => LockS
    case NCmd(_) => LockN
    case SCmd(_) => LockS
  }

  function ClientOf(c: Command): Name {
    match c
    case Init(k) => StageClient(k)
    case Reset => ClientInit
    case DiskReady => ClientDiskReady
    case NCmd(_) => ClientNCmd
    case SCmd(_) => ClientSCmd
  }

  /** Commands whose data goes through the buffers behind their lock: command number, send buffer
      and receive buffer, or the disk ready mode. */
  predicate UsesBuffers(c: Command) {
    c.NCmd? || c.SCmd? || c.DiskReady?
  }

  predicate Binds(c: Command) {
    c.Init? && c.stage != 3
  }

  /** The client whose pending request makes cdvdLockN or cdvdLockS back off. */
  function StatClient(l: Lock): Name {
    if l == LockN then ClientNCmd else ClientSCmd
  }

  predicate Bound(g: Globals, c: Command) {
    match c
    case DiskReady => g.boundReady
    case NCmd(_) => g.boundN
    case SCmd(_) => g.boundS
    case _ => true
  }
}
