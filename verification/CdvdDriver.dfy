/** The globals updated in place by the lock routines and the init callback. */
module CdvdDriver {
  import opened CdvdState

  class Driver {
    var n: bool
    var s: bool
    var counter: nat
    var boundN: bool
    var boundS: bool
    var boundReady: bool
    var errs: nat

    ghost function View(): Globals
      reads this
    {
      Globals(n, s, counter, boundN, boundS, boundReady, errs)
    }

    constructor ()
      ensures View() == Globals(false, false, 0, false, false, false, 0)
    {
      n, s, counter, boundN, boundS, boundReady, errs := false, false, 0, false, false, false, 0;
    }

    method SbiosTryLock(l: Lock) returns (r: int)
      modifies this`n, this`s
      ensures (View(), r) == TryLock(old(View()), l)
      ensures r == if old(Locked(View(), l)) then -2 else 0
    {
      match l
      case LockN =>
        if n { return -2; } else { n := true; return 0; }
      case LockS =>
        if s { return -2; } else { s := true; return 0; }
    }

    method SbiosUnlock(l: Lock)
      modifies this`n, this`s, this`errs
      ensures View() == Unlock(old(View()), l)
    {
      match l
      case LockN =>
        if n { n := false; } else { errs := errs + 1; }
      case LockS =>
        if s { s := false; } else { errs := errs + 1; }
    }

    /** cdvdLockN and cdvdLockS: 0 when the lock was taken and no request of the client is pending. */
    method CdvdLock(l: Lock, pending: bool) returns (r: int)
      modifies this`n, this`s, this`errs
      ensures r == 0 <==> !old(Locked(View(), l)) && !pending
      ensures View() == if r == 0 then SetLock(old(View()), l, true) else old(View())
    {
      var busy := SbiosTryLock(l);
      if busy != 0 {
        return 1;
      }
      if pending {
        SbiosUnlock(l);
        return 1;
      }
      return 0;
    }

    /** cdCheckNCmd and cdCheckSCmd: 1 and the lock held, or 0 and nothing changed. */
    method CdCheckCmd(c: Command, pending: bool) returns (r: int)
      modifies this`n, this`s, this`errs
      ensures r == 1 <==> !old(Locked(View(), LockOf(c))) && !pending && old(Bound(View(), c))
      ensures r == 0 || r == 1
      ensures View() == if r == 1 then SetLock(old(View()), LockOf(c), true) else old(View())
    {
      var l := LockOf(c);
      var busy := CdvdLock(l, pending);
      if busy != 0 {
        return 0;
      }
      var bound := match c
        case DiskReady => boundReady
        case NCmd(_) => boundN
        case SCmd(_) => boundS
        case _ => true;
      if bound {
        return 1;
      }
      SbiosUnlock(l);
      return 0;
    }

    /** cdvdInitCallback, before the end function is called. */
    method CdvdInitCallback(bound: bool)
      modifies this
      ensures View() == if old(counter) <= 5
                        then Unlock(InitCallback(old(View()), bound), CallbackLock(old(counter)))
                        else old(View())
    {
      match counter
      case 0 =>
        if bound { counter := counter + 1; }
        SbiosUnlock(LockS);
      case 1 =>
        if bound { counter := counter + 1; }
        SbiosUnlock(LockS);
      case 2 =>
        if bound { boundReady := true; counter := counter + 1; }
        SbiosUnlock(LockS);
      case 3 =>
        counter := counter + 1;
        SbiosUnlock(LockS);
      case 4 =>
        if bound { boundN := true; counter := counter + 1; }
        SbiosUnlock(LockN);
      case 5 =>
        if bound { boundS := true; counter := counter + 1; }
        SbiosUnlock(LockS);
      case _ =>
    }
  }
}
