/**
 One lock file as the kernel sees it, and every process that may lock it.

 The path names at most one inode. An open file description owns the flock, not
 a descriptor: `held` says whether the opener's descriptor is still open and
 `copies` counts the descriptors mid-spawn children inherited. A description
 disappears, and its lock with it, when the last of these closes. An inode
 number may be used again as soon as neither the path nor a description uses it.
 */
module FlockKernel {
  import opened Common

  datatype Ofd = Ofd(ino: nat, locked: bool, held: bool, copies: nat)

  /** Where one process stands in open, lock, check the name, unlink, release. */
  datatype Phase =
    | Idle
    | Opened(ofd: nat)
    | Locked(ofd: nat)     // a FileLock exists, its name not yet checked
    | Named(ofd: nat)      // still_names answered true
    | Unlinking(ofd: nat)  // remove's own name check answered true
    | Unlinked(ofd: nat)
    | Released(ofd: nat)   // unlocked, the descriptor still open

  datatype World = World(path: Option<nat>, ofds: map<nat, Ofd>, procs: map<nat, Phase>)
  {
    function At(pid: nat): Phase {
      if pid in procs then procs[pid] else Idle
    }

    function Put(pid: nat, phase: Phase): World {
      this.(procs := procs[pid := phase])
    }

    /** Some description other than `o` holds a lock on `o`'s inode. */
    predicate Contended(o: nat)
      requires o in ofds
    {
      exists x :: x in ofds && x != o && ofds[x].locked && ofds[x].ino == ofds[o].ino
    }

    function SetLocked(o: nat, locked: bool): World
      requires o in ofds
    {
      this.(ofds := ofds[o := ofds[o].(locked := locked)])
    }

    function CloseOwn(o: nat): World
      requires o in ofds
    {
      if ofds[o].copies == 0 then this.(ofds := ofds - {o})
      else this.(ofds := ofds[o := ofds[o].(held := false)])
    }

    function CloseCopy(o: nat): World
      requires o in ofds && ofds[o].copies > 0
    {
      if ofds[o].copies == 1 && !ofds[o].held then this.(ofds := ofds - {o})
      else this.(ofds := ofds[o := ofds[o].(copies := ofds[o].copies - 1)])
    }

    predicate Names(o: nat)
      requires o in ofds
    {
      path == Some(ofds[o].ino)
    }
  }

  datatype Action =
    | Open(pid: nat, ofd: nat, ino: nat)  // open or create; ofd and ino are the kernel's choices
    | TryLock(pid: nat)
    | CheckName(pid: nat)
    | CheckBeforeRemove(pid: nat)
    | Unlink(pid: nat)
    | Unlock(pid: nat)
    | Close(pid: nat)
    | Fork(pid: nat)                      // a child being spawned copies pid's descriptor
    | Exec(ofd: nat)                      // one inherited copy closes
    | Die(pid: nat)                       // pid's descriptor closes without an unlock

  predicate HasGuard(p: Phase) {
    p.Locked? || p.Named? || p.Unlinking? || p.Unlinked?
  }

  /** Between a successful name check and the holder's own unlink or unlock. */
  predicate Critical(p: Phase) {
    p.Named? || p.Unlinking?
  }

  /** One kernel-visible step. A step the caller is not ready for changes nothing. */
  function Step(w: World, a: Action): World {
    match a
    case Open(pid, ofd, ino) =>
      if !w.At(pid).Idle? || ofd in w.ofds then w
      else if w.path.Some? then
        w.(ofds := w.ofds[ofd := Ofd(w.path.value, false, true, 0)]).Put(pid, Opened(ofd))
      else if exists o :: o in w.ofds && w.ofds[o].ino == ino then w
      else
        w.(path := Some(ino), ofds := w.ofds[ofd := Ofd(ino, false, true, 0)]).Put(pid, Opened(ofd))
    case TryLock(pid) =>
      var p := w.At(pid);
      if p.Opened? && p.ofd in w.ofds && !w.Contended(p.ofd)
      then w.SetLocked(p.ofd, true).Put(pid, Locked(p.ofd)) else w
    case CheckName(pid) =>
      var p := w.At(pid);
      if p.Locked? && p.ofd in w.ofds && w.Names(p.ofd) then w.Put(pid, Named(p.ofd)) else w
    case CheckBeforeRemove(pid) =>
      var p := w.At(pid);
      if (p.Locked? || p.Named?) && p.ofd in w.ofds && w.Names(p.ofd)
      then w.Put(pid, Unlinking(p.ofd)) else w
    case Unlink(pid) =>
      var p := w.At(pid);
      if p.Unlinking? then w.(path := None).Put(pid, Unlinked(p.ofd)) else w
    case Unlock(pid) =>
      var p := w.At(pid);
      if HasGuard(p) && p.ofd in w.ofds then w.SetLocked(p.ofd, false).Put(pid, Released(p.ofd)) else w
    case Close(pid) =>
      var p := w.At(pid);
      if (p.Opened? || p.Released?) && p.ofd in w.ofds then w.CloseOwn(p.ofd).Put(pid, Idle) else w
    case Fork(pid) =>
      var p := w.At(pid);
      if !p.Idle? && p.ofd in w.ofds
      then w.(ofds := w.ofds[p.ofd := w.ofds[p.ofd].(copies := w.ofds[p.ofd].copies + 1)]) else w
    case Exec(o) =>
      if o in w.ofds && w.ofds[o].copies > 0 then w.CloseCopy(o) else w
    case Die(pid) =>
      var p := w.At(pid);
      if !p.Idle? && p.ofd in w.ofds then w.CloseOwn(p.ofd).Put(pid, Idle) else w
  }

  function Run(w: World, acts: seq<Action>): World
    decreases |acts|
  {
    if acts == [] then w else Run(Step(w, acts[0]), acts[1..])
  }

  /** A run takes its steps one after another. */
  lemma {:induction false} RunSnoc(w: World, acts: seq<Action>, a: Action)
    ensures Run(w, acts + [a]) == Step(Run(w, acts), a)
    decreases |acts|
  {
    if acts == [] {
      assert acts + [a] == [a] && [a][1..] == [];
    } else {
      assert (acts + [a])[0] == acts[0] && (acts + [a])[1..] == acts[1..] + [a];
      RunSnoc(Step(w, acts[0]), acts[1..], a);
    }
  }

  /** A lock file that may already exist, and nobody has it open. */
  predicate Init(w: World) {
    w.ofds == map[] && w.procs == map[]
  }

  // ---------------------------------------------------------------- invariant

  /** Every busy process has one live description of its own. */
  predicate Live(w: World) {
    forall p :: p in w.procs && !w.procs[p].Idle? ==> w.procs[p].ofd in w.ofds && w.ofds[w.procs[p].ofd].held
  }

  /** No two processes share a description. */
  predicate Unshared(w: World) {
    forall p, q :: p in w.procs && q in w.procs && p != q && !w.procs[p].Idle? && !w.procs[q].Idle? ==>
      w.procs[p].ofd != w.procs[q].ofd
  }

  /** A description lasts only as long as some descriptor refers to it. */
  predicate Referenced(w: World) {
    forall o :: o in w.ofds ==> w.ofds[o].held || w.ofds[o].copies > 0
  }

  predicate Ownership(w: World) {
    Live(w) && Unshared(w) && Referenced(w)
  }

  /** flock: at most one description per inode holds the exclusive lock. */
  predicate ExclusiveLocks(w: World) {
    forall x, y :: x in w.ofds && y in w.ofds && x != y && w.ofds[x].locked && w.ofds[y].locked ==>
      w.ofds[x].ino != w.ofds[y].ino
  }

  /** A guard's description is locked. */
  predicate GuardsLock(w: World) {
    forall p :: p in w.procs && HasGuard(w.procs[p]) && w.procs[p].ofd in w.ofds ==> w.ofds[w.procs[p].ofd].locked
  }

  /** Once a holder's name was checked, the path still names its file. */
  predicate NamesLast(w: World) {
    forall p :: p in w.procs && Critical(w.procs[p]) && w.procs[p].ofd in w.ofds ==> w.Names(w.procs[p].ofd)
  }

  predicate Inv(w: World) {
    Ownership(w) && ExclusiveLocks(w) && GuardsLock(w) && NamesLast(w)
  }

  /** Two processes past their name check would hold one inode's lock twice. */
  lemma CriticalIsExclusive(w: World, p: nat, q: nat)
    requires Inv(w)
    requires Critical(w.At(p)) && Critical(w.At(q))
    ensures p == q
  {
    assert w.Names(w.At(p).ofd) && w.Names(w.At(q).ofd);
  }

  lemma StepKeepsLive(w: World, a: Action)
    requires Live(w) && Unshared(w)
    ensures Live(Step(w, a))
  {}

  lemma StepKeepsUnshared(w: World, a: Action)
    requires Live(w) && Unshared(w)
    ensures Unshared(Step(w, a))
  {}

  lemma StepKeepsReferenced(w: World, a: Action)
    requires Referenced(w)
    ensures Referenced(Step(w, a))
  {}

  lemma StepKeepsExclusiveLocks(w: World, a: Action)
    requires ExclusiveLocks(w)
    ensures ExclusiveLocks(Step(w, a))
  {}

  lemma StepKeepsGuards(w: World, a: Action)
    requires Ownership(w) && GuardsLock(w)
    ensures GuardsLock(Step(w, a))
  {}

  lemma StepKeepsNames(w: World, a: Action)
    requires Inv(w)
    ensures NamesLast(Step(w, a))
  {
    if a.Unlink? {
      // Only a critical process unlinks, and nobody else is critical beside it.
      forall q | q in w.procs && q != a.pid && Critical(w.At(a.pid)) ensures !Critical(w.procs[q]) {
        if Critical(w.procs[q]) { CriticalIsExclusive(w, a.pid, q); }
      }
    }
  }

  lemma StepKeepsInv(w: World, a: Action)
    requires Inv(w)
    ensures Inv(Step(w, a))
  {
    StepKeepsLive(w, a);
    StepKeepsUnshared(w, a);
    StepKeepsReferenced(w, a);
    StepKeepsExclusiveLocks(w, a);
    StepKeepsGuards(w, a);
    StepKeepsNames(w, a);
  }

  lemma {:induction false} RunKeepsInv(w: World, acts: seq<Action>)
    requires Inv(w)
    ensures Inv(Run(w, acts))
    decreases |acts|
  {
    if acts != [] {
      StepKeepsInv(w, acts[0]);
      RunKeepsInv(Step(w, acts[0]), acts[1..]);
    }
  }

  // ---------------------------------------------------------------- theorems

  /**
   In every interleaving of any number of processes, at most one is between a
   successful name check and its own unlink or unlock, inode numbers being
   reused freely.
   */
  lemma MutualExclusion(w: World, acts: seq<Action>, p: nat, q: nat)
    requires Init(w)
    requires Run(w, acts).At(p).Named? || Run(w, acts).At(p).Unlinking?
    requires Run(w, acts).At(q).Named? || Run(w, acts).At(q).Unlinking?
    ensures p == q
    ensures var v := Run(w, acts); v.At(p).ofd in v.ofds && v.Names(v.At(p).ofd)
  {
    RunKeepsInv(w, acts);
    CriticalIsExclusive(Run(w, acts), p, q);
  }

  predicate SameInode(w: World, x: nat, y: nat) {
    x in w.ofds && y in w.ofds && w.ofds[x].ino == w.ofds[y].ino
  }

  /** A process that still has its guard holds description o. */
  predicate Guarded(w: World, o: nat) {
    exists p :: p in w.procs && HasGuard(w.procs[p]) && w.procs[p].ofd == o
  }

  /** Description o is locked although its opener has closed it: only inherited copies keep it. */
  predicate Orphaned(w: World, o: nat) {
    o in w.ofds && w.ofds[o].locked && !w.ofds[o].held && w.ofds[o].copies > 0
  }

  predicate LocksAccountedFor(w: World) {
    forall o :: o in w.ofds && w.ofds[o].locked ==> Guarded(w, o) || Orphaned(w, o)
  }

  lemma StepAccountsFor(w: World, a: Action, o: nat)
    requires Inv(w) && LocksAccountedFor(w) && o in Step(w, a).ofds && Step(w, a).ofds[o].locked
    ensures Guarded(Step(w, a), o) || Orphaned(Step(w, a), o)
  {
    var w' := Step(w, a);
    if o in w.ofds && w.ofds[o].locked {
      if Guarded(w, o) {
        var p :| p in w.procs && HasGuard(w.procs[p]) && w.procs[p].ofd == o;
        StepKeepsOneGuard(w, a, p);
      }
    } else {
      assert a.TryLock? && HasGuard(w'.procs[a.pid]) && w'.procs[a.pid].ofd == o;
    }
  }

  /** A guard whose description stays locked stays, unless its process dies. */
  lemma StepKeepsOneGuard(w: World, a: Action, p: nat)
    requires Ownership(w) && p in w.procs && HasGuard(w.procs[p])
    requires w.procs[p].ofd in Step(w, a).ofds && Step(w, a).ofds[w.procs[p].ofd].locked
    ensures Orphaned(Step(w, a), w.procs[p].ofd) || Guarded(Step(w, a), w.procs[p].ofd)
  {
    var w' := Step(w, a);
    if a != Die(p) { assert p in w'.procs && HasGuard(w'.procs[p]) && w'.procs[p].ofd == w.procs[p].ofd; }
  }

  lemma {:induction false} RunAccountsForLocks(w: World, acts: seq<Action>)
    requires Inv(w) && LocksAccountedFor(w)
    ensures LocksAccountedFor(Run(w, acts))
    decreases |acts|
  {
    if acts != [] {
      var w' := Step(w, acts[0]);
      StepKeepsInv(w, acts[0]);
      forall o | o in w'.ofds && w'.ofds[o].locked ensures Guarded(w', o) || Orphaned(w', o) {
        StepAccountsFor(w, acts[0], o);
      }
      RunAccountsForLocks(w', acts[1..]);
    }
  }

  /**
   Only a process that dies with its guard, while a child still has a copy of the
   descriptor, orphans a lock: dropping a guard, which unlocks first, never does.
   */
  lemma OnlyADeathOrphans(w: World, a: Action, o: nat)
    requires Inv(w) && LocksAccountedFor(w)
    ensures !Orphaned(w, o) && Orphaned(Step(w, a), o) <==>
      a.Die? && HasGuard(w.At(a.pid)) && w.At(a.pid).ofd == o && w.ofds[o].copies > 0
  {}

  /** A live guard of another process holds pid's inode, or an orphaned lock does. */
  ghost predicate HeldElsewhere(w: World, pid: nat)
    requires w.At(pid).Opened?
  {
    || (exists q :: q in w.procs && q != pid && HasGuard(w.procs[q]) && SameInode(w, w.procs[q].ofd, w.At(pid).ofd))
    || exists o :: Orphaned(w, o) && SameInode(w, o, w.At(pid).ofd)
  }

  /**
   In every run, deaths included, a try_lock is refused exactly when another live
   guard holds that inode or a lock on it was orphaned, however many mid-spawn
   children hold copies of released descriptors.
   */
  lemma RefusedOnlyByALiveGuard(w: World, acts: seq<Action>, pid: nat)
    requires Init(w) && Run(w, acts).At(pid).Opened?
    ensures !Step(Run(w, acts), TryLock(pid)).At(pid).Locked? <==> HeldElsewhere(Run(w, acts), pid)
  {
    RunKeepsInv(w, acts);
    RunAccountsForLocks(w, acts);
    RefusedHere(Run(w, acts), pid);
  }

  lemma RefusedHere(w: World, pid: nat)
    requires Inv(w) && LocksAccountedFor(w) && w.At(pid).Opened?
    ensures !Step(w, TryLock(pid)).At(pid).Locked? <==> HeldElsewhere(w, pid)
  {
    var o := w.At(pid).ofd;
    if w.Contended(o) {
      var x :| x in w.ofds && x != o && w.ofds[x].locked && w.ofds[x].ino == w.ofds[o].ino;
      if Guarded(w, x) {
        var q :| q in w.procs && HasGuard(w.procs[q]) && w.procs[q].ofd == x;
        assert q != pid;
      }
    }
  }

  /** A process takes the lock, starts spawning a child, and its descriptor closes without an unlock. */
  function LockForkDie(w: World): World {
    Step(Step(Step(Step(w, Open(1, 10, 0)), TryLock(1)), Fork(1)), Die(1))
  }

  lemma LockForkDieIs()
    ensures LockForkDie(World(Some(7), map[], map[]))
         == World(Some(7), map[10 := Ofd(7, true, false, 1)], map[1 := Idle])
  {
    var open := Step(World(Some(7), map[], map[]), Open(1, 10, 0));
    assert open == World(Some(7), map[10 := Ofd(7, false, true, 0)], map[1 := Opened(10)]);
    var locked := Step(open, TryLock(1));
    assert locked == World(Some(7), map[10 := Ofd(7, true, true, 0)], map[1 := Locked(10)]);
    var forked := Step(locked, Fork(1));
    assert forked == World(Some(7), map[10 := Ofd(7, true, true, 1)], map[1 := Locked(10)]);
  }

  /** Closing without unlocking is not enough: no guard is left, and yet the next process is refused. */
  lemma ClosingAloneLeavesTheLockHeld()
    ensures var v := Step(LockForkDie(World(Some(7), map[], map[])), Open(2, 11, 0));
      && v.At(2).Opened? && !Step(v, TryLock(2)).At(2).Locked? && Orphaned(v, 10)
      && forall q :: q in v.procs ==> !HasGuard(v.procs[q])
  {
    LockForkDieIs();
    var dead := World(Some(7), map[10 := Ofd(7, true, false, 1)], map[1 := Idle]);
    var v := Step(dead, Open(2, 11, 0));
    assert v.ofds[10].locked && v.Contended(11);
  }

  /** An orphaned lock lasts until the last child has closed its copy, and no longer. */
  lemma {:induction false} OrphanLastsAsLongAsItsCopies(w: World, o: nat, n: nat)
    requires Orphaned(w, o) && n <= w.ofds[o].copies
    ensures var v := Run(w, seq(n, _ => Exec(o)));
      && v.path == w.path && v.procs == w.procs
      && v.ofds == if n == w.ofds[o].copies then w.ofds - {o}
                   else w.ofds[o := Ofd(w.ofds[o].ino, true, false, w.ofds[o].copies - n)]
  {
    var acts := seq(n, _ => Exec(o));
    if n > 0 {
      OrphanLastsAsLongAsItsCopies(w, o, n - 1);
      assert acts == seq(n - 1, _ => Exec(o)) + [Exec(o)];
      RunSnoc(w, seq(n - 1, _ => Exec(o)), Exec(o));
    }
  }
}
