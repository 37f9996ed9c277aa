/**
 `FileLock` and its callers, run by one process while every other process takes
 its own steps in between. What the others do is an argument: a sequence of
 actions for each point at which the calling process can be overtaken.
 */
module FileLocking {
  import opened Common
  import opened FlockKernel

  /** Nothing in `acts` is done by `pid` itself. */
  predicate Others(pid: nat, acts: seq<Action>) {
    forall a :: a in acts ==> a.Exec? || a.pid != pid
  }

  predicate AllOthers(pid: nat, turns: seq<seq<Action>>) {
    forall t :: t in turns ==> Others(pid, t)
  }

  /** The world before the k-th poll, `turns[k]` being what happens after it. */
  function After(w: World, turns: seq<seq<Action>>, k: nat): World
    requires k <= |turns|
  {
    if k == 0 then w else Run(After(w, turns, k - 1), turns[k - 1])
  }

  function Joined(turns: seq<seq<Action>>): seq<Action> {
    if turns == [] then [] else Joined(turns[..|turns| - 1]) + turns[|turns| - 1]
  }

  lemma {:induction false} RunJoin(w: World, a: seq<Action>, b: seq<Action>)
    ensures Run(w, a + b) == Run(Run(w, a), b)
    decreases |a|
  {
    if a == [] {
      assert a + b == b;
    } else {
      assert (a + b)[0] == a[0] && (a + b)[1..] == a[1..] + b;
      RunJoin(Step(w, a[0]), a[1..], b);
    }
  }

  /** The polls see everything the others did before them, in order. */
  lemma {:induction false} AfterIs(w: World, turns: seq<seq<Action>>, k: nat)
    requires k <= |turns|
    ensures After(w, turns, k) == Run(w, Joined(turns[..k]))
  {
    if k > 0 {
      AfterIs(w, turns, k - 1);
      assert turns[..k][..k - 1] == turns[..k - 1];
      RunJoin(w, Joined(turns[..k - 1]), turns[k - 1]);
    }
  }

  /** Other processes move neither `pid` nor the description it owns. */
  predicate Undisturbed(w: World, w': World, pid: nat) {
    && w'.At(pid) == w.At(pid)
    && (!w.At(pid).Idle? ==>
          var o := w.At(pid).ofd;
          o in w.ofds && o in w'.ofds && w'.ofds[o].(copies := 0) == w.ofds[o].(copies := 0))
  }

  lemma OtherStepKeepsMine(w: World, a: Action, pid: nat)
    requires Inv(w) && (a.Exec? || a.pid != pid)
    ensures Undisturbed(w, Step(w, a), pid)
  {}

  lemma {:induction false} OthersKeepMine(w: World, acts: seq<Action>, pid: nat)
    requires Inv(w) && Others(pid, acts)
    ensures Inv(Run(w, acts)) && Undisturbed(w, Run(w, acts), pid)
    decreases |acts|
  {
    if acts != [] {
      OtherStepKeepsMine(w, acts[0], pid);
      StepKeepsInv(w, acts[0]);
      OthersKeepMine(Step(w, acts[0]), acts[1..], pid);
    }
  }

  lemma {:induction false} AfterKeepsMine(w: World, turns: seq<seq<Action>>, k: nat, pid: nat)
    requires Inv(w) && AllOthers(pid, turns) && k <= |turns|
    ensures Inv(After(w, turns, k)) && Undisturbed(w, After(w, turns, k), pid)
  {
    if k > 0 {
      AfterKeepsMine(w, turns, k - 1, pid);
      OthersKeepMine(After(w, turns, k - 1), turns[k - 1], pid);
    }
  }

  lemma PollsKeepMine(w: World, turns: seq<seq<Action>>, pid: nat)
    requires Inv(w) && AllOthers(pid, turns) && !w.At(pid).Idle?
    ensures forall k :: 0 <= k <= |turns| ==> w.At(pid).ofd in After(w, turns, k).ofds
  {
    forall k: nat | k <= |turns| ensures w.At(pid).ofd in After(w, turns, k).ofds { AfterKeepsMine(w, turns, k, pid); }
  }

  /**
   A stale lock stays stale: while a process keeps its description open, a path
   that stopped naming that file never names it again, since its inode number
   cannot be handed out. So a false still_names is final.
   */
  lemma {:induction false} StaleIsForever(w: World, acts: seq<Action>, pid: nat)
    requires Inv(w) && Others(pid, acts) && !w.At(pid).Idle? && !w.Names(w.At(pid).ofd)
    ensures w.At(pid).ofd in Run(w, acts).ofds && !Run(w, acts).Names(w.At(pid).ofd)
    decreases |acts|
  {
    if acts != [] {
      OtherStepKeepsMine(w, acts[0], pid);
      StepKeepsInv(w, acts[0]);
      StaleIsForever(Step(w, acts[0]), acts[1..], pid);
    }
  }

  /** The world when remove unlinks, its name check having come before `acts`. */
  function AtUnlink(w: World, pid: nat, acts: seq<Action>): World {
    Run(Step(w, CheckBeforeRemove(pid)), acts)
  }

  function AfterUnlink(w: World, pid: nat, unlinkFails: bool, acts: seq<Action>): World {
    if unlinkFails then AtUnlink(w, pid, acts) else Step(AtUnlink(w, pid, acts), Unlink(pid))
  }

  /** A remove that nobody overtakes leaves no name, or the one there was if the unlink fails. */
  lemma UnlinkLeaves(w: World, pid: nat, unlinkFails: bool)
    requires (w.At(pid).Locked? || w.At(pid).Named?) && w.At(pid).ofd in w.ofds
    ensures AfterUnlink(w, pid, unlinkFails, []).path ==
      if !unlinkFails && w.path == Some(w.ofds[w.At(pid).ofd].ino) then None else w.path
  {}

  function AfterRelease(w: World, pid: nat, between: seq<Action>): World {
    Step(Run(Step(w, Unlock(pid)), between), Close(pid))
  }

  lemma StaleThroughRelease(w: World, pid: nat, between: seq<Action>)
    requires Inv(w) && HasGuard(w.At(pid)) && Others(pid, between) && !w.Names(w.At(pid).ofd)
    ensures AfterRelease(w, pid, between).path != Some(w.ofds[w.At(pid).ofd].ino)
  {
    StepKeepsInv(w, Unlock(pid));
    OthersKeepMine(Step(w, Unlock(pid)), between, pid);
    StaleIsForever(Step(w, Unlock(pid)), between, pid);
  }

  /**
   One round of a claim: the kernel's choices for the open, whether the opened
   file is a regular one private to its user, and what the others do in between.
   */
  datatype Round = Round(
    ofd: nat, ino: nat, beforeValidation: seq<Action>, isPrivate: bool,
    turns: seq<seq<Action>>, beforeCheck: seq<Action>, afterCheck: seq<Action>)
  {
    predicate LeavesTo(pid: nat) {
      Others(pid, beforeValidation) && AllOthers(pid, turns) && Others(pid, beforeCheck) && Others(pid, afterCheck)
    }
  }

  datatype Claim = Claimed | Refused | Busy | GaveUp

  // ------------------------------------------------------------ what a round comes to

  /** The world when the round's opened file is validated. */
  function AtValidation(w: World, pid: nat, r: Round): World {
    Run(Step(w, Open(pid, r.ofd, r.ino)), r.beforeValidation)
  }

  /** The open worked, and validation finds a private file that the path names. */
  predicate Passes(v: World, pid: nat, r: Round) {
    v.At(pid).Opened? && v.At(pid).ofd in v.ofds && r.isPrivate && v.Names(v.At(pid).ofd)
  }

  /** The k-th poll for o, the last being the one after the deadline, meets nobody else's lock. */
  predicate FreeAt(v: World, turns: seq<seq<Action>>, o: nat, k: nat) {
    k <= |turns| && o in After(v, turns, k).ofds && !After(v, turns, k).Contended(o)
  }

  /** The k-th poll is the first such one, and so the one that takes the lock. */
  predicate TakenAt(v: World, turns: seq<seq<Action>>, o: nat, k: nat) {
    FreeAt(v, turns, o, k) && forall j: nat :: j < k ==> !FreeAt(v, turns, o, j)
  }

  /** The world when the name is checked, the k-th poll having taken the lock. */
  function AtCheck(v: World, pid: nat, r: Round, k: nat): World
    requires k <= |r.turns|
  {
    Run(Step(After(v, r.turns, k), TryLock(pid)), r.beforeCheck)
  }

  /** The k-th poll takes the lock, and when the name is checked the path names the file, or does not. */
  predicate EndsAt(v: World, pid: nat, r: Round, k: nat, named: bool) {
    && v.At(pid).Opened? && TakenAt(v, r.turns, v.At(pid).ofd, k)
    && var c := AtCheck(v, pid, r, k);
    v.At(pid).ofd in c.ofds && (c.Names(v.At(pid).ofd) <==> named)
  }

  /** How a round ends, told from the world it starts in and from what the others do. */
  ghost predicate RoundIs(w: World, pid: nat, r: Round, claim: Claim) {
    var v := AtValidation(w, pid, r);
    match claim
    case Claimed => Passes(v, pid, r) && exists k: nat :: EndsAt(v, pid, r, k, true)
    case GaveUp => Passes(v, pid, r) && exists k: nat :: EndsAt(v, pid, r, k, false)
    case Refused => v.At(pid).Opened? && !Passes(v, pid, r)
    case Busy =>
      || !v.At(pid).Opened?
      || (Passes(v, pid, r) && forall k: nat :: !FreeAt(v, r.turns, v.At(pid).ofd, k))
  }

  /** No round ends in two ways. */
  lemma OneEnding(w: World, pid: nat, r: Round, a: Claim, b: Claim)
    requires RoundIs(w, pid, r, a) && RoundIs(w, pid, r, b)
    ensures a == b
  {
    var v := AtValidation(w, pid, r);
    forall j: nat, k: nat | EndsAt(v, pid, r, j, true) ensures !EndsAt(v, pid, r, k, false) {
      NotBoth(v, pid, r, j, k);
    }
  }

  lemma NotBoth(v: World, pid: nat, r: Round, j: nat, k: nat)
    requires EndsAt(v, pid, r, j, true)
    ensures !EndsAt(v, pid, r, k, false)
  {
    if TakenAt(v, r.turns, v.At(pid).ofd, k) { OneTaken(v, r.turns, v.At(pid).ofd, j, k); }
  }

  lemma OneTaken(v: World, turns: seq<seq<Action>>, o: nat, j: nat, k: nat)
    requires TakenAt(v, turns, o, j) && TakenAt(v, turns, o, k)
    ensures j == k
  {}

  /** A round nobody interferes with, on a private file that nobody has locked, or on none at all, claims it. */
  lemma UncontendedRoundClaims(w: World, pid: nat, r: Round)
    requires w.At(pid).Idle? && r.ofd !in w.ofds && r.isPrivate
    requires r.beforeValidation == [] && r.beforeCheck == []
    requires forall o :: o in w.ofds ==>
      if w.path.Some? then w.ofds[o].ino == w.path.value ==> !w.ofds[o].locked else w.ofds[o].ino != r.ino
    ensures RoundIs(w, pid, r, Claimed)
  {
    var v := AtValidation(w, pid, r);
    assert v == Step(w, Open(pid, r.ofd, r.ino));
    assert v.At(pid) == Opened(r.ofd) && After(v, r.turns, 0) == v;
    assert TakenAt(v, r.turns, r.ofd, 0);
    assert EndsAt(v, pid, r, 0, true);
  }

  /** Validation refuses an opened file that is not private, and one that the path does not name any more. */
  lemma UnfitFileIsRefused(w: World, pid: nat, r: Round)
    requires var v := Run(Step(w, Open(pid, r.ofd, r.ino)), r.beforeValidation);
      && v.At(pid).Opened? && v.At(pid).ofd in v.ofds
      && (!r.isPrivate || v.path != Some(v.ofds[v.At(pid).ofd].ino))
    ensures RoundIs(w, pid, r, Refused)
  {}

  /** The world after a round that took the lock at poll k, lost the name, and let go. */
  function LetGo(v: World, pid: nat, r: Round, k: nat): World
    requires k <= |r.turns|
  {
    AfterRelease(Step(AtCheck(v, pid, r, k), CheckName(pid)), pid, r.afterCheck)
  }

  /** The world that follows a round: what is left after a lost name. */
  ghost function NextWorld(w: World, pid: nat, r: Round): World {
    var v := AtValidation(w, pid, r);
    if exists k: nat :: EndsAt(v, pid, r, k, false) then
      var k: nat :| EndsAt(v, pid, r, k, false);
      LetGo(v, pid, r, k)
    else w
  }

  /** How a route claim ends: by the first round that does not lose the name, or when the rounds are over. */
  ghost predicate RouteIs(w: World, pid: nat, rounds: seq<Round>, claim: Claim)
    decreases |rounds|
  {
    if rounds == [] then claim == GaveUp
    else if RoundIs(w, pid, rounds[0], GaveUp) then RouteIs(NextWorld(w, pid, rounds[0]), pid, rounds[1..], claim)
    else RoundIs(w, pid, rounds[0], claim)
  }

  /** However the later claim ends, so does the earlier one. */
  ghost predicate Leads(w: World, rounds: seq<Round>, pid: nat, w': World, rounds': seq<Round>) {
    forall claim :: RouteIs(w', pid, rounds', claim) ==> RouteIs(w, pid, rounds, claim)
  }

  lemma RouteGoesOn(w: World, rounds: seq<Round>, pid: nat, v: World, i: nat, claim: Claim)
    requires i < |rounds| && Leads(w, rounds, pid, v, rounds[i..]) && RoundIs(v, pid, rounds[i], claim)
    ensures claim != GaveUp ==> RouteIs(w, pid, rounds, claim)
    ensures claim == GaveUp ==> Leads(w, rounds, pid, NextWorld(v, pid, rounds[i]), rounds[i + 1..])
  {
    var rest := rounds[i..];
    assert rest[0] == rounds[i] && rest[1..] == rounds[i + 1..];
    if claim != GaveUp && RoundIs(v, pid, rest[0], GaveUp) { OneEnding(v, pid, rest[0], claim, GaveUp); }
    if claim != GaveUp { assert RouteIs(v, pid, rest, claim); }
    if claim == GaveUp {
      forall c | RouteIs(NextWorld(v, pid, rest[0]), pid, rest[1..], c) ensures RouteIs(w, pid, rounds, c) {
        assert RouteIs(v, pid, rest, c);
      }
    }
  }

  lemma RouteGivesUp(w: World, rounds: seq<Round>, pid: nat, v: World)
    requires Leads(w, rounds, pid, v, [])
    ensures RouteIs(w, pid, rounds, GaveUp)
  {
    assert RouteIs(v, pid, [], GaveUp);
  }

  /** No route claim ends in two ways. */
  lemma {:induction false} OneRouteEnding(w: World, pid: nat, rounds: seq<Round>, a: Claim, b: Claim)
    requires RouteIs(w, pid, rounds, a) && RouteIs(w, pid, rounds, b)
    ensures a == b
    decreases |rounds|
  {
    if rounds != [] {
      if RoundIs(w, pid, rounds[0], GaveUp) {
        OneRouteEnding(NextWorld(w, pid, rounds[0]), pid, rounds[1..], a, b);
      } else {
        OneEnding(w, pid, rounds[0], a, b);
      }
    }
  }

  /** The polls of lock_within decide whether, and when, the lock is taken. */
  lemma PollsDecide(v: World, turns: seq<seq<Action>>, o: nat, polls: nat, ok: bool)
    requires polls <= |turns| && (!ok ==> polls == |turns|)
    requires forall k :: 0 <= k <= |turns| ==> o in After(v, turns, k).ofds
    requires forall k :: 0 <= k < polls ==> After(v, turns, k).Contended(o)
    requires ok <==> !After(v, turns, polls).Contended(o)
    ensures ok ==> TakenAt(v, turns, o, polls)
    ensures !ok ==> forall k: nat :: !FreeAt(v, turns, o, k)
  {}

  lemma NextIs(w: World, pid: nat, r: Round, k: nat)
    requires EndsAt(AtValidation(w, pid, r), pid, r, k, false)
    ensures NextWorld(w, pid, r) == LetGo(AtValidation(w, pid, r), pid, r, k)
  {
    var v := AtValidation(w, pid, r);
    forall j: nat | EndsAt(v, pid, r, j, false) ensures j == k { OneTaken(v, r.turns, v.At(pid).ofd, j, k); }
  }

  lemma OnlyOneCritical(w: World, pid: nat)
    requires Inv(w) && Critical(w.At(pid))
    ensures forall q :: Critical(w.At(q)) ==> q == pid
  {
    forall q | Critical(w.At(q)) ensures q == pid { CriticalIsExclusive(w, pid, q); }
  }

  class Host {
    var world: World

    constructor (path: Option<nat>)
      ensures Init(world) && world.path == path && Inv(world)
    {
      world := World(path, map[], map[]);
    }

    /** FileLock::try_lock: a refused file is dropped, which closes it. */
    method TryLock(pid: nat) returns (ok: bool)
      requires Inv(world) && world.At(pid).Opened?
      modifies this
      ensures Inv(world)
      ensures ok <==> !old(world).Contended(old(world).At(pid).ofd)
      ensures world == Step(old(world), if ok then Action.TryLock(pid) else Action.Close(pid))
      ensures world.At(pid) == if ok then Locked(old(world).At(pid).ofd) else Idle
    {
      ok := !world.Contended(world.At(pid).ofd);
      var a := if ok then Action.TryLock(pid) else Action.Close(pid);
      StepKeepsInv(world, a);
      world := Step(world, a);
    }

    /**
     FileLock::lock_within: polls until the lock is free or the deadline, the
     end of `turns`, has passed. It gives up only when every poll, the last one
     after the deadline included, met another description's lock.
     */
    method LockWithin(pid: nat, turns: seq<seq<Action>>) returns (ok: bool, polls: nat)
      requires Inv(world) && world.At(pid).Opened? && AllOthers(pid, turns)
      modifies this
      ensures Inv(world)
      ensures polls <= |turns| && (!ok ==> polls == |turns|)
      ensures forall k :: 0 <= k <= |turns| ==> old(world).At(pid).ofd in After(old(world), turns, k).ofds
      ensures forall k :: 0 <= k < polls ==> After(old(world), turns, k).Contended(old(world).At(pid).ofd)
      ensures ok <==> !After(old(world), turns, polls).Contended(old(world).At(pid).ofd)
      ensures world == Step(After(old(world), turns, polls), if ok then Action.TryLock(pid) else Action.Close(pid))
      ensures world.At(pid) == if ok then Locked(old(world).At(pid).ofd) else Idle
    {
      ghost var start := world;
      PollsKeepMine(start, turns, pid);
      AfterKeepsMine(start, turns, 0, pid);
      polls := 0;
      while polls < |turns| && world.Contended(world.At(pid).ofd)
        invariant polls <= |turns|
        invariant world == After(start, turns, polls) && Inv(world) && world.At(pid) == start.At(pid)
        invariant forall k :: 0 <= k < polls ==> After(start, turns, k).Contended(start.At(pid).ofd)
      {
        world := Run(world, turns[polls]);
        polls := polls + 1;
        AfterKeepsMine(start, turns, polls, pid);
      }
      ok := TryLock(pid);
    }

    /** FileLock::still_names. */
    method StillNames(pid: nat) returns (named: bool)
      requires Inv(world) && world.At(pid).Locked?
      modifies this
      ensures Inv(world)
      ensures named <==> old(world).Names(old(world).At(pid).ofd)
      ensures world == Step(old(world), Action.CheckName(pid))
      ensures world.At(pid) == if named then Named(old(world).At(pid).ofd) else old(world).At(pid)
    {
      named := world.Names(world.At(pid).ofd);
      StepKeepsInv(world, Action.CheckName(pid));
      world := Step(world, Action.CheckName(pid));
    }

    /** Drop for FileLock: unlock, and only then close. */
    method Drop(pid: nat, between: seq<Action>)
      requires Inv(world) && HasGuard(world.At(pid)) && Others(pid, between)
      modifies this
      ensures Inv(world) && world.At(pid).Idle?
      ensures world == AfterRelease(old(world), pid, between)
      ensures var o := old(world).At(pid).ofd; o in world.ofds ==> !world.ofds[o].locked && !world.ofds[o].held
    {
      StepKeepsInv(world, Action.Unlock(pid));
      world := Step(world, Action.Unlock(pid));
      OthersKeepMine(world, between, pid);
      world := Run(world, between);
      StepKeepsInv(world, Action.Close(pid));
      world := Step(world, Action.Close(pid));
    }

    /** The first half of FileLock::remove: unlink the path if it still names this file. */
    method UnlinkIfNamed(pid: nat, unlinkFails: bool, beforeUnlink: seq<Action>) returns (removed: bool)
      requires Inv(world) && (world.At(pid).Locked? || world.At(pid).Named?) && Others(pid, beforeUnlink)
      modifies this
      ensures Inv(world) && HasGuard(world.At(pid)) && world.At(pid).ofd == old(world).At(pid).ofd
      ensures removed <==> old(world).Names(old(world).At(pid).ofd) && !unlinkFails
      ensures world == AfterUnlink(old(world), pid, unlinkFails, beforeUnlink)
      ensures removed ==>
        var v := AtUnlink(old(world), pid, beforeUnlink);
        var o := old(world).At(pid).ofd;
        o in v.ofds && v.Names(o) && world.path == None && world.ofds[o].ino == old(world).ofds[o].ino
    {
      removed := world.Names(world.At(pid).ofd) && !unlinkFails;
      StepKeepsInv(world, Action.CheckBeforeRemove(pid));
      world := Step(world, Action.CheckBeforeRemove(pid));
      OthersKeepMine(world, beforeUnlink, pid);
      world := Run(world, beforeUnlink);
      if !unlinkFails {
        StepKeepsInv(world, Action.Unlink(pid));
        world := Step(world, Action.Unlink(pid));
      }
    }

    /**
     FileLock::remove: unlink, then release. `removed` reports that the unlink
     took place; the path then named the caller's own file, and whatever the
     others do meanwhile it does not name that file again before the caller
     lets go of it. A failed unlink still releases the lock.
     */
    method Remove(
        pid: nat, unlinkFails: bool, beforeUnlink: seq<Action>, beforeUnlock: seq<Action>, beforeClose: seq<Action>)
      returns (removed: bool)
      requires Inv(world) && (world.At(pid).Locked? || world.At(pid).Named?)
      requires Others(pid, beforeUnlink) && Others(pid, beforeUnlock) && Others(pid, beforeClose)
      modifies this
      ensures Inv(world) && world.At(pid).Idle?
      ensures removed <==> old(world).Names(old(world).At(pid).ofd) && !unlinkFails
      ensures var unlinked := AfterUnlink(old(world), pid, unlinkFails, beforeUnlink);
        world == AfterRelease(Run(unlinked, beforeUnlock), pid, beforeClose)
      ensures removed ==>
        var v := AtUnlink(old(world), pid, beforeUnlink);
        var o := old(world).At(pid).ofd;
        o in v.ofds && v.Names(o) && world.path != Some(old(world).ofds[o].ino)
    {
      removed := UnlinkIfNamed(pid, unlinkFails, beforeUnlink);
      OthersKeepMine(world, beforeUnlock, pid);
      if removed { StaleIsForever(world, beforeUnlock, pid); }
      world := Run(world, beforeUnlock);
      if removed { StaleThroughRelease(world, pid, beforeClose); }
      Drop(pid, beforeClose);
    }

    /**
     validate_file with Exclusive access on a lock file whose one link is the path:
     a file unlinked since it was opened has no link left and is refused.
     */
    method Validate(pid: nat, isPrivate: bool) returns (ok: bool)
      requires Inv(world) && world.At(pid).Opened?
      modifies this
      ensures Inv(world)
      ensures ok <==> isPrivate && old(world).Names(old(world).At(pid).ofd)
      ensures world == if ok then old(world) else Step(old(world), Action.Close(pid))
      ensures world.At(pid) == if ok then old(world).At(pid) else Idle
    {
      ok := isPrivate && world.Names(world.At(pid).ofd);
      if !ok {
        StepKeepsInv(world, Action.Close(pid));
        world := Step(world, Action.Close(pid));
      }
    }

    /**
     One round: open, validate, lock, check the name; a stale file is let go of.
     It ends in the one way that the start and the others decide.
     */
    method LockOnce(pid: nat, r: Round) returns (claim: Claim)
      requires Inv(world) && world.At(pid).Idle? && r.LeavesTo(pid)
      modifies this
      ensures Inv(world)
      ensures RoundIs(old(world), pid, r, claim)
      ensures claim.Claimed? ==> world.At(pid).Named? && world.Names(world.At(pid).ofd)
      ensures !claim.Claimed? ==> world.At(pid).Idle?
      ensures claim.GaveUp? ==> world == NextWorld(old(world), pid, r)
    {
      var open := Action.Open(pid, r.ofd, r.ino);
      StepKeepsInv(world, open);
      world := Step(world, open);
      OthersKeepMine(world, r.beforeValidation, pid);
      world := Run(world, r.beforeValidation);
      if !world.At(pid).Opened? { return Busy; }  // the open itself failed
      ghost var v := world;
      var valid := Validate(pid, r.isPrivate);
      if !valid { return Refused; }
      var ok, polls := LockWithin(pid, r.turns);
      PollsDecide(v, r.turns, v.At(pid).ofd, polls, ok);
      if !ok { return Busy; }
      OthersKeepMine(world, r.beforeCheck, pid);
      world := Run(world, r.beforeCheck);
      assert world == AtCheck(v, pid, r, polls);
      var named := StillNames(pid);
      assert EndsAt(v, pid, r, polls, named);
      if named { return Claimed; }
      Drop(pid, r.afterCheck);
      NextIs(old(world), pid, r, polls);
      return GaveUp;
    }

    /**
     A caller's whole claim: open or create, validate, lock within the deadline,
     check the name, retry on a stale file. It ends by the first round that does not
     lose the name, and a claimed path is exclusive. The source loops until it wins
     or errs; here it also gives up when the schedule of rounds ends.
     */
    method LockRoute(pid: nat, rounds: seq<Round>) returns (claim: Claim)
      requires Inv(world) && world.At(pid).Idle? && forall r :: r in rounds ==> r.LeavesTo(pid)
      modifies this
      ensures Inv(world)
      ensures RouteIs(old(world), pid, rounds, claim)
      ensures claim.Claimed? <==> Critical(world.At(pid))
      ensures claim.Claimed? ==> forall q :: Critical(world.At(q)) ==> q == pid
      ensures claim.Claimed? ==> world.Names(world.At(pid).ofd)
      ensures !claim.Claimed? ==> world.At(pid).Idle?
    {
      var i := 0;
      assert rounds[0..] == rounds;
      while i < |rounds|
        invariant i <= |rounds| && Inv(world) && world.At(pid).Idle?
        invariant Leads(old(world), rounds, pid, world, rounds[i..])
      {
        ghost var before := world;
        claim := LockOnce(pid, rounds[i]);
        RouteGoesOn(old(world), rounds, pid, before, i, claim);
        if !claim.GaveUp? {
          if claim.Claimed? { OnlyOneCritical(world, pid); }
          return;
        }
        i := i + 1;
      }
      assert rounds[i..] == [];
      RouteGivesUp(old(world), rounds, pid, world);
      return GaveUp;
    }
  }
}
