/**
 Pruning of the soak's metrics export: what a prune removes, what it remembers,
 and what follows for whole runs in which files come and go between prunes.
 */
module Retention {
  /** A file's path below the destination: a node's directory, a slash, a file name. */
  type Name = string

  /** What follows the first c in s, nothing if there is none. */
  function Past(s: string, c: char): string {
    if s == [] then [] else if s[0] == c then s[1..] else Past(s[1..], c)
  }

  /** The source file an export was made from: its file name after the digest and the first dash. */
  function Original(f: Name): string {
    Past(Past(f, '/'), '-')
  }

  /** The destination: the exports in it, the verified list and the state file, which is empty when missing or
      unreadable. */
  datatype Disk = Disk(present: set<Name>, verified: set<Name>, state: map<Name, int>)

  /** What happens between two prunes, then what the next one sees of the source and the clock. */
  datatype Change = Change(
    added: set<Name>, deleted: set<Name>, vouched: set<Name>, retracted: set<Name>, sources: set<string>, now: int)

  /** The destination as the next prune finds it. */
  function Seen(d: Disk, c: Change, lost: bool): Disk {
    Disk(d.present + c.added - c.deleted, d.verified + c.vouched - c.retracted, if lost then map[] else d.state)
  }

  /** The exports without a source. */
  function Gone(d: Disk, sources: set<string>): set<Name> {
    set f | f in d.present && Original(f) !in sources
  }

  /** When an export was first seen without its source, as far as the state says. */
  function Since(d: Disk, f: Name, now: int): int {
    if f in d.state then d.state[f] else now
  }

  predicate Expired(d: Disk, f: Name, now: int, keep: int) {
    f in d.verified && now - Since(d, f, now) >= keep
  }

  function Removed(d: Disk, sources: set<string>, now: int, keep: int): set<Name> {
    set f | f in Gone(d, sources) && Expired(d, f, now, keep)
  }

  function Pruned(d: Disk, sources: set<string>, now: int, keep: int): Disk {
    var removed := Removed(d, sources, now, keep);
    Disk(d.present - removed, d.verified - removed, Remembered(d, Gone(d, sources) - removed, now))
  }

  function Remembered(d: Disk, fs: set<Name>, now: int): map<Name, int> {
    map f | f in fs :: Since(d, f, now)
  }

  // ------------------------------------------------------------ the prune itself

  /** The members of s among fs, in the order of fs. */
  function Among(fs: seq<Name>, s: set<Name>): seq<Name> {
    if fs == [] then []
    else if fs[|fs| - 1] in s then Among(fs[..|fs| - 1], s) + [fs[|fs| - 1]]
    else Among(fs[..|fs| - 1], s)
  }

  class Destination {
    var isDirectory: bool
    var present: set<Name>
    var verified: set<Name>
    var state: map<Name, int>

    constructor ()
      ensures !isDirectory && Contents() == Disk({}, {}, map[])
    {
      isDirectory, present, verified, state := false, {}, {}, map[];
    }

    function Contents(): Disk
      reads this
    {
      Disk(present, verified, state)
    }

    /** `listing` is the sorted listing of the exports; the removed files come back in its order. */
    method Prune(sources: set<string>, listing: seq<Name>, now: int, keep: int) returns (removed: seq<Name>)
      requires isDirectory ==> (set f | f in listing) == present
      requires forall i, j :: 0 <= i < j < |listing| ==> listing[i] != listing[j]
      modifies this
      ensures isDirectory == old(isDirectory)
      ensures !isDirectory ==> removed == [] && Contents() == old(Contents())
      ensures isDirectory ==>
        && removed == Among(listing, Removed(old(Contents()), sources, now, keep))
        && Contents() == Pruned(old(Contents()), sources, now, keep)
    {
      removed := [];
      if !isDirectory { return; }
      ghost var was := Contents();
      ghost var gone, out := Gone(was, sources), Removed(was, sources, now, keep);
      ghost var done: set<Name> := {};
      var kept: map<Name, int> := map[];
      var i := 0;
      while i < |listing|
        invariant i <= |listing| && isDirectory == old(isDirectory)
        invariant verified == was.verified && state == was.state
        invariant forall f :: f in done <==> f in listing[..i]
        invariant present == was.present - done * out
        invariant removed == Among(listing[..i], out)
        invariant kept == Remembered(was, (gone - out) * done, now)
      {
        var f := listing[i];
        assert listing[..i + 1] == listing[..i] + [f];
        assert listing[..i + 1][..i] == listing[..i];
        assert f in was.present;
        One(gone, out, done, f);
        RememberOne(was, (gone - out) * done, f, now);
        done := done + {f};
        if Original(f) !in sources {
          var since := if f in state then state[f] else now;
          if f in verified && now - since >= keep {
            present := present - {f};
            removed := removed + [f];
          } else {
            kept := kept[f := since];
          }
        }
        i := i + 1;
      }
      assert listing[..i] == listing;
      Whole(was, gone, out, done);
      AmongMembers(listing, out);
      assert (set f | f in removed) == out;
      state := kept;
      verified := verified - set f | f in removed;
    }
  }

  lemma One(gone: set<Name>, out: set<Name>, done: set<Name>, f: Name)
    ensures (done + {f}) * out == if f in out then done * out + {f} else done * out
    ensures (gone - out) * (done + {f}) == if f in gone - out then (gone - out) * done + {f} else (gone - out) * done
  {}

  lemma RememberOne(d: Disk, fs: set<Name>, f: Name, now: int)
    ensures Remembered(d, fs + {f}, now) == Remembered(d, fs, now)[f := Since(d, f, now)]
  {}

  lemma Whole(d: Disk, gone: set<Name>, out: set<Name>, done: set<Name>)
    requires out <= gone <= d.present && forall f :: f in d.present ==> f in done
    ensures done * out == out && (gone - out) * done == gone - out
  {}

  lemma {:induction false} AmongMembers(fs: seq<Name>, s: set<Name>)
    ensures forall f :: f in Among(fs, s) <==> f in fs && f in s
  {
    if fs != [] {
      AmongMembers(fs[..|fs| - 1], s);
      assert fs == fs[..|fs| - 1] + [fs[|fs| - 1]];
    }
  }

  // ------------------------------------------------------------ what one prune decides

  lemma {:induction false} PastSeparator(before: string, c: char, after: string)
    requires c !in before
    ensures Past(before + [c] + after, c) == after
  {
    var s := before + [c] + after;
    if before == [] {
      assert s[1..] == after;
    } else {
      assert s[0] == before[0] && s[0] in before;
      assert s[1..] == before[1..] + [c] + after;
      PastSeparator(before[1..], c, after);
    }
  }

  /** An export `node/digest-source` was made from `source`, dashes of its own included. */
  lemma OriginalIs(node: string, digest: string, source: string)
    requires '/' !in node && '-' !in digest
    ensures Original(node + "/" + digest + "-" + source) == source
  {
    var f := node + "/" + digest + "-" + source;
    assert f == node + ['/'] + (digest + ['-'] + source);
    PastSeparator(node, '/', digest + ['-'] + source);
    PastSeparator(digest, '-', source);
  }

  /** A prune deletes the verified exports whose source is missing and was already missing `keep` seconds ago, by the
      state's account, and takes them off the verified list; the state becomes the other exports without a source, each
      with the time it was first missed. */
  lemma PruneDecides(d: Disk, sources: set<string>, now: int, keep: int, f: Name)
    ensures var after := Pruned(d, sources, now, keep);
      var missing := f in d.present && Original(f) !in sources;
      var since := if f in d.state then d.state[f] else now;
      var deleted := missing && f in d.verified && since + keep <= now;
      && (f in after.present <==> f in d.present && !deleted)
      && (f in after.verified <==> f in d.verified && !deleted)
      && (f in after.state <==> missing && !deleted)
      && (f in after.state ==> after.state[f] == since)
  {}

  // ------------------------------------------------------------ runs

  /** The state file is lost before each prune in `losses`. */
  datatype Run = Run(start: Disk, changes: seq<Change>, losses: set<nat>, keep: int)

  /** What the n-th prune finds. */
  function SeenAt(r: Run, n: nat): Disk
    requires n < |r.changes|
  {
    var before := if n == 0 then r.start else
      Pruned(SeenAt(r, n - 1), r.changes[n - 1].sources, r.changes[n - 1].now, r.keep);
    Seen(before, r.changes[n], n in r.losses)
  }

  predicate GoneAt(r: Run, n: nat, f: Name)
    requires n < |r.changes|
  {
    f in Gone(SeenAt(r, n), r.changes[n].sources)
  }

  predicate RemovedAt(r: Run, n: nat, f: Name)
    requires n < |r.changes|
  {
    f in Removed(SeenAt(r, n), r.changes[n].sources, r.changes[n].now, r.keep)
  }

  /** Every prune from j to i found f without its source and left it, except perhaps the last, with the state kept
      in between. */
  ghost predicate Held(r: Run, j: nat, i: nat, f: Name)
    requires i < |r.changes|
  {
    && j <= i
    && (forall k: nat :: j <= k <= i ==> GoneAt(r, k, f))
    && (forall k: nat :: j <= k < i ==> !RemovedAt(r, k, f))
    && forall k: nat :: j < k <= i ==> k !in r.losses
  }

  predicate SinceAt(r: Run, i: nat, f: Name, t: int)
    requires i < |r.changes|
  {
    Since(SeenAt(r, i), f, r.changes[i].now) == t
  }

  lemma KeptInState(r: Run, i: nat, f: Name)
    requires 0 < i < |r.changes| && GoneAt(r, i - 1, f) && !RemovedAt(r, i - 1, f) && i !in r.losses
    ensures f in SeenAt(r, i).state
  {}

  /** The state goes back exactly to the first prune of the unbroken stretch. */
  lemma {:induction false} StateIsFirstSeen(r: Run, i: nat, f: Name) returns (j: nat)
    requires i < |r.changes| && r.start.state == map[] && GoneAt(r, i, f)
    ensures j <= i && Held(r, j, i, f) && SinceAt(r, i, f, r.changes[j].now)
    ensures forall k: nat :: Held(r, k, i, f) ==> j <= k
  {
    var d := SeenAt(r, i);
    if f in d.state {
      j := StateIsFirstSeen(r, i - 1, f);
      forall k: nat | Held(r, k, i, f) ensures j <= k {
        if k < i { assert Held(r, k, i - 1, f); }
      }
    } else {
      j := i;
      forall k: nat | Held(r, k, i, f) ensures j <= k {
        if k < i { KeptInState(r, i, f); }
      }
    }
  }

  ghost predicate Nondecreasing(cs: seq<Change>) {
    forall i, j :: 0 <= i <= j < |cs| ==> cs[i].now <= cs[j].now
  }

  /** A stretch without its source, as long as the keep time. */
  ghost predicate LongGone(r: Run, j: nat, i: nat, f: Name)
    requires i < |r.changes|
  {
    Held(r, j, i, f) && r.changes[i].now - r.changes[j].now >= r.keep
  }

  /** A prune removes exactly the verified files that every prune over at least the keep time found without a source. */
  lemma RemovedIffLongGone(r: Run, i: nat, f: Name)
    requires i < |r.changes| && r.start.state == map[] && Nondecreasing(r.changes)
    ensures RemovedAt(r, i, f) <==> f in SeenAt(r, i).verified && exists j: nat :: LongGone(r, j, i, f)
  {
    if GoneAt(r, i, f) {
      var first := StateIsFirstSeen(r, i, f);
      assert Since(SeenAt(r, i), f, r.changes[i].now) == r.changes[first].now;
      if RemovedAt(r, i, f) { assert LongGone(r, first, i, f); }
      forall j: nat | LongGone(r, j, i, f) ensures r.changes[i].now - r.changes[first].now >= r.keep {
        assert r.changes[first].now <= r.changes[j].now;
      }
    } else {
      forall j: nat | j <= i ensures !Held(r, j, i, f) { assert !GoneAt(r, i, f); }
    }
  }

  // ------------------------------------------------------------ losing the state

  ghost predicate RemovedBy(r: Run, n: nat, f: Name) {
    exists k: nat :: k < n && k < |r.changes| && RemovedAt(r, k, f)
  }

  /** The two runs agree on f, and the one that lost less remembers it for at least as long. */
  predicate Alike(a: Disk, b: Disk, f: Name) {
    && (f in a.present <==> f in b.present)
    && (f in a.verified <==> f in b.verified)
    && (f in b.state ==> f in a.state && a.state[f] <= b.state[f])
  }

  predicate StateUpTo(d: Disk, f: Name, now: int) {
    f in d.state ==> d.state[f] <= now
  }

  lemma StepAlike(a: Disk, b: Disk, sources: set<string>, now: int, keep: int, f: Name)
    requires Alike(a, b, f) && StateUpTo(a, f, now)
    ensures f in Removed(b, sources, now, keep) ==> f in Removed(a, sources, now, keep)
    ensures f !in Removed(a, sources, now, keep)
        ==> Alike(Pruned(a, sources, now, keep), Pruned(b, sources, now, keep), f)
  {}

  lemma SeenAlike(a: Disk, b: Disk, c: Change, lostA: bool, lostB: bool, f: Name)
    requires Alike(a, b, f) && (lostA ==> lostB)
    ensures Alike(Seen(a, c, lostA), Seen(b, c, lostB), f)
  {}

  lemma PrunedUpTo(d: Disk, sources: set<string>, now: int, keep: int, f: Name)
    requires StateUpTo(d, f, now)
    ensures StateUpTo(Pruned(d, sources, now, keep), f, now)
  {}

  lemma {:induction false} StateUpToNow(r: Run, n: nat, f: Name)
    requires r.start.state == map[] && Nondecreasing(r.changes) && n < |r.changes|
    ensures StateUpTo(SeenAt(r, n), f, r.changes[n].now)
  {
    if n > 0 {
      StateUpToNow(r, n - 1, f);
      var c := r.changes[n - 1];
      PrunedUpTo(SeenAt(r, n - 1), c.sources, c.now, r.keep, f);
      assert c.now <= r.changes[n].now;
    }
  }

  lemma {:induction false} Lockstep(a: Run, b: Run, n: nat, f: Name)
    requires a.start == b.start && a.changes == b.changes && a.keep == b.keep && a.losses <= b.losses
    requires a.start.state == map[] && Nondecreasing(a.changes) && n < |a.changes|
    ensures RemovedBy(a, n, f) || Alike(SeenAt(a, n), SeenAt(b, n), f)
  {
    if n > 0 && !RemovedBy(a, n, f) {
      Lockstep(a, b, n - 1, f);
      assert !RemovedAt(a, n - 1, f);
      var c, before, before' := a.changes[n - 1], SeenAt(a, n - 1), SeenAt(b, n - 1);
      StateUpToNow(a, n - 1, f);
      StepAlike(before, before', c.sources, c.now, a.keep, f);
      SeenAlike(Pruned(before, c.sources, c.now, a.keep), Pruned(before', c.sources, c.now, a.keep), a.changes[n],
                n in a.losses, n in b.losses, f);
    }
  }

  /** Losing the state file more often can only delay: whatever that run removes, the other has removed by then. */
  lemma LossOnlyDelays(a: Run, b: Run, n: nat, f: Name)
    requires a.start == b.start && a.changes == b.changes && a.keep == b.keep && a.losses <= b.losses
    requires a.start.state == map[] && Nondecreasing(a.changes) && n < |a.changes|
    requires RemovedAt(b, n, f)
    ensures RemovedBy(a, n + 1, f)
  {
    Lockstep(a, b, n, f);
    if RemovedBy(a, n, f) {
      var k: nat :| k < n && k < |a.changes| && RemovedAt(a, k, f);
    } else {
      var c := a.changes[n];
      StateUpToNow(a, n, f);
      StepAlike(SeenAt(a, n), SeenAt(b, n), c.sources, c.now, a.keep, f);
      assert RemovedAt(a, n, f);
    }
  }
}
