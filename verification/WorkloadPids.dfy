/**
 Which processes count as the workload: a worklist over the process table, and
 the paths of child edges it must agree with.
 */
module WorkloadPids {
  type Pid = int

  datatype Proc = Proc(ppid: Pid, command: string)

  type Table = map<Pid, Proc>

  predicate Mentions(command: string, marker: string) {
    exists i :: 0 <= i <= |command| - |marker| && command[i..][..|marker|] == marker
  }

  /** The marker stands somewhere in the command, with anything or nothing around it. */
  lemma MentionsIff(command: string, marker: string)
    ensures Mentions(command, marker) <==> exists before, after :: Around(command, before, marker, after)
  {
    if Mentions(command, marker) {
      var i :| 0 <= i <= |command| - |marker| && command[i..][..|marker|] == marker;
      assert command == command[..i] + command[i..][..|marker|] + command[i + |marker|..];
      assert Around(command, command[..i], marker, command[i + |marker|..]);
    }
    forall before, after | Around(command, before, marker, after) ensures Mentions(command, marker) {
      assert command[|before|..][..|marker|] == marker;
    }
  }

  predicate Around(command: string, before: string, marker: string, after: string) {
    command == before + marker + after
  }

  /** A process that names the marker; no process does when there is none. */
  predicate Marked(table: Table, marker: string, pid: Pid) {
    pid in table && marker != "" && Mentions(table[pid].command, marker)
  }

  predicate IsRoot(table: Table, bun: Pid, marker: string, pid: Pid) {
    pid == bun || Marked(table, marker, pid)
  }

  predicate IsChild(table: Table, parent: Pid, pid: Pid) {
    pid in table && table[pid].ppid == parent
  }

  /** A path of child edges that starts at a root and nowhere meets the sampler. */
  ghost predicate IsPath(table: Table, bun: Pid, marker: string, sampler: Pid, path: seq<Pid>) {
    && path != [] && IsRoot(table, bun, marker, path[0])
    && (forall i :: 0 <= i < |path| ==> path[i] != sampler)
    && forall i :: 0 < i < |path| ==> IsChild(table, path[i - 1], path[i])
  }

  ghost predicate Reachable(table: Table, bun: Pid, marker: string, sampler: Pid, pid: Pid) {
    exists path :: IsPath(table, bun, marker, sampler, path) && path[|path| - 1] == pid
  }

  /** A path in the table's own terms: it starts at Bun, or at a process whose command holds the marker if there is
      one; every further process has the one before it as its parent; and none is the sampler. */
  lemma PathIs(table: Table, bun: Pid, marker: string, sampler: Pid, path: seq<Pid>)
    ensures IsPath(table, bun, marker, sampler, path) <==>
      && path != [] && sampler !in path
      && (path[0] == bun || (path[0] in table && marker != ""
            && exists before, after :: Around(table[path[0]].command, before, marker, after)))
      && forall i :: 1 <= i < |path| ==> path[i] in table && table[path[i]].ppid == path[i - 1]
  {
    if path != [] && path[0] in table { MentionsIff(table[path[0]].command, marker); }
    if IsPath(table, bun, marker, sampler, path) {
      forall i | 1 <= i < |path| ensures path[i] in table && table[path[i]].ppid == path[i - 1] {
        assert IsChild(table, path[i - 1], path[i]);
      }
    }
  }

  lemma RootReaches(table: Table, bun: Pid, marker: string, sampler: Pid, pid: Pid)
    requires IsRoot(table, bun, marker, pid) && pid != sampler
    ensures Reachable(table, bun, marker, sampler, pid)
  {
    assert IsPath(table, bun, marker, sampler, [pid]);
    assert [pid][|[pid]| - 1] == pid;
  }

  lemma ChildReaches(table: Table, bun: Pid, marker: string, sampler: Pid, parent: Pid, pid: Pid)
    requires Reachable(table, bun, marker, sampler, parent) && IsChild(table, parent, pid) && pid != sampler
    ensures Reachable(table, bun, marker, sampler, pid)
  {
    var path :| IsPath(table, bun, marker, sampler, path) && path[|path| - 1] == parent;
    var longer := path + [pid];
    assert IsPath(table, bun, marker, sampler, longer) && longer[|longer| - 1] == pid;
  }

  /** The roots are in, and so is every child of a member, except the sampler. */
  ghost predicate Closed(table: Table, bun: Pid, marker: string, sampler: Pid, found: set<Pid>) {
    && (forall pid :: IsRoot(table, bun, marker, pid) && pid != sampler ==> pid in found)
    && forall parent, pid :: parent in found && IsChild(table, parent, pid) && pid != sampler ==> pid in found
  }

  lemma {:induction false} ClosedHoldsPaths(
    table: Table, bun: Pid, marker: string, sampler: Pid, found: set<Pid>, path: seq<Pid>, n: nat)
    requires Closed(table, bun, marker, sampler, found) && IsPath(table, bun, marker, sampler, path) && n < |path|
    ensures path[n] in found
  {
    if n > 0 {
      ClosedHoldsPaths(table, bun, marker, sampler, found, path, n - 1);
      assert IsChild(table, path[n - 1], path[n]);
    }
  }

  /** A closed set holds everything reachable. */
  lemma ClosedHoldsReachable(table: Table, bun: Pid, marker: string, sampler: Pid, found: set<Pid>, pid: Pid)
    requires Closed(table, bun, marker, sampler, found) && Reachable(table, bun, marker, sampler, pid)
    ensures pid in found
  {
    var path :| IsPath(table, bun, marker, sampler, path) && path[|path| - 1] == pid;
    ClosedHoldsPaths(table, bun, marker, sampler, found, path, |path| - 1);
  }

  // ------------------------------------------------------------ the worklist

  /** Exactly the children of parent. */
  ghost predicate AreChildren(table: Table, parent: Pid, pids: seq<Pid>) {
    forall pid :: pid in pids <==> IsChild(table, parent, pid)
  }

  /** The children of each process, in the order the table lists them. */
  method Children(table: Table, listing: seq<Pid>) returns (children: map<Pid, seq<Pid>>)
    requires forall pid :: pid in listing <==> pid in table
    ensures forall parent :: AreChildren(table, parent, if parent in children then children[parent] else [])
  {
    children := map[];
    var i := 0;
    while i < |listing|
      invariant i <= |listing|
      invariant forall parent, pid ::
        (parent in children && pid in children[parent]) <==> (pid in listing[..i] && IsChild(table, parent, pid))
    {
      var pid := listing[i];
      assert listing[..i + 1] == listing[..i] + [pid];
      var parent := table[pid].ppid;
      children := children[parent := (if parent in children then children[parent] else []) + [pid]];
      i := i + 1;
    }
    assert listing[..i] == listing;
  }

  /** The table's processes that name the marker, in the order the table lists them. */
  method MarkedPids(table: Table, listing: seq<Pid>, marker: string) returns (pids: seq<Pid>)
    requires forall pid :: pid in listing <==> pid in table
    ensures forall pid :: pid in pids <==> Marked(table, marker, pid)
  {
    pids := [];
    var i := 0;
    while i < |listing|
      invariant i <= |listing|
      invariant forall pid :: pid in pids <==> pid in listing[..i] && Marked(table, marker, pid)
    {
      var pid := listing[i];
      assert listing[..i + 1] == listing[..i] + [pid];
      if marker != "" && Mentions(table[pid].command, marker) { pids := pids + [pid]; }
      i := i + 1;
    }
    assert listing[..i] == listing;
  }

  /** Every root and every child of a found process is found, waiting, or the sampler. */
  ghost predicate Covered(table: Table, bun: Pid, marker: string, sampler: Pid, found: set<Pid>, stack: seq<Pid>) {
    && (forall pid :: IsRoot(table, bun, marker, pid) ==> pid in found || pid in stack || pid == sampler)
    && forall parent, pid :: parent in found && IsChild(table, parent, pid)
         ==> pid in found || pid in stack || pid == sampler
  }

  /** What waits is the sampler or reachable, and known. */
  ghost predicate Waiting(table: Table, bun: Pid, marker: string, sampler: Pid, stack: seq<Pid>) {
    forall pid :: pid in stack ==>
      (pid in table || pid == bun) && (pid == sampler || Reachable(table, bun, marker, sampler, pid))
  }

  lemma PopCovered(
    table: Table, bun: Pid, marker: string, sampler: Pid, found: set<Pid>, rest: seq<Pid>, pid: Pid, kids: seq<Pid>)
    requires Covered(table, bun, marker, sampler, found, rest + [pid]) && AreChildren(table, pid, kids)
    ensures pid in found || pid == sampler ==> Covered(table, bun, marker, sampler, found, rest)
    ensures Covered(table, bun, marker, sampler, found + {pid}, rest + kids)
  {}

  lemma PushWaits(
    table: Table, bun: Pid, marker: string, sampler: Pid, rest: seq<Pid>, pid: Pid, kids: seq<Pid>)
    requires Waiting(table, bun, marker, sampler, rest) && AreChildren(table, pid, kids)
    requires Reachable(table, bun, marker, sampler, pid)
    ensures Waiting(table, bun, marker, sampler, rest + kids)
  {
    forall kid | kid in kids && kid != sampler ensures Reachable(table, bun, marker, sampler, kid) {
      ChildReaches(table, bun, marker, sampler, pid, kid);
    }
  }

  lemma RootsWait(table: Table, bun: Pid, marker: string, sampler: Pid, marked: seq<Pid>)
    requires forall pid :: pid in marked <==> Marked(table, marker, pid)
    ensures Waiting(table, bun, marker, sampler, [bun] + marked)
    ensures Covered(table, bun, marker, sampler, {}, [bun] + marked)
  {
    forall pid | pid in [bun] + marked && pid != sampler ensures Reachable(table, bun, marker, sampler, pid) {
      RootReaches(table, bun, marker, sampler, pid);
    }
  }

  /**
   Bun's descendants and the marked processes with theirs, without Bun and
   without anything reached only through the sampler. `listing` is the table's order.
   */
  method Workload(table: Table, listing: seq<Pid>, bun: Pid, marker: string, sampler: Pid) returns (pids: set<Pid>)
    requires forall pid :: pid in listing <==> pid in table
    ensures forall pid :: pid in pids <==> pid in table && pid != bun && Reachable(table, bun, marker, sampler, pid)
  {
    var children := Children(table, listing);
    var marked := MarkedPids(table, listing, marker);
    var found, stack := {}, [bun] + marked;
    RootsWait(table, bun, marker, sampler, marked);
    ghost var known := table.Keys + {bun};
    while stack != []
      invariant Covered(table, bun, marker, sampler, found, stack)
      invariant Waiting(table, bun, marker, sampler, stack)
      invariant found <= known && forall pid :: pid in found ==> Reachable(table, bun, marker, sampler, pid)
      decreases known - found, |stack|
    {
      var pid, rest := stack[|stack| - 1], stack[..|stack| - 1];
      assert stack == rest + [pid];
      var kids := if pid in children then children[pid] else [];
      assert AreChildren(table, pid, kids);
      PopCovered(table, bun, marker, sampler, found, rest, pid, kids);
      stack := rest;
      if pid !in found && pid != sampler {
        PushWaits(table, bun, marker, sampler, rest, pid, kids);
        found := found + {pid};
        stack := stack + kids;
      }
    }
    assert Closed(table, bun, marker, sampler, found);
    forall pid | Reachable(table, bun, marker, sampler, pid) ensures pid in found {
      ClosedHoldsReachable(table, bun, marker, sampler, found, pid);
    }
    pids := set pid | pid in found - {bun} && pid in table;
  }
}
