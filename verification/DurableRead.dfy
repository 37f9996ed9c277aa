/**
 Lock-free bounded reads of a record other processes may replace at any moment.

 The reader changes nothing on disk, so what it meets is a `View`: the file
 system at each of its system calls. Views come from schedules, where `env(n)`
 is everything the other processes do just before the n-th call.
 */
module DurableRead {
  import opened Common

  datatype Access = Regular | OwnerOnly | Exclusive

  datatype Inode = Inode(content: seq<byte>, regular: bool, mode: nat, uid: nat, links: nat)

  datatype Entry = Missing | Symlink | File(id: nat)

  /** Inodes stay in the table once unlinked: a reader may still have them open. */
  datatype Fs = Fs(inodes: seq<Inode>, path: Entry)

  datatype Change =
    | Publish(inode: Inode)            // rename a complete new file over the path
    | Displace                         // rename a symlink over the path
    | Remove
    | Link(id: nat)                    // hard links elsewhere
    | Unlink(id: nat)
    | Protect(id: nat, mode: nat, uid: nat)
    | Append(id: nat, more: seq<byte>) // a writer that does not replace atomically

  datatype Error = NotFound | SymlinkRefused | InvalidData | ReplacedTooOften | FileTooLarge

  const MAX_REOPENS: nat := 8

  function WithLinks(inodes: seq<Inode>, id: nat, links: nat): seq<Inode>
    requires id < |inodes|
  {
    inodes[id := inodes[id].(links := links)]
  }

  /** The inode table once the path no longer names what it named. */
  function Unnamed(fs: Fs): seq<Inode> {
    if fs.path.File? && fs.path.id < |fs.inodes| && fs.inodes[fs.path.id].links > 0
    then WithLinks(fs.inodes, fs.path.id, fs.inodes[fs.path.id].links - 1) else fs.inodes
  }

  function Apply(fs: Fs, c: Change): Fs {
    match c
    case Publish(inode) => Fs(Unnamed(fs) + [inode.(links := 1)], File(|fs.inodes|))
    case Displace => Fs(Unnamed(fs), Symlink)
    case Remove => Fs(Unnamed(fs), Missing)
    case Link(id) =>
      if id < |fs.inodes| then fs.(inodes := WithLinks(fs.inodes, id, fs.inodes[id].links + 1)) else fs
    case Unlink(id) =>
      if id < |fs.inodes| && fs.inodes[id].links > (if fs.path == File(id) then 1 else 0)
      then fs.(inodes := WithLinks(fs.inodes, id, fs.inodes[id].links - 1)) else fs
    case Protect(id, mode, uid) =>
      if id < |fs.inodes| then fs.(inodes := fs.inodes[id := fs.inodes[id].(mode := mode, uid := uid)]) else fs
    case Append(id, more) =>
      if id < |fs.inodes| then fs.(inodes := fs.inodes[id := fs.inodes[id].(content := fs.inodes[id].content + more)])
      else fs
  }

  function ApplyAll(fs: Fs, cs: seq<Change>): Fs
    decreases |cs|
  {
    if cs == [] then fs else ApplyAll(Apply(fs, cs[0]), cs[1..])
  }

  type Environment = nat -> seq<Change>

  /** What the reader's n-th system call sees. */
  function FsAt(start: Fs, env: Environment, n: nat): Fs {
    ApplyAll(if n == 0 then start else FsAt(start, env, n - 1), env(n))
  }

  predicate Wf(fs: Fs) {
    fs.path.File? ==> fs.path.id < |fs.inodes| && fs.inodes[fs.path.id].links > 0
  }

  // ------------------------------------------------------------ names

  /** The names a file has besides the path. */
  function Elsewhere(fs: Fs, id: nat): int
    requires id < |fs.inodes|
  {
    fs.inodes[id].links - if fs.path == File(id) then 1 else 0
  }

  /** Link counts count names: the path's own, which renames and removals take along, and the hard links elsewhere. */
  lemma NamesAreCounted(fs: Fs, c: Change, id: nat)
    requires Wf(fs) && id < |fs.inodes| && Elsewhere(fs, id) >= 0
    ensures var fs', n := Apply(fs, c), Elsewhere(fs, id);
      && |fs.inodes| <= |fs'.inodes|
      && Elsewhere(fs', id) == (if c == Link(id) then n + 1 else if c == Unlink(id) && n > 0 then n - 1 else n)
      && (c.Publish? ==> fs'.path == File(|fs.inodes|) && Elsewhere(fs', |fs.inodes|) == 0)
  {}

  /** What else a change does: a published file is complete and the path names it, a displaced path is a symlink and
      a removed one nothing, a protected file has the mode and owner given, and an appended-to one ends in what was
      appended. */
  lemma ChangesTake(fs: Fs, c: Change)
    ensures var fs' := Apply(fs, c);
      match c
      case Publish(inode) =>
        && fs'.path == File(|fs.inodes|) && |fs'.inodes| == |fs.inodes| + 1
        && fs'.inodes[|fs.inodes|] == Inode(inode.content, inode.regular, inode.mode, inode.uid, 1)
      case Displace => fs'.path == Symlink
      case Remove => fs'.path == Missing
      case Link(_) => fs'.path == fs.path
      case Unlink(_) => fs'.path == fs.path
      case Protect(id, mode, uid) =>
        && fs'.path == fs.path
        && (id < |fs.inodes| ==>
              var i := fs.inodes[id]; fs'.inodes == fs.inodes[id := Inode(i.content, i.regular, mode, uid, i.links)])
      case Append(id, more) =>
        && fs'.path == fs.path && |fs'.inodes| == |fs.inodes|
        && (id < |fs.inodes| ==> fs'.inodes[id].content == fs.inodes[id].content + more)
  {}

  /** Changes take effect one after another. */
  lemma {:induction false} OneMoreChange(fs: Fs, cs: seq<Change>, c: Change)
    ensures ApplyAll(fs, cs + [c]) == Apply(ApplyAll(fs, cs), c)
    decreases |cs|
  {
    if cs == [] {
      assert [c][1..] == [] && cs + [c] == [c];
    } else {
      assert (cs + [c])[1..] == cs[1..] + [c];
      OneMoreChange(Apply(fs, cs[0]), cs[1..], c);
    }
  }

  // ------------------------------------------------------------ what persists

  /** Every inode of `a` is still there in `b` and only grew; it did not change at all without appends. */
  predicate Grows(a: Fs, b: Fs) {
    |a.inodes| <= |b.inodes| && forall i :: 0 <= i < |a.inodes| ==> a.inodes[i].content <= b.inodes[i].content
  }

  predicate Same(a: Fs, b: Fs) {
    |a.inodes| <= |b.inodes| && forall i :: 0 <= i < |a.inodes| ==> a.inodes[i].content == b.inodes[i].content
  }

  lemma ApplyPersists(fs: Fs, c: Change)
    requires Wf(fs)
    ensures Wf(Apply(fs, c)) && Grows(fs, Apply(fs, c)) && (!c.Append? ==> Same(fs, Apply(fs, c)))
  {}

  lemma {:induction false} ApplyAllPersists(fs: Fs, cs: seq<Change>)
    requires Wf(fs)
    ensures Wf(ApplyAll(fs, cs)) && Grows(fs, ApplyAll(fs, cs))
    ensures NoAppend(cs) ==> Same(fs, ApplyAll(fs, cs))
    decreases |cs|
  {
    if cs != [] {
      ApplyPersists(fs, cs[0]);
      ApplyAllPersists(Apply(fs, cs[0]), cs[1..]);
    }
  }

  // ------------------------------------------------------------ views

  type View = nat -> Fs

  function ViewOf(start: Fs, env: Environment): View {
    (n: nat) => FsAt(start, env, n)
  }

  predicate NoAppend(cs: seq<Change>) {
    forall c :: c in cs ==> !c.Append?
  }

  /** Writers publish complete files and never write into a published one. */
  ghost predicate OnlyRenames(env: Environment) {
    forall n: nat :: NoAppend(env(n))
  }

  /** Between two calls inodes stay in the table and files only grow. */
  predicate GrowsAt(view: View, n: nat) {
    Wf(view(n)) && Grows(view(n), view(n + 1))
  }

  predicate SameAt(view: View, n: nat) {
    Same(view(n), view(n + 1))
  }

  ghost predicate Timeline(view: View) {
    forall n: nat :: GrowsAt(view, n)
  }

  /** No file in the table changes: writers publish complete files by renaming. */
  ghost predicate Frozen(view: View) {
    forall n: nat :: SameAt(view, n)
  }

  lemma {:induction false} FsAtWf(start: Fs, env: Environment, n: nat)
    requires Wf(start)
    ensures Wf(FsAt(start, env, n))
  {
    if n > 0 { FsAtWf(start, env, n - 1); }
    ApplyAllPersists(if n == 0 then start else FsAt(start, env, n - 1), env(n));
  }

  /** Every schedule of every other process gives the reader a timeline, frozen unless someone appends. */
  lemma ScheduleIsTimeline(start: Fs, env: Environment)
    requires Wf(start)
    ensures Timeline(ViewOf(start, env))
    ensures OnlyRenames(env) ==> Frozen(ViewOf(start, env))
  {
    var view := ViewOf(start, env);
    forall n: nat
      ensures GrowsAt(view, n) && (OnlyRenames(env) ==> SameAt(view, n))
    {
      FsAtWf(start, env, n);
      ApplyAllPersists(FsAt(start, env, n), env(n + 1));
    }
  }

  lemma {:induction false} Persists(view: View, m: nat, n: nat)
    requires Timeline(view) && m <= n
    ensures Grows(view(m), view(n))
    ensures Frozen(view) ==> Same(view(m), view(n))
    decreases n - m
  {
    if m < n {
      assert GrowsAt(view, m) && (Frozen(view) ==> SameAt(view, m));
      Persists(view, m + 1, n);
    }
  }

  // ------------------------------------------------------------ the reader

  /** validate_metadata, for the effective user `me`. */
  predicate Valid(i: Inode, access: Access, me: nat) {
    && i.regular
    && match access
       case Regular => true
       case OwnerOnly => i.uid == me && i.mode % 64 == 0       // mode & 0o077 == 0
       case Exclusive => i.uid == me && i.mode % 512 == 384 && i.links == 1  // mode & 0o777 == 0o600
  }

  /** The last three octal digits. */
  lemma OctalDigits(mode: nat)
    ensures mode % 64 == 8 * (mode / 8 % 8) + mode % 8
    ensures mode % 512 == 64 * (mode / 64 % 8) + mode % 64
  {
    var q := mode / 8;
    var p := mode / 64;
    assert mode == 8 * q + mode % 8 && q == 8 * p + q % 8 && p == 8 * (p / 8) + p % 8;
    assert mode == 64 * p + (8 * (q % 8) + mode % 8);
    assert mode == 512 * (p / 8) + (64 * (p % 8) + mode % 64);
  }

  /** In the octal digits of the mode: neither the group nor others may do anything with a private file, and an
      exclusive one is besides its owner's to read and write, no more, under one name. */
  lemma ValidIs(i: Inode, me: nat)
    ensures Valid(i, Regular, me) <==> i.regular
    ensures Valid(i, OwnerOnly, me) <==> i.regular && i.uid == me && i.mode / 8 % 8 == 0 && i.mode % 8 == 0
    ensures Valid(i, Exclusive, me) <==>
      && i.regular && i.uid == me && i.links == 1
      && i.mode / 64 % 8 == 6 && i.mode / 8 % 8 == 0 && i.mode % 8 == 0
  {
    OctalDigits(i.mode);
  }

  function OpenRecord(fs: Fs): Result<nat, Error> {
    match fs.path
    case Missing => Err(NotFound)
    case Symlink => Err(SymlinkRefused)
    case File(id) => Ok(id)
  }

  /** The descriptor `id` was opened at call `n`, when the path named it. */
  predicate OpenedAt(view: View, id: nat, n: nat) {
    view(n).path == File(id) && id < |view(n).inodes|
  }

  /** What the path named at call n had lost its last link by the next call. */
  predicate Vanished(view: View, n: nat) {
    var before, after := view(n), view(n + 1);
    before.path.File? && before.path.id < |after.inodes| && after.inodes[before.path.id].links == 0
  }

  /** What the path named at call n fails the checks at the next call. */
  predicate Refused(view: View, access: Access, me: nat, n: nat) {
    var before, after := view(n), view(n + 1);
    before.path.File? && before.path.id < |after.inodes| && !Valid(after.inodes[before.path.id], access, me)
  }

  /** A descriptor on inode `id`, opened at call `at` and checked at the next one. */
  datatype Opened = Opened(id: nat, at: nat, reopens: nat)

  /** What a validated descriptor guarantees. */
  predicate Validated(view: View, access: Access, me: nat, o: Opened) {
    && OpenedAt(view, o.id, o.at)
    && o.id < |view(o.at + 1).inodes|
    && Valid(view(o.at + 1).inodes[o.id], access, me)
    && o.reopens <= 8
    && (access != Exclusive ==> o.reopens == 0)
  }

  /** The first n descriptors, opened two calls apart from `base` on, had all lost their file when they were checked. */
  predicate AllVanished(view: View, base: nat, n: nat) {
    n > 0 ==> Vanished(view, base + 2 * (n - 1)) && AllVanished(view, base, n - 1)
  }

  /** Why the attempt of call n fails. */
  predicate FailsWith(view: View, access: Access, me: nat, n: nat, e: Error) {
    match e
    case NotFound => view(n).path.Missing?
    case SymlinkRefused => view(n).path.Symlink?
    case InvalidData => Refused(view, access, me, n) && !(access == Exclusive && Vanished(view, n))
    case ReplacedTooOften => access == Exclusive && Vanished(view, n)
    case FileTooLarge => false
  }

  /**
   open_validated, given the descriptor opened at call `base`. Every reopen
   follows a descriptor whose file had vanished, and only an Exclusive reader
   reopens; nine vanished files in a row refuse the read. Whatever the outcome,
   the attempt after the last reopen decided it.
   */
  method OpenValidated(view: View, access: Access, me: nat, file: nat, base: nat)
    returns (r: Result<Opened, Error>, reopens: nat)
    requires Timeline(view) && OpenedAt(view, file, base)
    ensures reopens <= 8 && (access != Exclusive ==> reopens == 0) && AllVanished(view, base, reopens)
    ensures r.Ok? ==>
      Validated(view, access, me, r.value) && r.value.at == base + 2 * reopens && r.value.reopens == reopens
    ensures r.Err? ==> FailsWith(view, access, me, base + 2 * reopens, r.error)
    ensures r == Err(ReplacedTooOften) ==> reopens == 8
  {
    var id, at := file, base;
    reopens := 0;
    while true
      invariant reopens <= MAX_REOPENS && at == base + 2 * reopens
      invariant access != Exclusive ==> reopens == 0
      invariant OpenedAt(view, id, at)
      invariant AllVanished(view, base, reopens)
      decreases MAX_REOPENS - reopens
    {
      assert GrowsAt(view, at) && GrowsAt(view, at + 2);
      var metadata := view(at + 1).inodes[id];
      if access == Exclusive && metadata.links == 0 {
        assert Vanished(view, base + 2 * reopens);
        if reopens == MAX_REOPENS { return Err(ReplacedTooOften), reopens; }
        reopens := reopens + 1;
        var again := OpenRecord(view(at + 2));
        if again.Err? { return Err(again.error), reopens; }
        id, at := again.value, at + 2;
      } else if Valid(metadata, access, me) {
        return Ok(Opened(id, at, reopens)), reopens;
      } else {
        assert Refused(view, access, me, at);
        return Err(InvalidData), reopens;
      }
    }
  }

  /** How many of the `left` bytes a read of at most `want` delivers when it may stop early. */
  function Delivered(want: nat, left: nat, short: nat): (n: nat)
    ensures n <= want && n <= left && (n == 0 <==> want == 0 || left == 0)
  {
    var most := if want < left then want else left;
    if most == 0 then 0 else 1 + short % most
  }

  /** Read from an open file, one call at a time and never more than one byte past the limit, until a read delivers
      nothing. */
  method Drain(view: View, id: nat, first: nat, limit: nat, short: nat -> nat) returns (bytes: seq<byte>, last: nat)
    requires Timeline(view) && id < |view(first).inodes|
    ensures first < last <= first + limit + 2 && id < |view(last).inodes|
    ensures |bytes| <= limit + 1 && bytes <= view(last).inodes[id].content
    ensures |bytes| <= limit ==> bytes == view(last).inodes[id].content
  {
    bytes, last := [], first;
    while true
      invariant first <= last <= first + |bytes| && id < |view(last).inodes|
      invariant |bytes| <= limit + 1 && bytes <= view(last).inodes[id].content
      decreases limit + 1 - |bytes|
    {
      Persists(view, last, last + 1);
      last := last + 1;
      var content := view(last).inodes[id].content;
      var n := Delivered(limit + 1 - |bytes|, |content| - |bytes|, short(last));
      if n == 0 { return; }
      bytes := bytes + content[|bytes|..|bytes| + n];
    }
  }

  /** What read_bounded does with the descriptor it opened at call `at`: the size first, then the bytes. */
  method ReadOpened(view: View, id: nat, at: nat, limit: nat, short: nat -> nat)
    returns (r: Result<seq<byte>, Error>, last: nat)
    requires Timeline(view) && id < |view(at).inodes|
    ensures at + 1 < last && id < |view(last).inodes| && id < |view(at + 2).inodes|
    ensures r.Ok? ==> |r.value| <= limit && r.value == view(last).inodes[id].content
    ensures r.Err? ==> r.error == FileTooLarge && |view(last).inodes[id].content| > limit
    ensures |view(at + 2).inodes[id].content| > limit ==> r.Err? && last == at + 2
    ensures Frozen(view) ==>
      var version := view(at).inodes[id].content; r == if |version| <= limit then Ok(version) else Err(FileTooLarge)
  {
    last := at + 2;
    Persists(view, at, last);
    if |view(last).inodes[id].content| > limit { return Err(FileTooLarge), last; }
    var bytes;
    bytes, last := Drain(view, id, last, limit, short);
    Persists(view, at, last);
    if |bytes| > limit { return Err(FileTooLarge), last; }
    return Ok(bytes), last;
  }

  /**
   read_bounded. `short(k)` decides how early the k-th read stops. A successful
   read holds the whole file as it stood at its last system call, within the
   limit, even if the file grows meanwhile. When writers only rename, it is the
   complete version that the path named at the call that opened it.
   */
  method ReadBounded(view: View, access: Access, me: nat, limit: nat, short: nat -> nat)
    returns (r: Result<seq<byte>, Error>, o: Option<Opened>, last: nat)
    requires Timeline(view)
    ensures o.Some? ==> Validated(view, access, me, o.value) && AllVanished(view, 0, o.value.reopens)
    ensures o.Some? ==> o.value.at == 2 * o.value.reopens
    ensures o.Some? ==> o.value.at + 1 < last && o.value.id < |view(last).inodes|
    ensures r.Ok? ==> o.Some? && |r.value| <= limit && r.value == view(last).inodes[o.value.id].content
    ensures Frozen(view) && o.Some? ==>
      var version := view(o.value.at).inodes[o.value.id].content;
      r == if |version| <= limit then Ok(version) else Err(FileTooLarge)
    ensures o.Some? ==> o.value.id < |view(o.value.at + 2).inodes|
    ensures o.Some? && |view(o.value.at + 2).inodes[o.value.id].content| > limit ==> r.Err? && last == o.value.at + 2
    ensures r == Err(FileTooLarge) ==> o.Some? && |view(last).inodes[o.value.id].content| > limit
    ensures o.None? ==> r.Err? && FailsWith(view, access, me, last, r.error)
  {
    assert GrowsAt(view, 0);
    var first := OpenRecord(view(0));
    if first.Err? { return Err(first.error), None, 0; }
    var open, reopens := OpenValidated(view, access, me, first.value, 0);
    if open.Err? { return Err(open.error), None, 2 * reopens; }
    o := Some(open.value);
    r, last := ReadOpened(view, open.value.id, open.value.at, limit, short);
  }

  /** `content` is a version that the path named at call n. */
  predicate PublishedAt(start: Fs, env: Environment, n: nat, id: nat, content: seq<byte>) {
    var fs := FsAt(start, env, n);
    fs.path == File(id) && id < |fs.inodes| && fs.inodes[id].content == content
  }

  /**
   A read under every schedule of the other processes. When writers publish only
   by renaming, a successful read is exactly one published version within the
   limit; for an Exclusive reader that version had a single link when it was
   checked, after at most eight reopens.
   */
  method ReadRecord(start: Fs, env: Environment, access: Access, me: nat, limit: nat, short: nat -> nat)
    returns (r: Result<seq<byte>, Error>, o: Option<Opened>)
    requires Wf(start)
    ensures r.Ok? ==> o.Some? && |r.value| <= limit && o.value.reopens <= 8
    ensures r.Ok? && OnlyRenames(env) ==> PublishedAt(start, env, o.value.at, o.value.id, r.value)
    ensures r.Ok? && access == Exclusive ==> var fs := FsAt(start, env, o.value.at + 1);
      o.value.id < |fs.inodes| && fs.inodes[o.value.id].links == 1
    ensures r.Ok? && access != Exclusive ==> o.value.reopens == 0 && o.value.at == 0
  {
    ScheduleIsTimeline(start, env);
    var last;
    r, o, last := ReadBounded(ViewOf(start, env), access, me, limit, short);
  }
}
