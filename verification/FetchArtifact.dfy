/**
 Fetching an artefact over as many attempts as it takes: the partial file, the
 ranges asked for, and what reaches extraction.
 */
module FetchArtifact {
  import opened Common

  type Bytes = seq<byte>

  /**
   How the store answers one attempt. It may refuse the range, fail before it
   serves anything, or serve the range asked for or, ignoring it, the whole blob:
   `pieces` are the sizes of the arriving pieces, each at least one byte, after which
   the connection breaks off or closes.
   */
  datatype Answer = Fails | NotSatisfiable | Serves(whole: bool, pieces: seq<nat>, breaks: bool)

  /** An attempt, or the deadline found passed before one. */
  datatype Event = Deadline | Try(answer: Answer)

  datatype Outcome = Finished | Failed | RangeRefused

  datatype Error = DeadlinePassed | WrongSize | WrongDigest | NoFile

  /** The partial file, if it exists. */
  type File = Option<Bytes>

  function Have(f: File): nat {
    if f.Some? then |f.value| else 0
  }

  /** What is left of a failed range request's file: all of it, or nothing when the store starts again. */
  function Base(f: File, whole: bool): Bytes {
    if f.Some? && !whole then f.value else []
  }

  /** The blob from n on. */
  function From(blob: Bytes, n: nat): Bytes {
    if n <= |blob| then blob[n..] else []
  }

  /** How many bytes arrive in pieces, at most n. */
  function Arrived(pieces: seq<nat>, n: nat): (r: nat)
    ensures r <= n
  {
    if pieces == [] then 0
    else
      var before := Arrived(pieces[..|pieces| - 1], n);
      if before + pieces[|pieces| - 1] + 1 <= n then before + pieces[|pieces| - 1] + 1 else n
  }

  /** The file after an attempt, the refused range's removal included. */
  function After(f: File, blob: Bytes, a: Answer): File {
    match a
    case Fails => f
    case NotSatisfiable => None
    case Serves(whole, pieces, _) =>
      var base := Base(f, whole);
      var body := From(blob, |base|);
      Some(base + body[..Arrived(pieces, |body|)])
  }

  /** All n bytes have arrived before the last piece, so their end is seen before the connection breaks off. */
  predicate AllBeforeLast(pieces: seq<nat>, n: nat) {
    pieces != [] && Arrived(pieces[..|pieces| - 1], n) == n
  }

  class Transfer {
    const size: nat
    var file: File

    constructor (size: nat, found: File)
      ensures this.size == size && file == found
    {
      this.size := size;
      file := found;
    }

    /** Fetch what is missing. */
    method Attempt(blob: Bytes, a: Answer) returns (outcome: Outcome)
      modifies this
      ensures outcome.RangeRefused? <==> a.NotSatisfiable?
      ensures a.NotSatisfiable? ==> file == old(file)
      ensures !a.NotSatisfiable? ==> file == After(old(file), blob, a)
      ensures outcome.Finished? <==>
        && a.Serves? && Have(file) >= size
        && (a.breaks ==> AllBeforeLast(a.pieces, |From(blob, |Base(old(file), a.whole)|)|))
    {
      if a.Fails? { return Failed; }
      if a.NotSatisfiable? { return RangeRefused; }
      var offset := Have(file);
      if offset > 0 && a.whole { offset := 0; }
      var body := From(blob, offset);
      var base := if offset > 0 then file.value[..offset] else [];
      ghost var was := Base(file, a.whole);
      assert base == was;
      file := Some(base);
      var ended := Receive(base, body, a.pieces);
      if !ended && a.breaks { return Failed; }
      outcome := if Have(file) < size then Failed else Finished;
    }

    /** Write what arrives behind what was kept, up to the end of the body or of the connection. */
    method Receive(base: Bytes, body: Bytes, pieces: seq<nat>) returns (ended: bool)
      requires file == Some(base)
      modifies this
      ensures file == Some(base + body[..Arrived(pieces, |body|)])
      ensures ended <==> AllBeforeLast(pieces, |body|)
    {
      assert base + body[..0] == base;
      var k, pos := 0, 0;
      while k < |pieces|
        invariant k <= |pieces| && pos == Arrived(pieces[..k], |body|)
        invariant file == Some(base + body[..pos])
        invariant k > 0 ==> Arrived(pieces[..k - 1], |body|) < |body|
      {
        assert pieces[..k + 1][..k] == pieces[..k];
        var end := if pos + pieces[k] + 1 <= |body| then pos + pieces[k] + 1 else |body|;
        var chunk := body[pos..end];
        if chunk == [] {
          StaysArrived(pieces, k, |body|);
          BeforeLast(pieces, k, |body|);
          return true;
        }
        file := Some(file.value + chunk);
        Append(base, body, pos, end);
        pos := end;
        k := k + 1;
      }
      assert pieces[..k] == pieces;
      return false;
    }

    /** Attempt until the recorded size is there, then check it; extraction gets what this returns. The file is
        gone afterwards. */
    method Fetch(blob: Bytes, events: seq<Event>, recorded: string, digest: Bytes -> string)
      returns (r: Result<Bytes, Error>)
      modifies this
      ensures file == None
      ensures r == Checked(RunFile(old(file), blob, events, size), size, recorded, digest)
    {
      var i := 0;
      assert events[0..] == events;
      while Have(file) < size
        invariant i <= |events|
        invariant RunFile(file, blob, events[i..], size) == RunFile(old(file), blob, events, size)
        decreases |events| - i
      {
        if i == |events| || events[i].Deadline? {
          file := None;
          return Err(DeadlinePassed);
        }
        assert events[i..][1..] == events[i + 1..];
        var outcome := Attempt(blob, events[i].answer);
        if outcome.RangeRefused? { file := None; }
        i := i + 1;
      }
      var zip := file;
      file := None;
      if Have(zip) != size { return Err(WrongSize); }
      if zip.None? { return Err(NoFile); }
      if recorded != "" && digest(zip.value) != recorded { return Err(WrongDigest); }
      r := Ok(zip.value);
    }
  }

  lemma Append(base: Bytes, body: Bytes, i: nat, j: nat)
    requires i <= j <= |body|
    ensures base + body[..i] + body[i..j] == base + body[..j]
  {}

  /** Once nothing more arrives, later pieces bring nothing. */
  lemma {:induction false} StaysArrived(pieces: seq<nat>, k: nat, n: nat)
    requires k <= |pieces| && Arrived(pieces[..k], n) == n
    ensures Arrived(pieces, n) == n
    decreases |pieces|
  {
    if k < |pieces| {
      var front := pieces[..|pieces| - 1];
      assert front[..k] == pieces[..k];
      StaysArrived(front, k, n);
    } else {
      assert pieces[..k] == pieces;
    }
  }

  /** All the bytes in the pieces, each of which brings one more than its number. */
  function Total(pieces: seq<nat>): nat {
    if pieces == [] then 0 else pieces[0] + 1 + Total(pieces[1..])
  }

  lemma {:induction false} TotalSnoc(pieces: seq<nat>, last: nat)
    ensures Total(pieces + [last]) == Total(pieces) + last + 1
  {
    if pieces == [] {
      assert pieces + [last] == [last] && [last][1..] == [];
    } else {
      assert (pieces + [last])[1..] == pieces[1..] + [last];
      TotalSnoc(pieces[1..], last);
    }
  }

  /** As much arrives as the pieces bring, and no more than there is. */
  lemma {:induction false} ArrivedIs(pieces: seq<nat>, n: nat)
    ensures Arrived(pieces, n) == if Total(pieces) < n then Total(pieces) else n
  {
    if pieces != [] {
      var front, last := pieces[..|pieces| - 1], pieces[|pieces| - 1];
      ArrivedIs(front, n);
      TotalSnoc(front, last);
      assert pieces == front + [last];
    }
  }

  lemma BeforeLast(pieces: seq<nat>, k: nat, n: nat)
    requires k < |pieces| && Arrived(pieces[..k], n) == n
    ensures Arrived(pieces[..|pieces| - 1], n) == n
  {
    var front := pieces[..|pieces| - 1];
    assert front[..k] == pieces[..k];
    StaysArrived(front, k, n);
  }

  // ------------------------------------------------------------ runs

  /** The file when the loop ends: None as the result when the deadline passed first. */
  function RunFile(f: File, blob: Bytes, events: seq<Event>, size: nat): Option<File>
    decreases |events|
  {
    if Have(f) >= size then Some(f)
    else if events == [] || events[0].Deadline? then None
    else RunFile(After(f, blob, events[0].answer), blob, events[1..], size)
  }

  function Checked(end: Option<File>, size: nat, recorded: string, digest: Bytes -> string): Result<Bytes, Error> {
    if end.None? then Err(DeadlinePassed)
    else if Have(end.value) != size then Err(WrongSize)
    else if end.value.None? then Err(NoFile)
    else if recorded != "" && digest(end.value.value) != recorded then Err(WrongDigest)
    else Ok(end.value.value)
  }

  /** The file holds the blob's first bytes and nothing else. */
  predicate IsPrefix(f: File, blob: Bytes) {
    f.Some? ==> f.value <= blob
  }

  /** Whatever the store does and wherever it breaks off, a prefix stays a prefix. */
  lemma AttemptKeepsPrefix(f: File, blob: Bytes, a: Answer)
    requires IsPrefix(f, blob)
    ensures IsPrefix(After(f, blob, a), blob)
    ensures a.Serves? && !a.whole ==> Have(f) <= Have(After(f, blob, a))
  {
    if a.Serves? {
      var base := Base(f, a.whole);
      var n := Arrived(a.pieces, |blob| - |base|);
      assert base == blob[..|base|];
      assert base + blob[|base|..][..n] == blob[..|base| + n];
    }
  }

  /** The file after the first n events. */
  function FileAt(f: File, blob: Bytes, events: seq<Event>, n: nat): File
    requires n <= |events|
  {
    if n == 0 then f
    else
      var before := FileAt(f, blob, events, n - 1);
      if events[n - 1].Deadline? then before else After(before, blob, events[n - 1].answer)
  }

  /** After every attempt of every run the partial file is a prefix of the blob. */
  lemma {:induction false} AlwaysPrefix(f: File, blob: Bytes, events: seq<Event>, n: nat)
    requires IsPrefix(f, blob) && n <= |events|
    ensures IsPrefix(FileAt(f, blob, events, n), blob)
  {
    if n > 0 {
      AlwaysPrefix(f, blob, events, n - 1);
      if events[n - 1].Try? { AttemptKeepsPrefix(FileAt(f, blob, events, n - 1), blob, events[n - 1].answer); }
    }
  }

  lemma {:induction false} RunEndsInPrefix(f: File, blob: Bytes, events: seq<Event>, size: nat)
    requires IsPrefix(f, blob) && RunFile(f, blob, events, size).Some?
    ensures IsPrefix(RunFile(f, blob, events, size).value, blob)
    decreases |events|
  {
    if Have(f) < size {
      AttemptKeepsPrefix(f, blob, events[0].answer);
      RunEndsInPrefix(After(f, blob, events[0].answer), blob, events[1..], size);
    }
  }

  /** Extraction gets the blob's first `size` bytes with the recorded digest: the whole blob when that is its length. */
  lemma OnlyTheBlobIsExtracted(
      f: File, blob: Bytes, events: seq<Event>, size: nat, recorded: string, digest: Bytes -> string)
    requires IsPrefix(f, blob) && Checked(RunFile(f, blob, events, size), size, recorded, digest).Ok?
    ensures var zip := Checked(RunFile(f, blob, events, size), size, recorded, digest).value;
      && size <= |blob| && zip == blob[..size]
      && (size == |blob| ==> zip == blob)
      && (recorded != "" ==> digest(zip) == recorded)
  {
    RunEndsInPrefix(f, blob, events, size);
  }

  /** An answer that brings everything it set out to. */
  predicate Uninterrupted(f: File, blob: Bytes, a: Answer) {
    a.Serves? && var n := |From(blob, |Base(f, a.whole)|)|; Arrived(a.pieces, n) == n
  }

  /** Whatever failed before, one uninterrupted answer completes the file. */
  lemma UninterruptedCompletes(f: File, blob: Bytes, a: Answer)
    requires IsPrefix(f, blob) && Uninterrupted(f, blob, a)
    ensures After(f, blob, a) == Some(blob)
  {
    var base := Base(f, a.whole);
    var body := From(blob, |base|);
    assert base == blob[..|base|];
    assert body[..|body|] == body && base + body == blob;
  }

  /** With attempts up to one that is uninterrupted, a run ends with the whole blob there. */
  lemma {:induction false} CompletesLater(f: File, blob: Bytes, events: seq<Event>, size: nat, n: nat)
    requires IsPrefix(f, blob) && size == |blob| && n < |events| && (forall i :: 0 <= i <= n ==> events[i].Try?)
    requires Uninterrupted(FileAt(f, blob, events, n), blob, events[n].answer)
    ensures RunFile(f, blob, events, size).Some? && Have(RunFile(f, blob, events, size).value) == size
    decreases |events|
  {
    if Have(f) < size {
      var f' := After(f, blob, events[0].answer);
      AttemptKeepsPrefix(f, blob, events[0].answer);
      if n == 0 {
        UninterruptedCompletes(f, blob, events[0].answer);
      } else {
        FileAtTail(f, blob, events, n);
        CompletesLater(f', blob, events[1..], size, n - 1);
      }
    }
  }

  lemma {:induction false} FileAtTail(f: File, blob: Bytes, events: seq<Event>, n: nat)
    requires 0 < n <= |events| && events[0].Try?
    ensures FileAt(f, blob, events, n) == FileAt(After(f, blob, events[0].answer), blob, events[1..], n - 1)
  {
    if n == 1 {
      assert FileAt(f, blob, events, 0) == f;
    } else {
      FileAtTail(f, blob, events, n - 1);
      assert events[1..][n - 2] == events[n - 1];
    }
  }

  /** Attempts that fail before the store answers cost none of the bytes fetched so far. */
  lemma {:induction false} FailuresKeepTheFile(f: File, blob: Bytes, events: seq<Event>, n: nat)
    requires n <= |events| && forall i :: 0 <= i < n ==> events[i] == Try(Fails)
    ensures FileAt(f, blob, events, n) == f
  {
    if n > 0 { FailuresKeepTheFile(f, blob, events, n - 1); }
  }

  /** With attempts up to one that is uninterrupted, extraction gets the whole blob, unless a digest was recorded and
      the blob's is another, or there was nothing to fetch and no file. */
  lemma CompletedIsExtracted(
      f: File, blob: Bytes, events: seq<Event>, n: nat, recorded: string, digest: Bytes -> string)
    requires IsPrefix(f, blob) && n < |events| && (forall i :: 0 <= i <= n ==> events[i].Try?)
    requires Uninterrupted(FileAt(f, blob, events, n), blob, events[n].answer)
    ensures Checked(RunFile(f, blob, events, |blob|), |blob|, recorded, digest) ==
      if blob == [] && f.None? then Err(NoFile)
      else if recorded != "" && digest(blob) != recorded then Err(WrongDigest)
      else Ok(blob)
  {
    CompletesLater(f, blob, events, |blob|, n);
    RunEndsInPrefix(f, blob, events, |blob|);
    var end := RunFile(f, blob, events, |blob|).value;
    if end.Some? { assert end.value == blob[..|blob|] == blob; }
  }
}
