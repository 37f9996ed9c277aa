/**
 The coverage owner's controller: it admits the recipe's stages and one child
 handshake, message by message, and its final state is read as evidence.
 */
module CoverageOwner {
  import opened Common

  type Command = seq<string>

  /** What the owner fixed before anything ran. A stage's command is the tool, its subcommand and the recipe's
      arguments. */
  datatype Expected = Expected(nonce: string, stages: seq<Command>, runArgv: seq<string>)

  /** Whether the genuine tools still have the digests observed before, or cannot be read. */
  datatype Tools = Unchanged | Changed | Unreadable

  /**
   One message. `contextOk` says whether the child's environment passes every
   check, `saved` whether the handshake's files could be written. An index or exit
   code that is not an integer is None. A malformed message has the wrong fields or
   an unknown kind.
   */
  datatype Message =
    | StageStart(nonce: string, arguments: seq<string>, tools: Tools)
    | Handshake(nonce: string, argv: seq<string>, contextOk: bool, saved: bool)
    | StageFinish(nonce: string, index: Option<int>, exitCode: Option<int>)
    | Malformed(nonce: string)
    | NotAnObject

  datatype Stage = Stage(command: Command, exitCode: int)

  datatype State = State(index: nat, active: Option<nat>, count: nat, stages: seq<Stage>, errors: nat)

  /** The answer: approved, refused with an error on record, or an exception nothing catches. */
  datatype Reply = Approved | Refused | Escaped

  const INIT: State := State(0, None, 0, [], 0)

  /** The arguments the recipe gives the stage. */
  function Arguments(command: Command): seq<string> {
    if |command| >= 2 then command[2..] else []
  }

  function Refuse(s: State): (State, Reply) {
    (s.(errors := s.errors + 1), Refused)
  }

  function Handle(s: State, m: Message, e: Expected): (State, Reply) {
    match m
    case NotAnObject => (s, Escaped)
    case StageStart(nonce, arguments, tools) =>
      if nonce != e.nonce || s.active.Some? || s.index >= |e.stages| then Refuse(s)
      else if arguments != Arguments(e.stages[s.index]) then Refuse(s)
      else if tools.Unreadable? then (s, Escaped)
      else if tools.Changed? then Refuse(s)
      else (s.(active := Some(s.index)), Approved)
    case Handshake(nonce, argv, contextOk, saved) =>
      if nonce != e.nonce || s.active != Some(1) || s.count != 0 || argv != e.runArgv || !contextOk then Refuse(s)
      else (s.(count := 1), if saved then Approved else Escaped)
    case StageFinish(nonce, index, exitCode) =>
      if nonce != e.nonce || index.None? || s.active.None? || index.value != s.active.value || exitCode.None?
      then Refuse(s)
      else if s.index >= |e.stages| then (s, Escaped)
      else
        var logged := s.(stages := s.stages + [Stage(e.stages[s.index], exitCode.value)]);
        if s.index == 1 && s.count != 1 then Refuse(logged)
        else (logged.(active := None, index := s.index + 1), Approved)
    case Malformed(_) => Refuse(s)
  }

  class Controller {
    const expected: Expected
    var index: nat
    var active: Option<nat>
    var count: nat
    var stages: seq<Stage>
    var errors: nat

    constructor (e: Expected)
      ensures expected == e && Current() == INIT
    {
      expected := e;
      index, active, count, stages, errors := 0, None, 0, [], 0;
    }

    function Current(): State
      reads this
    {
      State(index, active, count, stages, errors)
    }

    /** One message under the lock: whatever it raises is recorded and refused, unless nothing catches it. */
    method Receive(m: Message) returns (r: Reply)
      modifies this
      ensures (Current(), r) == Handle(old(Current()), m, expected)
    {
      r := Admit(m);
      if r.Refused? { errors := errors + 1; }
    }

    method Admit(m: Message) returns (r: Reply)
      modifies this
      ensures r.Refused? ==> (Current().(errors := errors + 1), r) == Handle(old(Current()), m, expected)
      ensures !r.Refused? ==> (Current(), r) == Handle(old(Current()), m, expected)
    {
      match m
      case NotAnObject => r := Escaped;
      case Malformed(_) => r := Refused;
      case StageStart(nonce, arguments, tools) =>
        if nonce != expected.nonce || !(active.None? && index < |expected.stages|) { return Refused; }
        var command := expected.stages[index];
        if arguments != Arguments(command) { return Refused; }
        if tools.Unreadable? { return Escaped; }
        if tools.Changed? { return Refused; }
        active := Some(index);
        r := Approved;
      case Handshake(nonce, argv, contextOk, saved) =>
        if nonce != expected.nonce || active != Some(1) { return Refused; }
        if count != 0 || argv != expected.runArgv || !contextOk { return Refused; }
        count := 1;
        r := if saved then Approved else Escaped;
      case StageFinish(nonce, finished, exitCode) =>
        if nonce != expected.nonce || finished.None? || active.None? || finished.value != active.value {
          return Refused;
        }
        if exitCode.None? { return Refused; }
        if index >= |expected.stages| { return Escaped; }
        stages := stages + [Stage(expected.stages[index], exitCode.value)];
        if index == 1 && count != 1 { return Refused; }
        active := None;
        index := index + 1;
        r := Approved;
    }
  }

  // ------------------------------------------------------------ runs

  /** What a message brought about. */
  datatype Event = Started(index: nat) | Shook | Finished(index: nat, exitCode: int)

  function Effect(s: State, m: Message, e: Expected): seq<Event> {
    var (s', _) := Handle(s, m, e);
    if s'.active != s.active && s'.active.Some? then [Started(s'.active.value)]
    else if s'.count != s.count then [Shook]
    else if s'.index != s.index && |s'.stages| > 0 then [Finished(s.index, s'.stages[|s'.stages| - 1].exitCode)]
    else []
  }

  function Run(ms: seq<Message>, e: Expected): State {
    if ms == [] then INIT else Handle(Run(ms[..|ms| - 1], e), ms[|ms| - 1], e).0
  }

  function Trace(ms: seq<Message>, e: Expected): seq<Event> {
    if ms == [] then [] else
      Trace(ms[..|ms| - 1], e) + Effect(Run(ms[..|ms| - 1], e), ms[|ms| - 1], e)
  }

  /** The first n stages, each started and finished before the next, with the handshake inside the second. */
  function Script(n: nat, stages: seq<Stage>): seq<Event>
    requires n <= |stages|
  {
    if n == 0 then [] else
      Script(n - 1, stages) + [Started(n - 1)] + (if n == 2 then [Shook] else [])
      + [Finished(n - 1, stages[n - 1].exitCode)]
  }

  /** What the state says happened. */
  function Told(s: State): seq<Event>
    requires s.index == |s.stages|
  {
    Script(s.index, s.stages)
    + (if s.active.Some? then [Started(s.index)] else [])
    + if s.active == Some(1) && s.count == 1 then [Shook] else []
  }

  predicate Coherent(s: State, e: Expected) {
    && s.index == |s.stages| <= |e.stages|
    && (forall i :: 0 <= i < s.index ==> s.stages[i].command == e.stages[i])
    && (s.active.Some? ==> s.active.value == s.index < |e.stages|)
    && s.count <= 1
    && (s.index >= 2 ==> s.count == 1)
    && (s.index == 0 || (s.index == 1 && s.active.None?) ==> s.count == 0)
  }

  predicate Tells(s: State, trace: seq<Event>, e: Expected) {
    Coherent(s, e) && trace == Told(s)
  }

  lemma {:induction false} ScriptExtends(n: nat, a: seq<Stage>, b: seq<Stage>)
    requires n <= |a| && a <= b
    ensures Script(n, a) == Script(n, b)
  {
    if n > 0 { ScriptExtends(n - 1, a, b); }
  }

  lemma FinishTells(s: State, m: Message, e: Expected)
    requires Coherent(s, e) && m.StageFinish? && Handle(s, m, e).1.Approved?
    ensures var s' := Handle(s, m, e).0; Coherent(s', e) && Told(s') == Told(s) + Effect(s, m, e)
  {
    var s' := Handle(s, m, e).0;
    var n := s.index;
    ScriptExtends(n, s.stages, s'.stages);
    assert Effect(s, m, e) == [Finished(n, s'.stages[n].exitCode)];
    assert Script(n + 1, s'.stages) ==
      Script(n, s.stages) + [Started(n)] + (if n == 1 then [Shook] else []) + [Finished(n, s'.stages[n].exitCode)];
  }

  lemma StartTells(s: State, m: Message, e: Expected)
    requires Coherent(s, e) && m.StageStart? && Handle(s, m, e).1.Approved?
    ensures var s' := Handle(s, m, e).0; Coherent(s', e) && Told(s') == Told(s) + Effect(s, m, e)
  {
    assert Effect(s, m, e) == [Started(s.index)];
    assert Told(s) == Script(s.index, s.stages);
  }

  lemma ShakeTells(s: State, m: Message, e: Expected)
    requires Coherent(s, e) && m.Handshake? && !Handle(s, m, e).1.Refused?
    ensures var s' := Handle(s, m, e).0; Coherent(s', e) && Told(s') == Told(s) + Effect(s, m, e)
  {
    assert Effect(s, m, e) == [Shook];
    assert Told(s) == Script(1, s.stages) + [Started(1)];
  }

  lemma NothingTells(s: State, m: Message, e: Expected)
    requires Handle(s, m, e).0 == s
    ensures Effect(s, m, e) == []
  {}

  lemma StepTells(s: State, m: Message, trace: seq<Event>, e: Expected)
    requires Tells(s, trace, e) && Handle(s, m, e).0.errors == s.errors
    ensures Tells(Handle(s, m, e).0, trace + Effect(s, m, e), e)
  {
    if Handle(s, m, e).0 == s {
      NothingTells(s, m, e);
    } else {
      match m
      case StageStart(_, _, _) => StartTells(s, m, e);
      case Handshake(_, _, _, _) => ShakeTells(s, m, e);
      case StageFinish(_, _, _) => FinishTells(s, m, e);
    }
  }

  /** As long as no error is on record the state tells the trace; an error is never taken back. */
  lemma {:induction false} RunTells(ms: seq<Message>, e: Expected)
    requires Run(ms, e).errors == 0
    ensures Tells(Run(ms, e), Trace(ms, e), e)
  {
    if ms != [] {
      var before := Run(ms[..|ms| - 1], e);
      RunTells(ms[..|ms| - 1], e);
      StepTells(before, ms[|ms| - 1], Trace(ms[..|ms| - 1], e), e);
    }
  }

  /** How many messages were refused. */
  function Refusals(ms: seq<Message>, e: Expected): nat {
    if ms == [] then 0
    else
      var front, last := ms[..|ms| - 1], ms[|ms| - 1];
      Refusals(front, e) + if Handle(Run(front, e), last, e).1.Refused? then 1 else 0
  }

  /** Every refusal is on record, and nothing else. */
  lemma {:induction false} RefusalsAreRecorded(ms: seq<Message>, e: Expected)
    ensures Run(ms, e).errors == Refusals(ms, e)
  {
    if ms != [] { RefusalsAreRecorded(ms[..|ms| - 1], e); }
  }

  // ------------------------------------------------------------ the messages behind the events

  /** A message that brings the event about: it carries the owner's nonce and, to start a stage, the recipe's command
      after its first two words, from unchanged tools; to shake hands, the child's command in a good context; to finish
      a stage, that stage's index and its exit code. */
  predicate Fits(m: Message, v: Event, e: Expected) {
    match v
    case Started(i) =>
      && m.StageStart? && m.nonce == e.nonce && m.tools.Unchanged? && i < |e.stages|
      && m.arguments == if |e.stages[i]| <= 2 then [] else e.stages[i][2..]
    case Shook => m.Handshake? && m.nonce == e.nonce && m.argv == e.runArgv && m.contextOk
    case Finished(i, exitCode) => m == StageFinish(e.nonce, Some(i), Some(exitCode))
  }

  /** A controller without an error on record approves exactly the recipe's next message. It lets an exception escape
      for a message that is no object, for the next start when the tools cannot be read, and for the handshake when its
      files cannot be written; it refuses everything else. */
  lemma ApprovedIsNext(s: State, m: Message, e: Expected)
    requires Coherent(s, e)
    ensures Handle(s, m, e).1.Approved? <==>
      || (s.active.None? && Fits(m, Started(s.index), e))
      || (s.active == Some(1) && s.count == 0 && Fits(m, Shook, e) && m.saved)
      || (s.active.Some? && (s.active == Some(1) ==> s.count == 1) && m.StageFinish? && m.exitCode.Some?
          && Fits(m, Finished(s.index, m.exitCode.value), e))
    ensures Handle(s, m, e).1.Escaped? <==>
      || m.NotAnObject?
      || (s.active.None? && m.StageStart? && m.tools.Unreadable? && Fits(m.(tools := Unchanged), Started(s.index), e))
      || (s.active == Some(1) && s.count == 0 && Fits(m, Shook, e) && !m.saved)
  {}

  lemma EffectFits(s: State, m: Message, e: Expected)
    requires Coherent(s, e)
    ensures var effect := Effect(s, m, e); effect != [] ==> |effect| == 1 && Fits(m, effect[0], e)
  {}

  /** The messages that had an effect, in order. */
  function Taken(ms: seq<Message>, e: Expected): seq<Message> {
    if ms == [] then []
    else
      var front, last := ms[..|ms| - 1], ms[|ms| - 1];
      Taken(front, e) + if Effect(Run(front, e), last, e) == [] then [] else [last]
  }

  lemma {:induction false} TakenFits(ms: seq<Message>, e: Expected)
    requires Run(ms, e).errors == 0
    ensures |Taken(ms, e)| == |Trace(ms, e)|
    ensures forall k :: 0 <= k < |Taken(ms, e)| ==> Fits(Taken(ms, e)[k], Trace(ms, e)[k], e)
  {
    if ms != [] {
      var front := ms[..|ms| - 1];
      TakenFits(front, e);
      RunTells(front, e);
      EffectFits(Run(front, e), ms[|ms| - 1], e);
    }
  }

  // ------------------------------------------------------------ what is accepted

  /** The controller has nothing on record and every one of five stages behind it. */
  predicate Settled(s: State) {
    s.errors == 0 && s.active.None? && s.index == 5
  }

  /** A settled controller has seen exactly the recipe, in order and without overlap, with one handshake inside
      the second stage. */
  lemma SettledIsTheRecipe(ms: seq<Message>, e: Expected)
    requires |e.stages| == 5 && Settled(Run(ms, e))
    ensures var log := Run(ms, e).stages;
      && |log| == 5 && (forall i :: 0 <= i < 5 ==> log[i].command == e.stages[i])
      && Run(ms, e).count == 1
      && Trace(ms, e) == [Started(0), Finished(0, log[0].exitCode), Started(1), Shook, Finished(1, log[1].exitCode),
                          Started(2), Finished(2, log[2].exitCode), Started(3), Finished(3, log[3].exitCode),
                          Started(4), Finished(4, log[4].exitCode)]
  {
    RunTells(ms, e);
    ScriptOfFive(Run(ms, e).stages);
  }

  /**
   What `execute` accepts: make succeeded, the controller is settled after one
   handshake, the receipt lists the recipe's commands with exit code 0 each, and
   the child's own evidence passes.
   */
  predicate Accepted(s: State, e: Expected, status: int, evidence: bool) {
    && status == 0 && Settled(s) && s.count == 1 && evidence
    && |s.stages| == |e.stages|
    && forall i :: 0 <= i < |s.stages| ==> s.stages[i] == Stage(e.stages[i], 0)
  }

  /**
   For every sequence of messages, an accepted run is the recipe with every stage
   succeeding, and the messages that brought it about are eleven: each start with
   its stage's arguments, each finish with its stage's index and exit code 0, and
   the child's handshake, all with the owner's nonce.
   */
  lemma AcceptedIsTheRecipe(ms: seq<Message>, e: Expected, status: int, evidence: bool)
    requires |e.stages| == 5 && Accepted(Run(ms, e), e, status, evidence)
    ensures Trace(ms, e) == [Started(0), Finished(0, 0), Started(1), Shook, Finished(1, 0), Started(2), Finished(2, 0),
                             Started(3), Finished(3, 0), Started(4), Finished(4, 0)]
    ensures |Taken(ms, e)| == 11
    ensures forall k :: 0 <= k < 11 ==> Fits(Taken(ms, e)[k], Trace(ms, e)[k], e)
  {
    SettledIsTheRecipe(ms, e);
    TakenFits(ms, e);
  }

  lemma ScriptOfFive(log: seq<Stage>)
    requires |log| == 5
    ensures Script(5, log) == [
      Started(0), Finished(0, log[0].exitCode), Started(1), Shook, Finished(1, log[1].exitCode),
      Started(2), Finished(2, log[2].exitCode), Started(3), Finished(3, log[3].exitCode),
      Started(4), Finished(4, log[4].exitCode)]
  {
    assert Script(1, log) == [Started(0), Finished(0, log[0].exitCode)];
    assert Script(2, log) == Script(1, log) + [Started(1), Shook, Finished(1, log[1].exitCode)];
    assert Script(3, log) == Script(2, log) + [Started(2), Finished(2, log[2].exitCode)];
    assert Script(4, log) == Script(3, log) + [Started(3), Finished(3, log[3].exitCode)];
    assert Script(5, log) == Script(4, log) + [Started(4), Finished(4, log[4].exitCode)];
  }

  // ------------------------------------------------------------ make coverage

  /** What the machine does with an honest recipe: each stage's tools and exit code, and how the child's handshake
      fares. */
  datatype Host = Host(tools: seq<Tools>, exits: seq<int>, contextOk: bool, saved: bool)

  predicate Covers(host: Host, e: Expected) {
    |host.tools| == |host.exits| == |e.stages|
  }

  /** The exit code of a wrapper or child whose request was not approved. */
  const FAILED: int := 1

  function ReplyTo(ms: seq<Message>, m: Message, e: Expected): Reply {
    Handle(Run(ms, e), m, e).1
  }

  function StartOf(n: nat, e: Expected, host: Host): Message
    requires n < |e.stages| && Covers(host, e)
  {
    StageStart(e.nonce, Arguments(e.stages[n]), host.tools[n])
  }

  function ShakeOf(e: Expected, host: Host): Message {
    Handshake(e.nonce, e.runArgv, host.contextOk, host.saved)
  }

  /** The wrapper reports its command's exit code and passes it on to make, if the report is taken. */
  function Finish(ms: seq<Message>, n: nat, exitCode: int, e: Expected): (seq<Message>, int) {
    var finish := StageFinish(e.nonce, Some(n), Some(exitCode));
    (ms + [finish], if ReplyTo(ms, finish, e).Approved? then exitCode else FAILED)
  }

  /** One stage: announced, run, reported. The instrumented stage fails if its child's handshake is not approved. */
  function RunStage(ms: seq<Message>, n: nat, e: Expected, host: Host): (seq<Message>, int)
    requires n < |e.stages| && Covers(host, e)
  {
    var start, shake := StartOf(n, e, host), ShakeOf(e, host);
    if !ReplyTo(ms, start, e).Approved? then (ms + [start], FAILED)
    else if n == 1 then
      var exitCode := if ReplyTo(ms + [start], shake, e).Approved? then host.exits[n] else FAILED;
      Finish(ms + [start] + [shake], n, exitCode, e)
    else Finish(ms + [start], n, host.exits[n], e)
  }

  /** make: stage after stage until one fails. */
  function Make(n: nat, e: Expected, host: Host): (seq<Message>, int)
    requires n <= |e.stages| && Covers(host, e)
  {
    if n == 0 then ([], 0)
    else
      var (ms, status) := Make(n - 1, e, host);
      if status != 0 then (ms, status) else RunStage(ms, n - 1, e, host)
  }

  /** Nothing goes wrong in the first n stages. */
  predicate Clean(host: Host, n: nat)
    requires n <= |host.tools| && n <= |host.exits|
  {
    && (forall i :: 0 <= i < n ==> host.tools[i].Unchanged? && host.exits[i] == 0)
    && (n >= 2 ==> host.contextOk && host.saved)
  }

  /** The controller after n stages that all succeeded. */
  function Behind(n: nat, e: Expected): State
    requires n <= |e.stages|
  {
    State(n, None, if n >= 2 then 1 else 0, seq(n, i requires 0 <= i < n => Stage(e.stages[i], 0)), 0)
  }

  lemma RunOne(ms: seq<Message>, m: Message, e: Expected)
    ensures Run(ms + [m], e) == Handle(Run(ms, e), m, e).0
  {
    assert (ms + [m])[..|ms|] == ms;
  }

  lemma FinishIs(ms: seq<Message>, n: nat, exitCode: int, e: Expected)
    requires n < |e.stages| && Run(ms, e) == Behind(n, e).(active := Some(n), count := if n >= 1 then 1 else 0)
    ensures Finish(ms, n, exitCode, e).1 == exitCode
    ensures exitCode == 0 ==> Run(Finish(ms, n, exitCode, e).0, e) == Behind(n + 1, e)
  {
    RunOne(ms, StageFinish(e.nonce, Some(n), Some(exitCode)), e);
    assert Behind(n + 1, e).stages == Behind(n, e).stages + [Stage(e.stages[n], 0)];
  }

  lemma RunStageIs(ms: seq<Message>, n: nat, e: Expected, host: Host)
    requires n < |e.stages| && Covers(host, e) && Run(ms, e) == Behind(n, e)
    ensures RunStage(ms, n, e, host).1 == 0 <==>
      host.tools[n].Unchanged? && host.exits[n] == 0 && (n == 1 ==> host.contextOk && host.saved)
    ensures RunStage(ms, n, e, host).1 == 0 ==> Run(RunStage(ms, n, e, host).0, e) == Behind(n + 1, e)
  {
    var start, shake := StartOf(n, e, host), ShakeOf(e, host);
    RunOne(ms, start, e);
    if host.tools[n].Unchanged? {
      if n == 1 { ShakenStageIs(ms + [start], e, host); } else { FinishIs(ms + [start], n, host.exits[n], e); }
    }
  }

  lemma ShakenStageIs(ms: seq<Message>, e: Expected, host: Host)
    requires 1 < |e.stages| && Covers(host, e) && Run(ms, e) == Behind(1, e).(active := Some(1))
    ensures var ok := ReplyTo(ms, ShakeOf(e, host), e).Approved?;
      var (sent, status) := Finish(ms + [ShakeOf(e, host)], 1, if ok then host.exits[1] else FAILED, e);
      && (status == 0 <==> host.exits[1] == 0 && host.contextOk && host.saved)
      && (status == 0 ==> Run(sent, e) == Behind(2, e))
  {
    var sent := ms + [ShakeOf(e, host)];
    RunOne(ms, ShakeOf(e, host), e);
    if host.contextOk {
      FinishIs(sent, 1, if host.saved then host.exits[1] else FAILED, e);
    } else {
      RunOne(sent, StageFinish(e.nonce, Some(1), Some(FAILED)), e);
    }
  }

  /** make's status and messages after n stages, all of which succeed exactly when `ok`. */
  predicate Outcome(r: (seq<Message>, int), ok: bool, n: nat, e: Expected)
    requires n <= |e.stages|
  {
    (r.1 == 0 <==> ok) && (r.1 == 0 ==> Run(r.0, e) == Behind(n, e))
  }

  lemma NextStage(r: (seq<Message>, int), n: nat, e: Expected, host: Host)
    requires n < |e.stages| && Covers(host, e) && Outcome(r, Clean(host, n), n, e)
    ensures Outcome(if r.1 != 0 then r else RunStage(r.0, n, e, host), Clean(host, n + 1), n + 1, e)
  {
    if r.1 == 0 { RunStageIs(r.0, n, e, host); }
  }

  lemma NoStage(e: Expected, host: Host)
    requires Covers(host, e)
    ensures Outcome(Make(0, e, host), Clean(host, 0), 0, e)
  {
    assert Behind(0, e).stages == [];
  }

  lemma OneMoreStage(n: nat, e: Expected, host: Host)
    requires n < |e.stages| && Covers(host, e) && Outcome(Make(n, e, host), Clean(host, n), n, e)
    ensures Outcome(Make(n + 1, e, host), Clean(host, n + 1), n + 1, e)
  {
    NextStage(Make(n, e, host), n, e, host);
  }

  lemma {:induction false} MakeSucceedsIff(n: nat, e: Expected, host: Host)
    requires n <= |e.stages| && Covers(host, e)
    ensures Outcome(Make(n, e, host), Clean(host, n), n, e)
  {
    if n == 0 {
      NoStage(e, host);
    } else {
      MakeSucceedsIff(n - 1, e, host);
      OneMoreStage(n - 1, e, host);
    }
  }

  /**
   An honest run of the five stages is accepted exactly when the tools are
   unchanged, the child's context passes, the handshake's files are saved, every
   stage exits with 0 and the child's evidence passes.
   */
  lemma HonestRunIsAcceptedIff(e: Expected, host: Host, evidence: bool)
    requires |e.stages| == 5 && Covers(host, e)
    ensures var (ms, status) := Make(5, e, host);
      Accepted(Run(ms, e), e, status, evidence) <==> Clean(host, 5) && evidence
  {
    MakeSucceedsIff(5, e, host);
  }
}
