/** The connect requests (Network/Client/ServerCommands.cpp) and their handler (Utility/RequestHandler.cpp). */
module Requests {
  import opened Options

  // ---------------------------------------------------------------------------------------------
  // One chain of requests

  /**
   * The request that a chain is at. Connecting takes the first four; Single stands for a status or an
   * information request, which is a chain of its own.
   */
  datatype Stage =
    | Version
    | Challenge(numRetries: nat)
    | Authorize(numRetries: nat)
    | Connect(numRetries: nat)
    | Single

  /** A reply by its command; for the first one, whether its protocol is supported. */
  datatype Reply =
    | InfoResponse(supported: bool)
    | StatusResponse
    | GetKey
    | ChallengeResponse
    | ConnectResponse
    | DropError
    | Print
    | ServerFull
    | Unknown

  /** What the caller is told: the answer, an error, or that time ran out. */
  datatype Call = Answered | Failed | TimedOut

  /** What a request does with an input: it stays, a new request follows, or the chain ends, perhaps with a call. */
  datatype Outcome = Stay(stage: Stage) | Follow(stage: Stage) | End(call: Option<Call>)

  predicate SupportsEvent(stage: Stage, reply: Reply) {
    match stage
    case Version => reply.InfoResponse?
    case Challenge(_) => reply.GetKey? || reply.ChallengeResponse?
    case Authorize(_) => reply.GetKey? || reply.ChallengeResponse?
    case Connect(_) => reply.ConnectResponse? || reply.DropError? || reply.Print? || reply.ServerFull?
    case Single => reply.InfoResponse? || reply.StatusResponse?
  }

  /** handleResponse of the five. */
  function HandleResponse(stage: Stage, reply: Reply): Outcome
    requires SupportsEvent(stage, reply)
  {
    match stage
    case Version => if reply.supported then Follow(Challenge(0)) else End(None)
    case Challenge(_) => if reply.GetKey? then Follow(Authorize(0)) else Follow(Connect(0))
    case Authorize(_) => if reply.ChallengeResponse? then Follow(Connect(0)) else End(None)
    case Connect(numRetries) =>
      if reply.DropError? then End(Some(Failed))
      else if reply.ServerFull? then End(None)
      else if reply.Print? then (if numRetries < 5 then Stay(Connect(numRetries + 1)) else End(None))
      else End(Some(Answered))
    case Single => End(Some(Answered))
  }

  /** timedOut of the five. */
  function HandleTimeOut(stage: Stage): Outcome {
    match stage
    case Version => End(Some(TimedOut))
    case Challenge(numRetries) =>
      if numRetries > 5 then End(Some(TimedOut)) else Stay(Challenge(numRetries + 1))
    case Authorize(numRetries) =>
      if numRetries > 2 then End(Some(TimedOut)) else Stay(Authorize(numRetries + 1))
    case Connect(numRetries) =>
      if numRetries > 5 then End(Some(TimedOut)) else Stay(Connect(numRetries + 1))
    case Single => End(Some(TimedOut))
  }

  /** Inputs that a chain takes at most: retries of the stage, then the stages after it. */
  function Remaining(stage: Stage): nat {
    match stage
    case Single => 1
    case Connect(numRetries) => if numRetries > 6 then 1 else 7 - numRetries
    case Authorize(numRetries) => 7 + if numRetries > 3 then 1 else 4 - numRetries
    case Challenge(numRetries) => 11 + if numRetries > 6 then 1 else 7 - numRetries
    case Version => 19
  }

  datatype Input = Received(reply: Reply) | TimeOut

  /** An input that the request takes. */
  predicate Accepts(stage: Stage, input: Input) {
    input.Received? ==> SupportsEvent(stage, input.reply)
  }

  function Handle(stage: Stage, input: Input): Outcome
    requires Accepts(stage, input)
  {
    if input.Received? then HandleResponse(stage, input.reply) else HandleTimeOut(stage)
  }

  lemma HandleProgresses(stage: Stage, input: Input)
    requires Accepts(stage, input)
    ensures !Handle(stage, input).End? ==> Remaining(Handle(stage, input).stage) < Remaining(stage)
  {
  }

  /** A chain under way or ended, with the calls it has made. */
  datatype Chain = Running(at: Stage) | Ended(call: Option<Call>)

  /** A chain after one input; a reply that it does not support is left alone. */
  function Advance(chain: Chain, input: Input): Chain {
    if chain.Ended? || !Accepts(chain.at, input) then chain
    else
      match Handle(chain.at, input)
      case Stay(stage) => Running(stage)
      case Follow(stage) => Running(stage)
      case End(call) => Ended(call)
  }

  function RunChain(chain: Chain, inputs: seq<Input>): Chain {
    if inputs == [] then chain else Advance(RunChain(chain, inputs[..|inputs| - 1]), inputs[|inputs| - 1])
  }

  /** The inputs of a run that the chain took. */
  function Taken(chain: Chain, inputs: seq<Input>): nat {
    if inputs == [] then 0
    else
      var front, last := inputs[..|inputs| - 1], inputs[|inputs| - 1];
      var before := RunChain(chain, front);
      Taken(chain, front) + if before.Running? && Accepts(before.at, last) then 1 else 0
  }

  /** Every run ends a chain after a bounded number of inputs that it takes: 19 for a whole connect. */
  lemma {:induction false} ChainEnds(stage: Stage, inputs: seq<Input>)
    ensures var after := RunChain(Running(stage), inputs);
            && Taken(Running(stage), inputs) <= Remaining(stage)
            && (after.Running? ==> Taken(Running(stage), inputs) + Remaining(after.at) <= Remaining(stage))
  {
    if inputs != [] {
      var front, last := inputs[..|inputs| - 1], inputs[|inputs| - 1];
      ChainEnds(stage, front);
      var before := RunChain(Running(stage), front);
      if before.Running? && Accepts(before.at, last) {
        HandleProgresses(before.at, last);
      }
    }
  }

  /** Time running out again and again: after so many inputs, every chain has told its caller that it timed out. */
  lemma {:induction false} SilenceEnds(stage: Stage, inputs: seq<Input>)
    requires forall i :: 0 <= i < |inputs| ==> inputs[i] == TimeOut
    requires |inputs| >= Remaining(stage)
    ensures RunChain(Running(stage), inputs) == Ended(Some(TimedOut))
  {
    SilenceTaken(stage, inputs);
    ChainEnds(stage, inputs);
  }

  lemma {:induction false} SilenceTaken(stage: Stage, inputs: seq<Input>)
    requires forall i :: 0 <= i < |inputs| ==> inputs[i] == TimeOut
    ensures var after := RunChain(Running(stage), inputs);
            (after.Running? && Taken(Running(stage), inputs) == |inputs|) || after == Ended(Some(TimedOut))
  {
    if inputs != [] {
      SilenceTaken(stage, inputs[..|inputs| - 1]);
    }
  }

  lemma {:induction false} RunFirst(chain: Chain, input: Input, rest: seq<Input>)
    ensures RunChain(chain, [input] + rest) == RunChain(Advance(chain, input), rest)
  {
    var all := [input] + rest;
    if rest == [] {
      assert all[..0] == [];
    } else {
      RunFirst(chain, input, rest[..|rest| - 1]);
      assert all[..|all| - 1] == [input] + rest[..|rest| - 1];
    }
  }

  /** Retries as a chain counts them. */
  predicate InRange(stage: Stage) {
    match stage
    case Challenge(numRetries) => numRetries <= 6
    case Authorize(numRetries) => numRetries <= 3
    case Connect(numRetries) => numRetries <= 6
    case _ => true
  }

  /** The bound is the best one: some run is still going one input before it. */
  lemma {:induction false} BoundIsReached(stage: Stage) returns (inputs: seq<Input>)
    requires InRange(stage)
    ensures |inputs| == Remaining(stage) - 1 && RunChain(Running(stage), inputs).Running?
    decreases Remaining(stage)
  {
    if Remaining(stage) == 1 {
      inputs := [];
    } else {
      var input := match stage
        case Version => Received(InfoResponse(true))
        case Challenge(numRetries) => if numRetries < 6 then TimeOut else Received(GetKey)
        case Authorize(numRetries) => if numRetries < 3 then TimeOut else Received(ChallengeResponse)
        case _ => TimeOut;
      var next := Advance(Running(stage), input);
      var rest := BoundIsReached(next.at);
      RunFirst(Running(stage), input, rest);
      inputs := [input] + rest;
    }
  }

  // ---------------------------------------------------------------------------------------------
  // What an end tells

  /** The inputs hold these, in this order, and others in between. */
  predicate InOrder(these: seq<Input>, inputs: seq<Input>)
    decreases |inputs|
  {
    these == [] ||
    (inputs != [] &&
      var front, last := inputs[..|inputs| - 1], |these| - 1;
      InOrder(these, front) || (inputs[|inputs| - 1] == these[last] && InOrder(these[..last], front)))
  }

  /** What has come in still has, and with the last input behind it. */
  lemma Longer(these: seq<Input>, inputs: seq<Input>, last: Input)
    requires InOrder(these, inputs)
    ensures InOrder(these, inputs + [last]) && InOrder(these + [last], inputs + [last])
  {
    assert (inputs + [last])[..|inputs|] == inputs;
    assert (these + [last])[..|these|] == these;
  }

  /** The first of them came in, too. */
  lemma {:induction false} Shorter(these: seq<Input>, next: Input, inputs: seq<Input>)
    requires InOrder(these + [next], inputs)
    ensures InOrder(these, inputs)
  {
    var front, all := inputs[..|inputs| - 1], these + [next];
    if InOrder(all, front) {
      Shorter(these, next, front);
    } else {
      assert all[..|these|] == these && InOrder(these, front);
    }
    Longer(these, front, inputs[|inputs| - 1]);
    assert front + [inputs[|inputs| - 1]] == inputs;
  }

  const SUPPORTED := Received(InfoResponse(true))
  const CHALLENGED := Received(ChallengeResponse)
  const CONNECTED := Received(ConnectResponse)

  /** What has come in when a connect is at a stage, or has ended with or without a call. */
  predicate Deserved(chain: Chain, inputs: seq<Input>) {
    match chain
    case Running(Version) => true
    case Running(Challenge(_)) => InOrder([SUPPORTED], inputs)
    case Running(Authorize(_)) => InOrder([SUPPORTED, Received(GetKey)], inputs)
    case Running(Connect(_)) => InOrder([SUPPORTED, CHALLENGED], inputs)
    case Running(Single) => false
    case Ended(None) =>
      || InOrder([Received(InfoResponse(false))], inputs)
      || InOrder([SUPPORTED, Received(GetKey), Received(GetKey)], inputs)
      || InOrder([SUPPORTED, CHALLENGED, Received(ServerFull)], inputs)
      || InOrder([SUPPORTED, CHALLENGED, Received(Print)], inputs)
    case Ended(Some(Answered)) => InOrder([SUPPORTED, CHALLENGED, CONNECTED], inputs)
    case Ended(Some(Failed)) => InOrder([SUPPORTED, CHALLENGED, Received(DropError)], inputs)
    case Ended(Some(TimedOut)) => InOrder([TimeOut], inputs)
  }

  /**
   * A connect is answered only after a supported version, a challenge and the connect response, in this order,
   * and fails only with a dropping error after the first two; only a time-out makes it tell of one, and it ends
   * without a call for the four reasons that there are.
   */
  lemma {:induction false} ConnectDeserves(inputs: seq<Input>)
    ensures Deserved(RunChain(Running(Version), inputs), inputs)
  {
    if inputs != [] {
      var front, last := inputs[..|inputs| - 1], inputs[|inputs| - 1];
      ConnectDeserves(front);
      DeservesMore(RunChain(Running(Version), front), front, last);
      assert front + [last] == inputs;
    }
  }

  lemma DeservesMore(chain: Chain, inputs: seq<Input>, last: Input)
    requires Deserved(chain, inputs)
    ensures Deserved(Advance(chain, last), inputs + [last])
  {
    if chain.Ended? {
      StaysDeserved(chain, inputs, last);
    } else {
      Longer([], inputs, last);
      assert [] + [last] == [last];
      match chain.at {
        case Version =>
        case Challenge(_) =>
          Longer([SUPPORTED], inputs, last);
          assert [SUPPORTED] + [last] == [SUPPORTED, last];
        case Authorize(_) =>
          var keyed := [SUPPORTED, Received(GetKey)];
          assert [SUPPORTED] + [Received(GetKey)] == keyed;
          Shorter([SUPPORTED], Received(GetKey), inputs);
          Longer([SUPPORTED], inputs, last);
          Longer(keyed, inputs, last);
          assert [SUPPORTED] + [last] == [SUPPORTED, last] && keyed + [last] == [SUPPORTED, Received(GetKey), last];
        case Connect(_) =>
          Longer([SUPPORTED, CHALLENGED], inputs, last);
          assert [SUPPORTED, CHALLENGED] + [last] == [SUPPORTED, CHALLENGED, last];
        case Single =>
      }
    }
  }

  lemma StaysDeserved(chain: Chain, inputs: seq<Input>, last: Input)
    requires chain.Ended? && Deserved(chain, inputs)
    ensures Deserved(chain, inputs + [last])
  {
    assert (inputs + [last])[..|inputs|] == inputs;
  }

  lemma {:induction false} RunBoth(chain: Chain, first: seq<Input>, second: seq<Input>)
    ensures RunChain(chain, first + second) == RunChain(RunChain(chain, first), second)
  {
    if second == [] {
      assert first + second == first;
    } else {
      var n := |second| - 1;
      RunBoth(chain, first, second[..n]);
      assert (first + second)[..|first| + n] == first + second[..n];
    }
  }

  function Silence(n: nat): seq<Input> {
    seq(n, _ => TimeOut)
  }

  /** A stage after more retries. */
  function Tried(stage: Stage, n: nat): Stage {
    match stage
    case Challenge(numRetries) => Challenge(numRetries + n)
    case Authorize(numRetries) => Authorize(numRetries + n)
    case Connect(numRetries) => Connect(numRetries + n)
    case _ => stage
  }

  /** Up to six time-outs, three for the authorization, only let a stage send its request again. */
  lemma {:induction false} Waits(stage: Stage, n: nat)
    requires stage.Challenge? || stage.Authorize? || stage.Connect?
    requires InRange(Tried(stage, n))
    ensures RunChain(Running(stage), Silence(n)) == Running(Tried(stage, n))
  {
    if n > 0 {
      Waits(stage, n - 1);
      assert Silence(n)[..n - 1] == Silence(n - 1);
    }
  }

  lemma Then(at: Stage, before: seq<Input>, input: Input, more: seq<Input>, next: Stage, last: Stage)
    requires RunChain(Running(Version), before) == Running(at)
    requires Advance(Running(at), input) == Running(next) && RunChain(Running(next), more) == Running(last)
    ensures RunChain(Running(Version), before + [input] + more) == Running(last)
  {
    assert (before + [input])[..|before|] == before;
    RunBoth(Running(Version), before + [input], more);
  }

  lemma ChallengeWaits(i: nat)
    requires i <= 6
    ensures RunChain(Running(Version), [SUPPORTED] + Silence(i)) == Running(Challenge(i))
  {
    Waits(Challenge(0), i);
    Then(Version, [], SUPPORTED, Silence(i), Challenge(0), Challenge(i));
    assert [] + [SUPPORTED] + Silence(i) == [SUPPORTED] + Silence(i);
  }

  lemma KeyWaits(before: seq<Input>, i: nat, j: nat)
    requires RunChain(Running(Version), before) == Running(Challenge(i)) && j <= 3
    ensures RunChain(Running(Version), before + [Received(GetKey)] + Silence(j)) == Running(Authorize(j))
  {
    Waits(Authorize(0), j);
    Then(Challenge(i), before, Received(GetKey), Silence(j), Authorize(0), Authorize(j));
  }

  lemma ConnectAnswers(at: Stage, before: seq<Input>, k: nat)
    requires RunChain(Running(Version), before) == Running(at) && (at.Challenge? || at.Authorize?) && k <= 6
    ensures RunChain(Running(Version), before + [CHALLENGED] + Silence(k) + [CONNECTED]) == Ended(Some(Answered))
  {
    Waits(Connect(0), k);
    Then(at, before, CHALLENGED, Silence(k), Connect(0), Connect(k));
    var all := before + [CHALLENGED] + Silence(k);
    assert (all + [CONNECTED])[..|all|] == all;
  }

  function Prints(n: nat): seq<Input> {
    seq(n, _ => Received(Print))
  }

  /** The connect request takes five prints, retries after time-outs counted, and gives up at the next one. */
  lemma {:induction false} PrintsEnd(k: nat, n: nat)
    requires k <= 5
    ensures RunChain(Running(Connect(k)), Prints(n)) == if k + n <= 5 then Running(Connect(k + n)) else Ended(None)
  {
    if n > 0 {
      PrintsEnd(k, n - 1);
      assert Prints(n)[..n - 1] == Prints(n - 1);
    }
  }

  /** A connect is answered with the right replies, however often its stages time out before, within their retries. */
  lemma HandshakeAnswers(i: nat, j: nat, k: nat)
    requires i <= 6 && j <= 3 && k <= 6
    ensures RunChain(Running(Version), [SUPPORTED] + Silence(i) + [CHALLENGED] + Silence(k) + [CONNECTED])
         == Ended(Some(Answered))
    ensures RunChain(Running(Version), [SUPPORTED] + Silence(i) + [Received(GetKey)] + Silence(j) + [CHALLENGED]
                                       + Silence(k) + [CONNECTED])
         == Ended(Some(Answered))
  {
    var waited := [SUPPORTED] + Silence(i);
    var keyed := waited + [Received(GetKey)] + Silence(j);
    ChallengeWaits(i);
    KeyWaits(waited, i, j);
    ConnectAnswers(Challenge(i), waited, k);
    ConnectAnswers(Authorize(j), keyed, k);
  }

  // ---------------------------------------------------------------------------------------------
  // The handler

  /** A request that a caller sends: the start of a chain. One that need not be processed ends as it is sent. */
  datatype Request = Request(id: nat, stage: Stage, mustProcess: bool)

  datatype Pending = Pending(request: Request, timeout: nat)

  /** A time of 0 milliseconds stands for none. */
  function DeferredTime(stage: Stage, settings: Settings): nat {
    match stage
    case Challenge(_) => settings.deferredChallenge
    case Connect(_) => settings.deferredConnect
    case _ => 0
  }

  datatype Settings = Settings(deferredChallenge: nat, deferredConnect: nat)

  /** The time that a stage sets for itself, or the one that is asked for. */
  function TimeoutTime(stage: Stage, timeout: nat): nat {
    match stage
    case Challenge(_) => 3000
    case Authorize(_) => 5500
    case Connect(_) => 3000
    case _ => timeout
  }

  /** The numbers of the chains in a list of pending ones. */
  function Ids(pending: seq<Pending>): (r: seq<nat>)
    ensures |r| == |pending|
  {
    seq(|pending|, i requires 0 <= i < |pending| => pending[i].request.id)
  }

  ghost predicate NoneTwice(ids: seq<nat>) {
    forall i, j :: 0 <= i < j < |ids| ==> ids[i] != ids[j]
  }

  class IncomingMessageHandler {
    const settings: Settings
    var request: Option<Request>
    var startTime: nat
    var timeoutTime: nat
    var deferTime: nat
    var pendingRequests: seq<Pending>

    /** The chains in the order in which callers sent them, those that have begun, and the calls with their chains. */
    ghost var sent: seq<nat>
    ghost var begun: seq<nat>
    ghost var called: seq<nat>

    /**
     * Chains begin in the order in which they were sent: the pending ones are what is left. Only while a chain
     * is active are others pending; it is the last one that began, and it has not called yet.
     */
    ghost predicate Valid()
      reads this
    {
      && sent == begun + Ids(pendingRequests)
      && NoneTwice(sent) && NoneTwice(called)
      && (forall i :: 0 <= i < |called| ==> called[i] in begun)
      && (request.None? ==> pendingRequests == [])
      && (request.Some? ==> Active(request.value.id))
      && startTime <= timeoutTime
    }

    ghost predicate Active(id: nat)
      reads this
    {
      begun != [] && begun[|begun| - 1] == id && id !in called
    }

    constructor (settings: Settings)
      ensures Valid() && request == None && sent == [] && called == []
    {
      this.settings, request, pendingRequests := settings, None, [];
      startTime, timeoutTime, deferTime := 0, 0, 0;
      sent, begun, called := [], [], [];
    }

    /** The times of a request of that stage that starts now. */
    ghost predicate Started(stage: Stage, timeout: nat, now: nat)
      reads this
    {
      var wait := DeferredTime(stage, settings);
      && startTime == now
      && deferTime == (if wait > 0 then now + wait else 0)
      && timeoutTime == now + wait + TimeoutTime(stage, timeout)
    }

    /** startRequest: the times, from now on. */
    method StartRequest(stage: Stage, timeout: nat, now: nat)
      modifies this`startTime, this`timeoutTime, this`deferTime
      ensures Started(stage, timeout, now)
    {
      startTime := now;
      var time := DeferredTime(stage, settings);
      if time > 0 {
        deferTime := startTime + time;
      } else {
        deferTime := 0;
      }
      var length := TimeoutTime(stage, timeout);
      if deferTime == 0 {
        timeoutTime := startTime + length;
      } else {
        timeoutTime := deferTime + length;
      }
    }

    /** sendRequest, as a caller calls it. */
    method SendRequest(newRequest: Request, timeout: nat, now: nat)
      requires Valid() && newRequest.id !in sent
      modifies this
      ensures Valid() && sent == old(sent) + [newRequest.id] && called == old(called)
      ensures if old(request).Some? then
                && request == old(request) && begun == old(begun)
                && pendingRequests == old(pendingRequests) + [Pending(newRequest, timeout)]
              else
                && request == (if newRequest.mustProcess then Some(newRequest) else None)
                && begun == old(begun) + [newRequest.id] && pendingRequests == []
    {
      sent := sent + [newRequest.id];
      if request.Some? {
        pendingRequests := pendingRequests + [Pending(newRequest, timeout)];
        return;
      }
      begun := begun + [newRequest.id];
      StartRequest(newRequest.stage, timeout, now);
      if newRequest.mustProcess {
        request := Some(newRequest);
      } else {
        Dequeue(now);
      }
    }

    /** dequeRequest: the pending requests up to the first that must be processed. */
    method Dequeue(now: nat)
      requires request.None? && sent == begun + Ids(pendingRequests) && NoneTwice(sent) && NoneTwice(called)
      requires forall i :: 0 <= i < |called| ==> called[i] in begun
      requires startTime <= timeoutTime
      modifies this`request, this`startTime, this`timeoutTime, this`deferTime, this`pendingRequests, this`begun
      ensures Valid()
      ensures |old(pendingRequests)| >= |pendingRequests|
      ensures var n := |old(pendingRequests)| - |pendingRequests|;
              && pendingRequests == old(pendingRequests)[n..]
              && begun == old(begun) + Ids(old(pendingRequests)[..n])
              && (forall i :: 0 <= i < n - 1 ==> !old(pendingRequests)[i].request.mustProcess)
              && (n == 0 ==> old(pendingRequests) == [])
              && request == if n > 0 && old(pendingRequests)[n - 1].request.mustProcess
                            then Some(old(pendingRequests)[n - 1].request) else None
      decreases |pendingRequests|
    {
      if pendingRequests == [] {
        return;
      }
      ghost var all := pendingRequests;
      var Pending(newRequest, timeout) := pendingRequests[0];
      NextIsNew(sent, begun, pendingRequests);
      pendingRequests := pendingRequests[1..];
      begun := begun + [newRequest.id];
      StartRequest(newRequest.stage, timeout, now);
      IdsFirst(all);
      if newRequest.mustProcess {
        request := Some(newRequest);
      } else {
        Dequeue(now);
      }
    }

    /** handleNewRequest: the request stays, another follows in its chain, or the chain ends and the next begins. */
    method HandleNewRequest(outcome: Outcome, shouldResend: bool, now: nat)
      requires Valid() && request.Some?
      modifies this
      ensures Valid() && sent == old(sent)
      ensures Moved(old(request.value), outcome, old(begun), old(called), old(pendingRequests))
      ensures outcome.Follow? || (outcome.Stay? && shouldResend) ==>
                Started(outcome.stage, old(timeoutTime - startTime), now)
      ensures outcome.Stay? && !shouldResend ==>
                startTime == old(startTime) && timeoutTime == old(timeoutTime) && deferTime == old(deferTime)
    {
      ghost var id, before := request.value.id, begun;
      match outcome
      case Stay(stage) =>
        request := Some(Request(request.value.id, stage, request.value.mustProcess));
        if shouldResend {
          StartRequest(stage, timeoutTime - startTime, now);
        }
      case Follow(stage) =>
        var newRequest := Request(request.value.id, stage, true);
        var timeout := timeoutTime - startTime;
        request := None;
        StartRequest(stage, timeout, now);
        request := Some(newRequest);
      case End(call) =>
        request := None;
        if call.Some? {
          called := called + [id];
        }
        Dequeue(now);
        assert request.Some? ==> begun[|begun| - 1] == sent[|begun| - 1] && id == sent[|before| - 1];
    }

    /** What an input does to the handler, by what it does to the active chain. */
    ghost predicate Moved(active: Request, outcome: Outcome, begun0: seq<nat>, called0: seq<nat>,
                          pending0: seq<Pending>)
      reads this
    {
      match outcome
      case Stay(stage) =>
        && request == Some(Request(active.id, stage, active.mustProcess))
        && begun == begun0 && called == called0 && pendingRequests == pending0
      case Follow(stage) =>
        && request == Some(Request(active.id, stage, true))
        && begun == begun0 && called == called0 && pendingRequests == pending0
      case End(call) =>
        && called == (if call.Some? then called0 + [active.id] else called0)
        && |pending0| >= |pendingRequests|
        && begun == begun0 + Ids(pending0[..|pending0| - |pendingRequests|])
        && (request.Some? ==> request.value.id != active.id)
    }

    /** handleIncoming: a reply that the active request supports. */
    method HandleIncoming(reply: Reply, now: nat) returns (call: Option<Call>)
      requires Valid() && now >= startTime
      modifies this
      ensures Valid() && sent == old(sent)
      ensures if old(request).Some? && SupportsEvent(old(request).value.stage, reply) then
                var outcome := HandleResponse(old(request).value.stage, reply);
                && Moved(old(request).value, outcome, old(begun), old(called), old(pendingRequests))
                && call == (if outcome.End? then outcome.call else None)
                && var duration := old(timeoutTime - startTime);
                   && (outcome.Stay? ==> startTime == old(startTime) && timeoutTime == now + duration)
                   && (outcome.Follow? ==> Started(outcome.stage, now + duration - old(startTime), now))
              else
                call == None && request == old(request) && begun == old(begun) && called == old(called)
                && pendingRequests == old(pendingRequests) && timeoutTime == old(timeoutTime)
    {
      call := None;
      if request.Some? {
        if SupportsEvent(request.value.stage, reply) {
          var duration := timeoutTime - startTime;
          timeoutTime := now + duration;
          var outcome := HandleResponse(request.value.stage, reply);
          HandleNewRequest(outcome, false, now);
          if outcome.End? {
            call := outcome.call;
          }
        }
      }
    }

    /** processTimeOut. */
    method ProcessTimeOut(now: nat) returns (fired: bool, call: Option<Call>)
      requires Valid() && now >= startTime
      modifies this
      ensures Valid() && sent == old(sent)
      ensures fired <==> old(request.Some? && timeoutTime != startTime && now >= timeoutTime)
      ensures fired ==>
                var outcome := HandleTimeOut(old(request.value.stage));
                && Moved(old(request).value, outcome, old(begun), old(called), old(pendingRequests))
                && call == (if outcome.End? then outcome.call else None)
                && (!outcome.End? ==> Started(outcome.stage, old(timeoutTime - startTime), now))
      ensures !fired ==>
                call == None && request == old(request) && begun == old(begun) && called == old(called)
                && pendingRequests == old(pendingRequests)
    {
      fired, call := false, None;
      if request.None? || timeoutTime == startTime {
        return;
      }
      if now >= timeoutTime {
        var outcome := HandleTimeOut(request.value.stage);
        HandleNewRequest(outcome, true, now);
        fired := true;
        if outcome.End? {
          call := outcome.call;
        }
      }
    }
  }

  /** The first pending chain has not begun. */
  lemma NextIsNew(sent: seq<nat>, begun: seq<nat>, pending: seq<Pending>)
    requires sent == begun + Ids(pending) && NoneTwice(sent) && pending != []
    ensures pending[0].request.id !in begun
  {
    assert sent[|begun|] == pending[0].request.id;
    assert forall i :: 0 <= i < |begun| ==> sent[i] == begun[i];
  }

  lemma IdsFirst(pending: seq<Pending>)
    requires pending != []
    ensures Ids(pending) == [pending[0].request.id] + Ids(pending[1..])
  {
  }
}
