/** ConnectToBrokerTask.execute(): connect to a broker with the credentials
    stored for it; on a security failure ask the domain for replacement
    credentials and try again, without limit; a null answer cancels the task;
    any other failure ends it; after a successful connect the credentials that
    were used are written back to the configuration when they are non-null.

    The domain (connectToBroker, getCredentials) is a scripted collaborator:
    it answers from two finite scripts and logs every call. A script that runs
    out ends the model's run as Unfinished, standing for the source's loop that
    is still waiting or retrying. */
module Tasks {
  import opened Optional

  datatype Broker = Broker(name: string)
  datatype Credentials = Credentials(username: string, password: string)

  /** A JMSSecurityException: the broker refused the credentials. */
  datatype SecurityError = SecurityError(reason: string)

  /** Any other exception thrown while connecting. */
  datatype Error = Error(message: string)

  /** What one connectToBroker call does. */
  datatype ConnectOutcome = Connected | Rejected(security: SecurityError) | Broken(error: Error)

  /** A call the task makes on its domain. */
  datatype Call =
    | Connect(broker: Broker, credentials: Option<Credentials>)
    | AskCredentials(broker: Broker, previous: Option<Credentials>, cause: SecurityError)

  /** How the retry loop ends; Pending when the scripts ran out first. */
  datatype Ending = Succeeded(used: Option<Credentials>) | Canceled | Threw(error: Error) | Pending

  datatype Negotiation = Negotiation(ending: Ending, calls: seq<Call>)

  /** How execute() ends: normally, with UserCanceledException, with the
      connect failure propagated unchanged, or not yet. */
  datatype TaskResult = Completed | UserCanceled | Failed(error: Error) | Unfinished

  /** Everything execute() does: its result, the domain calls in order, the
      setBrokerCredentials writes in order and the store afterwards. */
  datatype Run = Run(result: TaskResult, calls: seq<Call>, updates: seq<(Broker, Credentials)>,
                     store: map<Broker, Credentials>)

  const DescriptionPrefix: string := "Connecting to broker "

  /** getBrokerCredentials: null when nothing is stored for the broker. */
  function Lookup(store: map<Broker, Credentials>, broker: Broker): (r: Option<Credentials>)
    ensures r.Some? <==> broker in store
    ensures r.Some? ==> r.value == store[broker]
  {
    if broker in store then Some(store[broker]) else None
  }

  /** The retry loop, given the outcomes of successive connect calls and the
      answers of successive getCredentials calls. */
  function Negotiate(broker: Broker, credentials: Option<Credentials>,
                     outcomes: seq<ConnectOutcome>, answers: seq<Option<Credentials>>): (r: Negotiation)
    ensures r.calls == [] <==> outcomes == []
    ensures r.calls != [] ==> r.calls[0] == Connect(broker, credentials)
    decreases |outcomes|
  {
    if outcomes == [] then Negotiation(Pending, [])
    else
      var tried := Connect(broker, credentials);
      match outcomes[0]
      case Connected => Negotiation(Succeeded(credentials), [tried])
      case Broken(e) => Negotiation(Threw(e), [tried])
      case Rejected(e) =>
        if answers == [] then Negotiation(Pending, [tried])
        else
          var asked := [tried, AskCredentials(broker, credentials, e)];
          match answers[0]
          case None => Negotiation(Canceled, asked)
          case Some(_) =>
            var rest := Negotiate(broker, answers[0], outcomes[1..], answers[1..]);
            Negotiation(rest.ending, asked + rest.calls)
  }

  /** execute(): one read of the store, the loop, then at most one write. */
  function Execution(broker: Broker, store: map<Broker, Credentials>,
                     outcomes: seq<ConnectOutcome>, answers: seq<Option<Credentials>>): (r: Run)
    ensures r.calls != [] ==> r.calls[0] == Connect(broker, Lookup(store, broker))
    ensures |r.updates| <= 1
    ensures r.updates != [] ==> r.result == Completed && r.updates[0].0 == broker
    ensures r.store.Keys == store.Keys + (if r.updates == [] then {} else {broker})
    ensures forall b :: b in store && b != broker ==> b in r.store && r.store[b] == store[b]
  {
    Finish(broker, store, Negotiate(broker, Lookup(store, broker), outcomes, answers))
  }

  /** What follows the loop: the task's result, and the write of the
      credentials that connected when they are non-null. */
  function Finish(broker: Broker, store: map<Broker, Credentials>, n: Negotiation): (r: Run)
    ensures r.calls == n.calls
    ensures r.result == Completed <==> n.ending.Succeeded?
    ensures r.updates == (if n.ending.Succeeded? && n.ending.used.Some? then [(broker, n.ending.used.value)] else [])
    ensures r.store == (if r.updates == [] then store else store[broker := r.updates[0].1])
  {
    match n.ending
    case Succeeded(None) => Run(Completed, n.calls, [], store)
    case Succeeded(Some(c)) => Run(Completed, n.calls, [(broker, c)], store[broker := c])
    case Canceled => Run(UserCanceled, n.calls, [], store)
    case Threw(e) => Run(Failed(e), n.calls, [], store)
    case Pending => Run(Unfinished, n.calls, [], store)
  }

  /** toString(): the task's description. */
  function Description(broker: Broker): (s: string)
    ensures |s| == |DescriptionPrefix| + |broker.name|
    ensures s[..|DescriptionPrefix|] == DescriptionPrefix && s[|DescriptionPrefix|..] == broker.name
  {
    DescriptionPrefix + broker.name
  }

  // ---------------------------------------------------------------------------
  // A reference description of the loop, by counting rounds.

  /** The first k attempts were refused and each refusal was answered with
      replacement credentials, so the loop went round k times. */
  ghost predicate RetriedThrough(outcomes: seq<ConnectOutcome>, answers: seq<Option<Credentials>>, k: nat)
  {
    k <= |outcomes| && k <= |answers| &&
    forall j :: 0 <= j < k ==> outcomes[j].Rejected? && answers[j].Some?
  }

  /** Attempt k (from 0) does not lead to another round. */
  ghost predicate StopsAt(outcomes: seq<ConnectOutcome>, answers: seq<Option<Credentials>>, k: nat)
  {
    k >= |outcomes| || k >= |answers| || !outcomes[k].Rejected? || answers[k].None?
  }

  /** The number of rounds the loop goes before it stops. */
  function Rounds(outcomes: seq<ConnectOutcome>, answers: seq<Option<Credentials>>): (k: nat)
    ensures RetriedThrough(outcomes, answers, k) && StopsAt(outcomes, answers, k)
    decreases |outcomes|
  {
    if outcomes != [] && answers != [] && outcomes[0].Rejected? && answers[0].Some? then
      1 + Rounds(outcomes[1..], answers[1..])
    else
      0
  }

  /** The credentials of attempt k: the stored ones first, then each answer. */
  function Attempted(first: Option<Credentials>, answers: seq<Option<Credentials>>, k: nat): Option<Credentials>
    requires k <= |answers|
  {
    if k == 0 then first else answers[k - 1]
  }

  /** How the loop ends, read off the attempt at which it stops. */
  ghost function EndAt(first: Option<Credentials>, outcomes: seq<ConnectOutcome>,
                       answers: seq<Option<Credentials>>, k: nat): Ending
    requires RetriedThrough(outcomes, answers, k)
  {
    if k == |outcomes| then Pending
    else match outcomes[k]
      case Connected => Succeeded(Attempted(first, answers, k))
      case Broken(e) => Threw(e)
      case Rejected(_) => if k == |answers| then Pending else Canceled
  }

  /** The number of calls made by the attempt at which the loop stops. */
  ghost function LastRoundCalls(outcomes: seq<ConnectOutcome>, answers: seq<Option<Credentials>>, k: nat): nat
  {
    if k >= |outcomes| then 0 else if outcomes[k].Rejected? && k < |answers| then 2 else 1
  }

  /** Only one number of rounds fits: a loop that went round k times and stops
      at attempt k went round exactly Rounds times. */
  lemma {:induction false} RoundsUnique(outcomes: seq<ConnectOutcome>, answers: seq<Option<Credentials>>, k: nat)
    requires RetriedThrough(outcomes, answers, k) && StopsAt(outcomes, answers, k)
    ensures Rounds(outcomes, answers) == k
  {
    if k > 0 {
      assert outcomes[0].Rejected? && answers[0].Some?;
      RoundsUnique(outcomes[1..], answers[1..], k - 1);
    }
  }

  /** The loop ends as the attempt at which it stops says, having made two
      calls per round and the calls of that last attempt. */
  lemma {:induction false} NegotiationEnding(broker: Broker, first: Option<Credentials>,
                                             outcomes: seq<ConnectOutcome>, answers: seq<Option<Credentials>>)
    ensures var n := Negotiate(broker, first, outcomes, answers);
            var k := Rounds(outcomes, answers);
            n.ending == EndAt(first, outcomes, answers, k) &&
            |n.calls| == 2 * k + LastRoundCalls(outcomes, answers, k)
    decreases |outcomes|
  {
    if outcomes != [] && answers != [] && outcomes[0].Rejected? && answers[0].Some? {
      NegotiationEnding(broker, answers[0], outcomes[1..], answers[1..]);
      var k := Rounds(outcomes[1..], answers[1..]);
      if k > 0 {
        assert Attempted(answers[0], answers[1..], k) == Attempted(first, answers, k + 1);
      }
    }
  }

  /** Call 2k is the connect of attempt k with its credentials; call 2k+1 asks
      for new credentials after that attempt was refused, passing the refused
      ones; and the answer is what attempt k+1 uses. */
  lemma {:induction false} NegotiationCalls(broker: Broker, first: Option<Credentials>,
                                            outcomes: seq<ConnectOutcome>, answers: seq<Option<Credentials>>, k: nat)
    requires 2 * k < |Negotiate(broker, first, outcomes, answers).calls|
    ensures RetriedThrough(outcomes, answers, k) && k < |outcomes|
    ensures var calls := Negotiate(broker, first, outcomes, answers).calls;
            calls[2 * k] == Connect(broker, Attempted(first, answers, k)) &&
            (2 * k + 1 < |calls| ==>
               outcomes[k].Rejected? && k < |answers| &&
               calls[2 * k + 1] == AskCredentials(broker, Attempted(first, answers, k), outcomes[k].security))
    decreases k
  {
    if k > 0 {
      var rest := Negotiate(broker, answers[0], outcomes[1..], answers[1..]);
      assert Negotiate(broker, first, outcomes, answers).calls
          == [Connect(broker, first), AskCredentials(broker, first, outcomes[0].security)] + rest.calls;
      NegotiationCalls(broker, answers[0], outcomes[1..], answers[1..], k - 1);
      if k > 1 {
        assert Attempted(answers[0], answers[1..], k - 1) == Attempted(first, answers, k);
      }
    }
  }

  // ---------------------------------------------------------------------------
  // What execute() promises.

  /** On success the store holds the credentials of the final attempt, the one
      that connected, written once even when equal to what was stored, and is
      untouched when those credentials are null. Every earlier attempt was a
      refused one. */
  lemma SuccessStoresFinalCredentials(broker: Broker, store: map<Broker, Credentials>,
                                      outcomes: seq<ConnectOutcome>, answers: seq<Option<Credentials>>)
    requires Execution(broker, store, outcomes, answers).result == Completed
    ensures var r := Execution(broker, store, outcomes, answers);
            var k := Rounds(outcomes, answers);
            var used := Attempted(Lookup(store, broker), answers, k);
            |r.calls| == 2 * k + 1 && r.calls[2 * k] == Connect(broker, used) &&
            k < |outcomes| && outcomes[k] == Connected &&
            (forall j :: 0 <= j < k ==> outcomes[j].Rejected?) &&
            (used.Some? ==> r.updates == [(broker, used.value)] && r.store == store[broker := used.value]) &&
            (used.None? ==> r.updates == [] && r.store == store)
  {
    var first := Lookup(store, broker);
    var k := Rounds(outcomes, answers);
    NegotiationEnding(broker, first, outcomes, answers);
    NegotiationCalls(broker, first, outcomes, answers, k);
  }

  /** A null answer cancels: after k rounds, a refusal answered with null
      ends the task with UserCanceledException right after that getCredentials
      call, and the store is neither written nor changed. */
  lemma CancelLeavesStoreUnchanged(broker: Broker, store: map<Broker, Credentials>,
                                   outcomes: seq<ConnectOutcome>, answers: seq<Option<Credentials>>, k: nat)
    requires RetriedThrough(outcomes, answers, k)
    requires k < |outcomes| && outcomes[k].Rejected? && k < |answers| && answers[k] == None
    ensures var r := Execution(broker, store, outcomes, answers);
            r.result == UserCanceled &&
            |r.calls| == 2 * k + 2 && r.calls[2 * k + 1].AskCredentials? &&
            r.updates == [] && r.store == store
  {
    var first := Lookup(store, broker);
    RoundsUnique(outcomes, answers, k);
    NegotiationEnding(broker, first, outcomes, answers);
    NegotiationCalls(broker, first, outcomes, answers, k);
  }

  /** UserCanceledException comes from a null answer and nothing else: the
      attempt at which the loop stops was refused and answered with null. */
  lemma CanceledOnlyByNullAnswer(broker: Broker, store: map<Broker, Credentials>,
                                 outcomes: seq<ConnectOutcome>, answers: seq<Option<Credentials>>)
    requires Execution(broker, store, outcomes, answers).result == UserCanceled
    ensures var k := Rounds(outcomes, answers);
            k < |outcomes| && outcomes[k].Rejected? && k < |answers| && answers[k] == None
  {
    NegotiationEnding(broker, Lookup(store, broker), outcomes, answers);
  }

  /** Only a security failure is retried: any other failure, on any attempt,
      ends the task with that same error right after the failed connect, with
      no further getCredentials call and no write. */
  lemma OtherFailurePropagates(broker: Broker, store: map<Broker, Credentials>,
                               outcomes: seq<ConnectOutcome>, answers: seq<Option<Credentials>>, k: nat)
    requires RetriedThrough(outcomes, answers, k)
    requires k < |outcomes| && outcomes[k].Broken?
    ensures var r := Execution(broker, store, outcomes, answers);
            r.result == Failed(outcomes[k].error) &&
            |r.calls| == 2 * k + 1 && r.calls[2 * k].Connect? &&
            r.updates == [] && r.store == store
  {
    RoundsUnique(outcomes, answers, k);
    NegotiationEnding(broker, Lookup(store, broker), outcomes, answers);
    NegotiationCalls(broker, Lookup(store, broker), outcomes, answers, k);
  }

  /** The number of connect calls in a call sequence. */
  function ConnectCount(calls: seq<Call>): nat
  {
    if calls == [] then 0 else (if calls[0].Connect? then 1 else 0) + ConnectCount(calls[1..])
  }

  /** The number of getCredentials calls in a call sequence. */
  function AskCount(calls: seq<Call>): nat
  {
    if calls == [] then 0 else (if calls[0].AskCredentials? then 1 else 0) + AskCount(calls[1..])
  }

  /** There is no retry cap: after k refusals, each answered with new
      credentials, a connect that succeeds ends the task normally after
      exactly k + 1 connect calls and k getCredentials calls. */
  lemma {:induction false} RetriesWithoutLimit(broker: Broker, first: Option<Credentials>,
                                               outcomes: seq<ConnectOutcome>, answers: seq<Option<Credentials>>, k: nat)
    requires RetriedThrough(outcomes, answers, k)
    requires k < |outcomes| && outcomes[k] == Connected
    ensures var n := Negotiate(broker, first, outcomes, answers);
            n.ending == Succeeded(Attempted(first, answers, k)) &&
            ConnectCount(n.calls) == k + 1 && AskCount(n.calls) == k
    decreases k
  {
    var n := Negotiate(broker, first, outcomes, answers);
    if k > 0 {
      var rest := Negotiate(broker, answers[0], outcomes[1..], answers[1..]);
      assert RetriedThrough(outcomes[1..], answers[1..], k - 1);
      RetriesWithoutLimit(broker, answers[0], outcomes[1..], answers[1..], k - 1);
      assert n.calls[1..][1..] == rest.calls;
      if k > 1 {
        assert Attempted(answers[0], answers[1..], k - 1) == Attempted(first, answers, k);
      }
    } else {
      assert n.calls[1..] == [];
    }
  }

  /** A broker whose stored password is stale: the first connect is refused,
      the user enters a new password, the second connect succeeds, and the
      new credentials replace the stored ones. */
  lemma StalePasswordReplaced(e: SecurityError)
    ensures var b1 := Broker("B1");
            var stale := Credentials("a", "old");
            var entered := Credentials("a", "new");
            var r := Execution(b1, map[b1 := stale], [Rejected(e), Connected], [Some(entered)]);
            r.result == Completed && r.store == map[b1 := entered] && r.updates == [(b1, entered)] &&
            r.calls == [Connect(b1, Some(stale)), AskCredentials(b1, Some(stale), e), Connect(b1, Some(entered))]
  {
    var b1 := Broker("B1");
    var stale := Credentials("a", "old");
    var entered := Credentials("a", "new");
    assert Lookup(map[b1 := stale], b1) == Some(stale);
    assert map[b1 := stale][b1 := entered] == map[b1 := entered];
    assert Negotiate(b1, Some(entered), [Connected], []) == Negotiation(Succeeded(Some(entered)), [Connect(b1, Some(entered))]);
    assert [Rejected(e), Connected][1..] == [Connected];
    assert [Some(entered)][1..] == [];
    assert Negotiate(b1, Some(stale), [Rejected(e), Connected], [Some(entered)])
        == Negotiation(Succeeded(Some(entered)),
                       [Connect(b1, Some(stale)), AskCredentials(b1, Some(stale), e), Connect(b1, Some(entered))]);
  }

  /** The description names the broker: two tasks with the same description
      concern brokers with the same name. */
  lemma DescriptionDeterminesBroker(a: Broker, b: Broker)
    ensures Description(a) == Description(b) <==> a.name == b.name
  {
    if Description(a) == Description(b) {
      assert a.name == Description(a)[|DescriptionPrefix|..];
      assert b.name == Description(b)[|DescriptionPrefix|..];
    }
  }

  /** The loop from some point on, after the calls already made. */
  function Then(made: seq<Call>, n: Negotiation): Negotiation
  {
    Negotiation(n.ending, made + n.calls)
  }

  /** One round of the loop: a refused attempt answered with credentials is
      followed by the loop run again from those credentials. */
  lemma RetryStep(made: seq<Call>, broker: Broker, credentials: Option<Credentials>, e: SecurityError,
                  outcomes: seq<ConnectOutcome>, answers: seq<Option<Credentials>>)
    requires outcomes != [] && outcomes[0] == Rejected(e) && answers != [] && answers[0].Some?
    ensures Then(made, Negotiate(broker, credentials, outcomes, answers))
         == Then(made + [Connect(broker, credentials), AskCredentials(broker, credentials, e)],
                 Negotiate(broker, answers[0], outcomes[1..], answers[1..]))
  {
    var round := [Connect(broker, credentials), AskCredentials(broker, credentials, e)];
    var rest := Negotiate(broker, answers[0], outcomes[1..], answers[1..]);
    assert made + (round + rest.calls) == (made + round) + rest.calls;
  }

  // ---------------------------------------------------------------------------
  // The objects execute() works on.

  /** CoreConfiguration: the credentials stored per broker, with a log of the
      getBrokerCredentials and setBrokerCredentials calls made on it. */
  class CoreConfiguration {
    var brokerCredentials: map<Broker, Credentials>
    var lookups: seq<Broker>
    var updates: seq<(Broker, Credentials)>

    constructor (stored: map<Broker, Credentials>)
      ensures brokerCredentials == stored && lookups == [] && updates == []
    {
      brokerCredentials, lookups, updates := stored, [], [];
    }

    method GetBrokerCredentials(broker: Broker) returns (c: Option<Credentials>)
      modifies this`lookups
      ensures c == Lookup(brokerCredentials, broker)
      ensures lookups == old(lookups) + [broker]
    {
      c := Lookup(brokerCredentials, broker);
      lookups := lookups + [broker];
    }

    method SetBrokerCredentials(broker: Broker, c: Credentials)
      modifies this`brokerCredentials, this`updates
      ensures brokerCredentials == old(brokerCredentials)[broker := c]
      ensures updates == old(updates) + [(broker, c)]
    {
      brokerCredentials := brokerCredentials[broker := c];
      updates := updates + [(broker, c)];
    }
  }

  /** JMSDomain as a scripted collaborator: each connectToBroker call takes the
      next outcome, each getCredentials call the next answer (null cancels);
      None means the script is spent. Every answered call is logged. */
  class ScriptedDomain {
    var outcomes: seq<ConnectOutcome>
    var answers: seq<Option<Credentials>>
    var calls: seq<Call>

    constructor (outcomes: seq<ConnectOutcome>, answers: seq<Option<Credentials>>)
      ensures this.outcomes == outcomes && this.answers == answers && calls == []
    {
      this.outcomes, this.answers, calls := outcomes, answers, [];
    }

    method ConnectToBroker(broker: Broker, c: Option<Credentials>) returns (o: Option<ConnectOutcome>)
      modifies this
      ensures answers == old(answers)
      ensures old(outcomes) == [] ==> o == None && outcomes == [] && calls == old(calls)
      ensures old(outcomes) != [] ==>
                o == Some(old(outcomes)[0]) && outcomes == old(outcomes)[1..] &&
                calls == old(calls) + [Connect(broker, c)]
    {
      if outcomes == [] {
        o := None;
      } else {
        o := Some(outcomes[0]);
        outcomes := outcomes[1..];
        calls := calls + [Connect(broker, c)];
      }
    }

    method GetCredentials(broker: Broker, previous: Option<Credentials>, e: SecurityError)
      returns (a: Option<Option<Credentials>>)
      modifies this
      ensures outcomes == old(outcomes)
      ensures old(answers) == [] ==> a == None && answers == [] && calls == old(calls)
      ensures old(answers) != [] ==>
                a == Some(old(answers)[0]) && answers == old(answers)[1..] &&
                calls == old(calls) + [AskCredentials(broker, previous, e)]
    {
      if answers == [] {
        a := None;
      } else {
        a := Some(answers[0]);
        answers := answers[1..];
        calls := calls + [AskCredentials(broker, previous, e)];
      }
    }
  }

  class ConnectToBrokerTask {
    const domain: ScriptedDomain
    const broker: Broker
    const configuration: CoreConfiguration

    constructor (domain: ScriptedDomain, configuration: CoreConfiguration, broker: Broker)
      ensures this.domain == domain && this.configuration == configuration && this.broker == broker
    {
      this.domain, this.configuration, this.broker := domain, configuration, broker;
    }

    /** execute(), proved to do what Execution describes: the stored
        credentials are read once, the domain sees exactly Execution's calls
        and the store exactly its writes. */
    method Execute() returns (result: TaskResult)
      modifies domain, configuration
      ensures var r := Execution(broker, old(configuration.brokerCredentials),
                                 old(domain.outcomes), old(domain.answers));
              result == r.result &&
              domain.calls == old(domain.calls) + r.calls &&
              configuration.brokerCredentials == r.store &&
              configuration.updates == old(configuration.updates) + r.updates &&
              configuration.lookups == old(configuration.lookups) + [broker]
    {
      var credentials := configuration.GetBrokerCredentials(broker);
      var ending := RetryUntilSettled(credentials);
      match ending
      case Succeeded(used) =>
        if used != None {
          configuration.SetBrokerCredentials(broker, used.value);
        }
        result := Completed;
      case Canceled =>
        result := UserCanceled;
      case Threw(e) =>
        result := Failed(e);
      case Pending =>
        result := Unfinished;
    }

    /** The while (true) loop of execute(): connect; on a security failure
        ask for new credentials and go round again; stop on success, on a
        null answer or on any other failure. It does what Negotiate says. */
    method RetryUntilSettled(first: Option<Credentials>) returns (ending: Ending)
      modifies domain
      ensures var n := Negotiate(broker, first, old(domain.outcomes), old(domain.answers));
              ending == n.ending && domain.calls == old(domain.calls) + n.calls
    {
      var credentials := first;
      ghost var whole := Then(old(domain.calls), Negotiate(broker, first, domain.outcomes, domain.answers));
      while true
        invariant whole == Then(domain.calls, Negotiate(broker, credentials, domain.outcomes, domain.answers))
        decreases |domain.outcomes|
      {
        ghost var outcomes, answers, made := domain.outcomes, domain.answers, domain.calls;
        var outcome := domain.ConnectToBroker(broker, credentials);
        if outcome == None {
          return Pending;
        }
        match outcome.value
        case Connected =>
          return Succeeded(credentials);
        case Broken(e) =>
          return Threw(e);
        case Rejected(e) =>
          var answer := domain.GetCredentials(broker, credentials, e);
          if answer == None {
            return Pending;
          }
          if answer.value == None {
            return Canceled;
          }
          RetryStep(made, broker, credentials, e, outcomes, answers);
          credentials := answer.value;
      }
    }
  }
}
