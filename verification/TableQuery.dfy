/**
 Pending table queries of a node: a request registers a channel under its key
 and waits; the response handler notifies the channels of every key that a
 response names. Each locked section is one step.
 */
module TableQuery {
  import opened Wrappers

  /** A response: the service addresses of its instances, IPv4 and IPv6, are query keys too. */
  datatype Response = Response(jobName: string, queryKey: string, instances: seq<seq<(string, string)>>)

  /** The channel of one request: all messages ever sent to it, and what became of its reader. */
  datatype Waiter = Waiter(key: string, sent: seq<Response>, received: bool, timedOut: bool)

  const CAPACITY: nat := 10

  /** `pending` has the keys whose channel list is not nil; a channel is an index into `waiters`. */
  datatype State = State(pending: map<string, seq<nat>>, waiters: seq<Waiter>)

  /** A send blocks on a full channel. */
  predicate CanSend(w: Waiter) {
    |w.sent| - (if w.received then 1 else 0) < CAPACITY
  }

  function AddressKeys(sips: seq<(string, string)>): seq<string> {
    if sips == [] then [] else [sips[0].0, sips[0].1] + AddressKeys(sips[1..])
  }

  function InstanceKeys(instances: seq<seq<(string, string)>>): seq<string> {
    if instances == [] then [] else AddressKeys(instances[0]) + InstanceKeys(instances[1..])
  }

  function QueryKeys(r: Response): seq<string> {
    [r.jobName, r.queryKey] + InstanceKeys(r.instances)
  }

  /** The keys of a response: its job, the key of the query, and the addresses of its instances. */
  ghost predicate Names(r: Response, key: string) {
    || key == r.jobName || key == r.queryKey
    || exists i, j :: 0 <= i < |r.instances| && 0 <= j < |r.instances[i]|
         && (key == r.instances[i][j].0 || key == r.instances[i][j].1)
  }

  lemma {:induction false} AddressKeysExactly(sips: seq<(string, string)>, key: string)
    ensures key in AddressKeys(sips) <==> exists j :: 0 <= j < |sips| && (key == sips[j].0 || key == sips[j].1)
  {
    if sips != [] {
      AddressKeysExactly(sips[1..], key);
      if j :| 0 <= j < |sips[1..]| && (key == sips[1..][j].0 || key == sips[1..][j].1) {
        assert sips[j + 1] == sips[1..][j];
      }
      if j :| 0 < j < |sips| && (key == sips[j].0 || key == sips[j].1) {
        assert sips[j] == sips[1..][j - 1];
      }
    }
  }

  lemma {:induction false} InstanceKeysExactly(instances: seq<seq<(string, string)>>, key: string)
    ensures key in InstanceKeys(instances) <==> exists i :: 0 <= i < |instances| && key in AddressKeys(instances[i])
  {
    if instances != [] {
      InstanceKeysExactly(instances[1..], key);
      if i :| 0 <= i < |instances[1..]| && key in AddressKeys(instances[1..][i]) {
        assert instances[i + 1] == instances[1..][i];
      }
      if i :| 0 < i < |instances| && key in AddressKeys(instances[i]) {
        assert instances[i] == instances[1..][i - 1];
      }
    }
  }

  lemma QueryKeysExactly(r: Response, key: string)
    ensures key in QueryKeys(r) <==> Names(r, key)
  {
    InstanceKeysExactly(r.instances, key);
    forall i | 0 <= i < |r.instances| { AddressKeysExactly(r.instances[i], key); }
    if key in InstanceKeys(r.instances) {
      var i :| 0 <= i < |r.instances| && key in AddressKeys(r.instances[i]);
      var j :| 0 <= j < |r.instances[i]| && (key == r.instances[i][j].0 || key == r.instances[i][j].1);
    }
  }

  // ---------- Steps ----------

  /** A request is refused while interest is registered, unless forced, and while its key is pending. */
  predicate Accepts(s: State, key: string, interested: bool, force: bool) {
    !(interested && !force) && key !in s.pending
  }

  function Begin(s: State, key: string, interested: bool, force: bool): State {
    if Accepts(s, key, interested, force) then
      State(s.pending[key := [|s.waiters|]], s.waiters + [Waiter(key, [], false, false)])
    else
      s
  }

  function Send(waiters: seq<Waiter>, channels: seq<nat>, r: Response): (ws: seq<Waiter>)
    ensures |ws| == |waiters|
    decreases |channels|
  {
    if channels == [] then waiters
    else if channels[0] >= |waiters| then Send(waiters, channels[1..], r)
    else Send(waiters[channels[0] := waiters[channels[0]].(sent := waiters[channels[0]].sent + [r])], channels[1..], r)
  }

  /** One round of the response handler. */
  function Deliver(s: State, key: string, r: Response): State {
    if key in s.pending then State(s.pending - {key}, Send(s.waiters, s.pending[key], r)) else s
  }

  function DeliverAll(s: State, keys: seq<string>, r: Response): State
    decreases |keys|
  {
    if keys == [] then s else DeliverAll(Deliver(s, keys[0], r), keys[1..], r)
  }

  function Receive(s: State, i: nat): State {
    if i < |s.waiters| && !s.waiters[i].timedOut && !s.waiters[i].received && s.waiters[i].sent != [] then
      s.(waiters := s.waiters[i := s.waiters[i].(received := true)])
    else
      s
  }

  /** The key of a request that times out stays pending. */
  function TimeOut(s: State, i: nat): State {
    if i < |s.waiters| && !s.waiters[i].received then
      s.(waiters := s.waiters[i := s.waiters[i].(timedOut := true)])
    else
      s
  }

  datatype Event =
    | Ask(key: string, interested: bool, force: bool)
    | Answer(key: string, response: Response)
    | Take(waiter: nat)
    | GiveUp(waiter: nat)

  function Step(s: State, e: Event): State {
    match e
    case Ask(key, interested, force) => Begin(s, key, interested, force)
    case Answer(key, r) => Deliver(s, key, r)
    case Take(i) => Receive(s, i)
    case GiveUp(i) => TimeOut(s, i)
  }

  function Run(s: State, events: seq<Event>): State
    decreases |events|
  {
    if events == [] then s else Step(Run(s, events[..|events| - 1]), events[|events| - 1])
  }

  const EMPTY: State := State(map[], [])

  // ---------- The invariant ----------

  /** The channel of w is the one that is registered for its key. */
  predicate IsPending(s: State, i: nat)
    requires i < |s.waiters|
  {
    s.waiters[i].key in s.pending && s.pending[s.waiters[i].key] == [i]
  }

  ghost predicate Inv(s: State)
  {
    // every pending key has exactly one channel, and that is its own
    && (forall k | k in s.pending ::
          && |s.pending[k]| == 1 && s.pending[k][0] < |s.waiters|
          && s.waiters[s.pending[k][0]].key == k)
    // a channel is pending exactly until its one message was sent
    && (forall i | 0 <= i < |s.waiters| ::
          && |s.waiters[i].sent| <= 1
          && (IsPending(s, i) <==> s.waiters[i].sent == [])
          && (s.waiters[i].received ==> s.waiters[i].sent != []))
  }

  lemma SendOne(waiters: seq<Waiter>, i: nat, r: Response)
    requires i < |waiters|
    ensures Send(waiters, [i], r) == waiters[i := waiters[i].(sent := waiters[i].sent + [r])]
  {
    assert [i][1..] == [];
  }

  lemma DeliverKeeps(s: State, key: string, r: Response)
    requires Inv(s)
    ensures Inv(Deliver(s, key, r))
    ensures key in s.pending ==> CanSend(s.waiters[s.pending[key][0]])
  {
    if key in s.pending {
      var i := s.pending[key][0];
      assert s.pending[key] == [i];
      SendOne(s.waiters, i, r);
      var s' := Deliver(s, key, r);
      assert IsPending(s, i);
      forall j | 0 <= j < |s'.waiters| ensures IsPending(s', j) <==> s'.waiters[j].sent == [] {
        assert IsPending(s, j) <==> s.waiters[j].sent == [];
      }
    }
  }

  /** What one round changes. */
  lemma DeliverExactly(s: State, key: string, r: Response)
    requires Inv(s)
    ensures Inv(Deliver(s, key, r)) && Served(s, Deliver(s, key, r), iset{key}, r)
  {
    DeliverKeeps(s, key, r);
    if key in s.pending {
      var i := s.pending[key][0];
      assert s.pending[key] == [i];
      SendOne(s.waiters, i, r);
    }
    forall j | 0 <= j < |s.waiters| ensures IsPending(s, j) <==> s.waiters[j].sent == [] { }
  }

  /**
   The named keys are no longer pending, the channels registered for them got
   the response, and everything else is as before.
   */
  ghost predicate Served(s: State, s': State, named: iset<string>, r: Response)
  {
    && (forall key :: key in s'.pending <==> key in s.pending && key !in named)
    && (forall key | key in s'.pending :: s'.pending[key] == s.pending[key])
    && |s'.waiters| == |s.waiters|
    && (forall i | 0 <= i < |s.waiters| ::
          s'.waiters[i] == if s.waiters[i].sent == [] && s.waiters[i].key in named
                           then s.waiters[i].(sent := [r]) else s.waiters[i])
  }

  lemma ServedInTurn(s: State, t: State, u: State, a: iset<string>, b: iset<string>, r: Response)
    requires Served(s, t, a, r) && Served(t, u, b, r)
    ensures Served(s, u, a + b, r)
  {
  }

  lemma {:induction false} DeliverAllServes(s: State, keys: seq<string>, r: Response)
    requires Inv(s)
    ensures Inv(DeliverAll(s, keys, r)) && Served(s, DeliverAll(s, keys, r), (iset key | key in keys), r)
    decreases |keys|
  {
    if keys != [] {
      DeliverExactly(s, keys[0], r);
      DeliverAllServes(Deliver(s, keys[0], r), keys[1..], r);
      ServedInTurn(s, Deliver(s, keys[0], r), DeliverAll(s, keys, r), iset{keys[0]}, (iset key | key in keys[1..]), r);
      assert (iset key | key in keys) == iset{keys[0]} + (iset key | key in keys[1..]);
    }
  }

  /**
   A whole response: afterwards no key it names is pending, every channel
   registered under one of them holds exactly this response, and other keys
   and channels are as before.
   */
  lemma ResponseExactly(s: State, r: Response)
    requires Inv(s)
    ensures Inv(DeliverAll(s, QueryKeys(r), r))
    ensures Served(s, DeliverAll(s, QueryKeys(r), r), (iset key | Names(r, key)), r)
  {
    DeliverAllServes(s, QueryKeys(r), r);
    forall key { QueryKeysExactly(r, key); }
    assert (iset key | key in QueryKeys(r)) == iset key | Names(r, key);
  }

  lemma BeginKeeps(s: State, key: string)
    requires Inv(s) && key !in s.pending
    ensures Inv(Begin(s, key, false, true))
  {
    var n, s' := |s.waiters|, Begin(s, key, false, true);
    assert s' == State(s.pending[key := [n]], s.waiters + [Waiter(key, [], false, false)]);
    assert IsPending(s', n);
    forall j | 0 <= j < n ensures IsPending(s', j) <==> IsPending(s, j) {
      assert s'.waiters[j] == s.waiters[j];
    }
  }

  /** Taking a message or giving up changes neither keys nor what was sent. */
  lemma ReaderKeeps(s: State, i: nat, w: Waiter)
    requires Inv(s) && i < |s.waiters| && w.key == s.waiters[i].key && w.sent == s.waiters[i].sent
    requires w.received ==> w.sent != []
    ensures Inv(s.(waiters := s.waiters[i := w]))
  {
    var s' := s.(waiters := s.waiters[i := w]);
    forall j | 0 <= j < |s.waiters| ensures IsPending(s', j) <==> IsPending(s, j) { }
  }

  lemma StepKeeps(s: State, e: Event)
    requires Inv(s)
    ensures Inv(Step(s, e))
  {
    match e
    case Ask(key, interested, force) => if Accepts(s, key, interested, force) { BeginKeeps(s, key); }
    case Answer(key, r) => DeliverKeeps(s, key, r);
    case Take(i) => if Receive(s, i) != s { ReaderKeeps(s, i, s.waiters[i].(received := true)); }
    case GiveUp(i) => if TimeOut(s, i) != s { ReaderKeeps(s, i, s.waiters[i].(timedOut := true)); }
  }

  /**
   In every interleaving a key has at most one pending channel, a channel gets
   at most one message, and so no send under the lock ever blocks: a pending
   channel is empty.
   */
  lemma {:induction false} QueriesStayInOrder(events: seq<Event>)
    ensures Inv(Run(EMPTY, events))
    ensures forall k | k in Run(EMPTY, events).pending ::
              var w := Run(EMPTY, events).waiters[Run(EMPTY, events).pending[k][0]];
              w.sent == [] && CanSend(w)
    decreases |events|
  {
    if events != [] {
      QueriesStayInOrder(events[..|events| - 1]);
      StepKeeps(Run(EMPTY, events[..|events| - 1]), events[|events| - 1]);
    }
    var s := Run(EMPTY, events);
    forall k | k in s.pending
      ensures s.waiters[s.pending[k][0]].sent == [] && CanSend(s.waiters[s.pending[k][0]])
    {
      var i := s.pending[k][0];
      assert s.pending[k] == [i];
      assert IsPending(s, i);
    }
  }

  // ---------- When a key is pending ----------

  /** Since the last response that names the key, if any, a request for it was let through. */
  predicate Asked(events: seq<Event>, key: string)
  {
    if events == [] then false else
    var e := events[|events| - 1];
    if e.Answer? && e.key == key then false
    else (e.Ask? && e.key == key && !(e.interested && !e.force)) || Asked(events[..|events| - 1], key)
  }

  /** A key is pending exactly from a registration until the first response that names it. */
  lemma {:induction false} PendingExactly(events: seq<Event>, key: string)
    ensures key in Run(EMPTY, events).pending <==> Asked(events, key)
    decreases |events|
  {
    if events != [] {
      PendingExactly(events[..|events| - 1], key);
    }
  }

  // ---------- No answer is lost ----------

  /** The first response to a key in a stretch of events. */
  function FirstAnswer(events: seq<Event>, key: string): seq<Response>
  {
    if events == [] then [] else
    var front, e := FirstAnswer(events[..|events| - 1], key), events[|events| - 1];
    if front == [] && e.Answer? && e.key == key then [e.response] else front
  }

  /** What a registered channel got is the first response to its key after the registration. */
  lemma {:induction false} ChannelGetsFirstAnswer(s: State, i: nat, after: seq<Event>)
    requires Inv(s) && i < |s.waiters| && s.waiters[i].sent == []
    ensures Inv(Run(s, after)) && i < |Run(s, after).waiters|
    ensures Run(s, after).waiters[i].key == s.waiters[i].key
    ensures Run(s, after).waiters[i].sent == FirstAnswer(after, s.waiters[i].key)
    decreases |after|
  {
    if after != [] {
      var front, e := after[..|after| - 1], after[|after| - 1];
      ChannelGetsFirstAnswer(s, i, front);
      var t := Run(s, front);
      StepKeeps(t, e);
      match e
      case Ask(_, _, _) =>
      case Take(_) =>
      case GiveUp(_) =>
      case Answer(key, r) =>
        if key in t.pending {
          var k := t.pending[key][0];
          assert t.pending[key] == [k];
          SendOne(t.waiters, k, r);
          assert IsPending(t, k);
        }
        assert IsPending(t, i) <==> t.waiters[i].sent == [];
    }
  }

  /**
   A response handled after a request registered is not lost: the request's
   channel holds the first one, and unless it timed out the request can take it.
   */
  lemma NoAnswerIsLost(before: seq<Event>, key: string, interested: bool, force: bool, after: seq<Event>)
    requires Accepts(Run(EMPTY, before), key, interested, force)
    ensures var i := |Run(EMPTY, before).waiters|;
            var s := Run(Begin(Run(EMPTY, before), key, interested, force), after);
            && i < |s.waiters| && s.waiters[i].key == key
            && s.waiters[i].sent == FirstAnswer(after, key)
            && (FirstAnswer(after, key) != [] && !s.waiters[i].timedOut ==> Receive(s, i).waiters[i].received)
  {
    QueriesStayInOrder(before);
    StepKeeps(Run(EMPTY, before), Ask(key, interested, force));
    ChannelGetsFirstAnswer(Begin(Run(EMPTY, before), key, interested, force), |Run(EMPTY, before).waiters|, after);
  }

  // ---------- What becomes of a reader ----------

  /** A step that gives up on a channel touches no key and no other channel. */
  lemma GivingUpExactly(s: State, i: nat)
    requires i < |s.waiters|
    ensures var s' := Step(s, GiveUp(i));
            && s'.pending == s.pending && |s'.waiters| == |s.waiters|
            && (forall j | 0 <= j < |s.waiters| && j != i :: s'.waiters[j] == s.waiters[j])
            && s'.waiters[i] == s.waiters[i].(timedOut := s.waiters[i].timedOut || !s.waiters[i].received)
  {
  }

  /** Its reader takes the message of a channel once, unless it gave up. */
  lemma TakingExactly(s: State, i: nat)
    requires i < |s.waiters|
    ensures var s' := Step(s, Take(i));
            && s'.pending == s.pending && |s'.waiters| == |s.waiters|
            && (forall j | 0 <= j < |s.waiters| && j != i :: s'.waiters[j] == s.waiters[j])
            && s'.waiters[i] == s.waiters[i].(
                 received := s.waiters[i].received || (s.waiters[i].sent != [] && !s.waiters[i].timedOut))
  {
  }

  /** No request both receives an answer and times out, and either is final. */
  lemma {:induction false} OutcomeIsFinal(before: seq<Event>, after: seq<Event>, i: nat)
    requires i < |Run(EMPTY, before).waiters|
    ensures var w := Run(EMPTY, before).waiters[i];
            && !(w.received && w.timedOut)
            && i < |Run(EMPTY, before + after).waiters|
            && (w.received || w.timedOut ==>
                  && Run(EMPTY, before + after).waiters[i].received == w.received
                  && Run(EMPTY, before + after).waiters[i].timedOut == w.timedOut)
    decreases |after|, |before|
  {
    if after == [] {
      assert before + after == before;
      if before != [] {
        var front, e := before[..|before| - 1], before[|before| - 1];
        WaiterAfter(Run(EMPTY, front), e, i);
        if i < |Run(EMPTY, front).waiters| {
          OutcomeIsFinal(front, [], i);
        }
      }
    } else {
      var front, e := after[..|after| - 1], after[|after| - 1];
      OutcomeIsFinal(before, front, i);
      assert (before + after)[..|before + after| - 1] == before + front;
      if Run(EMPTY, before).waiters[i].received || Run(EMPTY, before).waiters[i].timedOut {
        assert !(Run(EMPTY, before).waiters[i].received && Run(EMPTY, before).waiters[i].timedOut);
      }
      WaiterAfter(Run(EMPTY, before + front), e, i);
    }
  }

  lemma {:induction false} SendKeepsOutcome(waiters: seq<Waiter>, channels: seq<nat>, r: Response, i: nat)
    requires i < |waiters|
    ensures var w := Send(waiters, channels, r)[i];
            w.received == waiters[i].received && w.timedOut == waiters[i].timedOut
    decreases |channels|
  {
    if channels != [] {
      var ws := if channels[0] >= |waiters| then waiters
                else waiters[channels[0] := waiters[channels[0]].(sent := waiters[channels[0]].sent + [r])];
      SendKeepsOutcome(ws, channels[1..], r, i);
    }
  }

  /** One step ends a request that is still open in one way at most, and leaves an ended one. */
  lemma WaiterAfter(s: State, e: Event, i: nat)
    requires i < |Step(s, e).waiters|
    ensures var w' := Step(s, e).waiters[i];
            if i >= |s.waiters| then !w'.received && !w'.timedOut
            else
              var w := s.waiters[i];
              && (w.received ==> w'.received && (!w.timedOut ==> !w'.timedOut))
              && (w.timedOut ==> w'.timedOut && (!w.received ==> !w'.received))
              && (!w.received && !w.timedOut ==> !(w'.received && w'.timedOut))
    ensures |s.waiters| <= |Step(s, e).waiters|
  {
    if e.Answer? && i < |s.waiters| && e.key in s.pending {
      SendKeepsOutcome(s.waiters, s.pending[e.key], e.response, i);
    }
  }

  // ---------- The cache of requests, changed in place ----------

  class RequestCache {
    var siprequests: map<string, seq<nat>>
    var channels: seq<Waiter>

    ghost function View(): State
      reads this
    {
      State(siprequests, channels)
    }

    constructor ()
      ensures View() == EMPTY
    {
      siprequests, channels := map[], [];
    }

    /** The part of a blocking request up to the wait; the channel is None for a refused request. */
    method BeginQuery(sip: string, sname: string, interested: bool, force: bool) returns (channel: Option<nat>)
      modifies this
      ensures View() == Begin(old(View()), sip + sname, interested, force)
      ensures channel == if Accepts(old(View()), sip + sname, interested, force) then Some(|old(channels)|) else None
    {
      var reqname := sip + sname;
      if interested && !force {
        return None;
      }
      if reqname in siprequests {
        return None;
      }
      channel := Some(|channels|);
      channels := channels + [Waiter(reqname, [], false, false)];
      siprequests := siprequests[reqname := [channel.value]];
    }

    method TablequeryResultHandler(r: Response)
      requires Inv(View())
      modifies this
      ensures Inv(View()) && View() == DeliverAll(old(View()), QueryKeys(r), r)
      ensures Served(old(View()), View(), (iset key | Names(r, key)), r)
    {
      ResponseExactly(View(), r);
      var querykeys := CollectKeys(r);
      var i := 0;
      while i < |querykeys|
        invariant 0 <= i <= |querykeys| && Inv(View())
        invariant DeliverAll(View(), querykeys[i..], r) == DeliverAll(old(View()), querykeys, r)
      {
        assert querykeys[i..][1..] == querykeys[i + 1..];
        NotifyKey(querykeys[i], r);
        i := i + 1;
      }
    }

    static method CollectKeys(r: Response) returns (querykeys: seq<string>)
      ensures querykeys == QueryKeys(r)
    {
      querykeys := [r.jobName, r.queryKey];
      var n := 0;
      while n < |r.instances|
        invariant 0 <= n <= |r.instances|
        invariant querykeys + InstanceKeys(r.instances[n..]) == QueryKeys(r)
      {
        assert r.instances[n..][1..] == r.instances[n + 1..];
        querykeys := AppendAddresses(querykeys, r.instances[n]);
        n := n + 1;
      }
    }

    static method AppendAddresses(keys: seq<string>, sips: seq<(string, string)>) returns (r: seq<string>)
      ensures r == keys + AddressKeys(sips)
    {
      r := keys;
      var i := 0;
      while i < |sips|
        invariant 0 <= i <= |sips|
        invariant r + AddressKeys(sips[i..]) == keys + AddressKeys(sips)
      {
        assert sips[i..][1..] == sips[i + 1..];
        ghost var rest := AddressKeys(sips[i + 1..]);
        assert r + ([sips[i].0, sips[i].1] + rest) == r + [sips[i].0] + [sips[i].1] + rest;
        r := r + [sips[i].0];
        r := r + [sips[i].1];
        i := i + 1;
      }
    }

    /** One locked round: no send in it blocks. */
    method NotifyKey(key: string, r: Response)
      requires Inv(View())
      modifies this
      ensures Inv(View()) && View() == Deliver(old(View()), key, r)
    {
      DeliverKeeps(View(), key, r);
      if key in siprequests {
        var list := siprequests[key];
        ghost var before := channels;
        var i := 0;
        while i < |list|
          invariant 0 <= i <= |list| && siprequests == old(siprequests) && |channels| == |before|
          invariant i == 0 ==> channels == before
          invariant Send(channels, list[i..], r) == Send(before, list, r)
        {
          var channel := list[i];
          assert CanSend(channels[channel]);
          assert list[i..][1..] == list[i + 1..];
          channels := channels[channel := channels[channel].(sent := channels[channel].sent + [r])];
          i := i + 1;
        }
        siprequests := siprequests - {key};
      }
    }
  }
}
