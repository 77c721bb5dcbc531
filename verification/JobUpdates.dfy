/**
 Interest registrations of a node and the self-destruct timers behind them.
 A registration runs under the handler lock in one step; a timer that gives
 up tears its interest down in separate steps that other timers and
 registrations may interleave with.
 */
module JobUpdates {
  import opened SwapDelete
  import opened Slice

  /** What a timer has done last. */
  datatype Stage = Waiting | InterestWithdrawn | Unsubscribed | HandlerRemoved | ChannelClosed | Finished

  datatype Timer = Timer(job: string, stage: Stage)

  datatype State = State(handlers: seq<string>, topics: set<string>, timers: seq<Timer>)

  function Topic(job: string): string {
    "jobs/" + job + "/updates_available"
  }

  lemma TopicInjective(j: string, k: string)
    requires Topic(j) == Topic(k)
    ensures j == k
  {
    var n := |"jobs/"|;
    assert Topic(j)[n..|Topic(j)| - |"/updates_available"|] == j;
    assert Topic(k)[n..|Topic(k)| - |"/updates_available"|] == k;
  }

  function Registered(s: State, job: string): State {
    if job in s.handlers then s
    else State(s.handlers + [job], s.topics + {Topic(job)}, s.timers + [Timer(job, Waiting)])
  }

  function NextStage(stage: Stage): Stage {
    match stage
    case Waiting => InterestWithdrawn
    case InterestWithdrawn => Unsubscribed
    case Unsubscribed => HandlerRemoved
    case HandlerRemoved => ChannelClosed
    case ChannelClosed => Finished
    case Finished => Finished
  }

  /** The next teardown step of a timer. */
  function Proceeded(s: State, i: nat): State
    requires i < |s.timers|
  {
    var t := s.timers[i];
    var timers := s.timers[i := t.(stage := NextStage(t.stage))];
    match t.stage
    case InterestWithdrawn => State(s.handlers, s.topics - {Topic(t.job)}, timers)
    case Unsubscribed => State(WithoutOne(s.handlers, t.job), s.topics, timers)
    case _ => s.(timers := timers)
  }

  datatype Event = Register(job: string) | Proceed(timer: nat)

  function Step(s: State, e: Event): State {
    match e
    case Register(job) => Registered(s, job)
    case Proceed(i) => if i < |s.timers| then Proceeded(s, i) else s
  }

  function Run(events: seq<Event>): State
  {
    if events == [] then State([], {}, []) else Step(Run(events[..|events| - 1]), events[|events| - 1])
  }

  // ---------- The invariant ----------

  predicate HasHandler(t: Timer, job: string) {
    t.job == job && t.stage in {Waiting, InterestWithdrawn, Unsubscribed}
  }

  predicate HasTopic(t: Timer, job: string) {
    t.job == job && t.stage in {Waiting, InterestWithdrawn}
  }

  /** The timers of a job that have not yet removed its handler. */
  function Holders(timers: seq<Timer>, job: string): nat
  {
    if timers == [] then 0
    else Holders(timers[..|timers| - 1], job) + if HasHandler(timers[|timers| - 1], job) then 1 else 0
  }

  ghost predicate SomeTopic(timers: seq<Timer>, job: string) {
    exists t <- timers :: HasTopic(t, job)
  }

  ghost predicate JobInv(s: State, job: string)
  {
    && multiset(s.handlers)[job] == Holders(s.timers, job) <= 1
    && (Topic(job) in s.topics <==> SomeTopic(s.timers, job))
  }

  lemma {:induction false} HoldersUpdate(timers: seq<Timer>, i: nat, t: Timer, job: string)
    requires i < |timers|
    ensures Holders(timers[i := t], job) ==
            Holders(timers, job) - (if HasHandler(timers[i], job) then 1 else 0) + (if HasHandler(t, job) then 1 else 0)
  {
    var n := |timers| - 1;
    if i == n {
      assert timers[i := t][..n] == timers[..n];
    } else {
      assert timers[i := t][..n] == timers[..n][i := t];
      HoldersUpdate(timers[..n], i, t, job);
    }
  }

  lemma {:induction false} OneHolderCounts(timers: seq<Timer>, i: nat, job: string)
    requires i < |timers| && HasHandler(timers[i], job)
    ensures Holders(timers, job) >= 1
  {
    var n := |timers| - 1;
    if i < n {
      OneHolderCounts(timers[..n], i, job);
    }
  }

  lemma {:induction false} TwoHoldersCount(timers: seq<Timer>, i: nat, k: nat, job: string)
    requires i < k < |timers| && HasHandler(timers[i], job) && HasHandler(timers[k], job)
    ensures Holders(timers, job) >= 2
  {
    var n := |timers| - 1;
    if k < n {
      TwoHoldersCount(timers[..n], i, k, job);
    } else {
      OneHolderCounts(timers[..n], i, job);
    }
  }

  /** A holder is the only timer of its job that has anything left to take down. */
  lemma OnlyHolder(s: State, i: nat, k: nat, job: string)
    requires JobInv(s, job) && i < |s.timers| && k < |s.timers|
    requires HasHandler(s.timers[i], job) && HasHandler(s.timers[k], job)
    ensures i == k
  {
    if i < k {
      TwoHoldersCount(s.timers, i, k, job);
    } else if k < i {
      TwoHoldersCount(s.timers, k, i, job);
    }
  }

  lemma RegisterKeepsHandlers(s: State, new_: string, job: string)
    requires JobInv(s, job) && new_ !in s.handlers
    ensures multiset(Registered(s, new_).handlers)[job] == Holders(Registered(s, new_).timers, job) <= 1
  {
    assert Registered(s, new_).timers[..|s.timers|] == s.timers;
    if new_ == job {
      assert multiset(s.handlers)[job] == 0;
    }
  }

  lemma RegisterKeepsTopic(s: State, new_: string, job: string)
    requires JobInv(s, job) && new_ !in s.handlers
    ensures Topic(job) in Registered(s, new_).topics <==> SomeTopic(Registered(s, new_).timers, job)
  {
    assert forall t :: t in Registered(s, new_).timers <==> t in s.timers || t == Timer(new_, Waiting);
    if new_ == job {
      assert HasTopic(Timer(new_, Waiting), job);
    } else if Topic(new_) == Topic(job) {
      TopicInjective(new_, job);
    }
  }

  lemma RegisterKeeps(s: State, new_: string, job: string)
    requires JobInv(s, job)
    ensures JobInv(Registered(s, new_), job)
  {
    if new_ !in s.handlers {
      RegisterKeepsHandlers(s, new_, job);
      RegisterKeepsTopic(s, new_, job);
    }
  }

  lemma ProceedKeepsHandlers(s: State, i: nat, job: string)
    requires JobInv(s, job) && i < |s.timers|
    ensures multiset(Proceeded(s, i).handlers)[job] == Holders(Proceeded(s, i).timers, job) <= 1
  {
    var t := s.timers[i];
    HoldersUpdate(s.timers, i, t.(stage := NextStage(t.stage)), job);
    if t.stage == Unsubscribed {
      WithoutOneCount(s.handlers, t.job);
      if t.job == job {
        OneHolderCounts(s.timers, i, job);
      }
    }
  }

  lemma ProceedKeepsTopic(s: State, i: nat, job: string)
    requires JobInv(s, job) && i < |s.timers|
    ensures Topic(job) in Proceeded(s, i).topics <==> SomeTopic(Proceeded(s, i).timers, job)
  {
    var t := s.timers[i];
    TopicAfterStep(s, i, t.(stage := NextStage(t.stage)), job);
    TopicAfterStep(s, i, t, job);
    assert s.timers[i := t] == s.timers;
    if t.stage == InterestWithdrawn {
      if t.job == job {
        forall k | 0 <= k < |s.timers| && k != i ensures !HasTopic(s.timers[k], job) {
          if HasTopic(s.timers[k], job) {
            OnlyHolder(s, i, k, job);
          }
        }
      } else if Topic(t.job) == Topic(job) {
        TopicInjective(t.job, job);
      }
    }
  }

  lemma TopicAfterStep(s: State, i: nat, t': Timer, job: string)
    requires i < |s.timers| && t'.job == s.timers[i].job
    ensures SomeTopic(s.timers[i := t'], job) <==>
            HasTopic(t', job) || exists k | 0 <= k < |s.timers| && k != i :: HasTopic(s.timers[k], job)
  {
    var r := s.timers[i := t'];
    assert r[i] == t';
    forall k | 0 <= k < |s.timers| && k != i && HasTopic(s.timers[k], job) ensures SomeTopic(r, job) {
      assert r[k] in r;
    }
  }

  /**
   Over every interleaving, a job is among the running handlers at most once
   and exactly as often as it has timers that have not removed it, and its
   topic is subscribed exactly while some timer has not unsubscribed.
   */
  lemma {:induction false} HandlersMatchTimers(events: seq<Event>, job: string)
    ensures JobInv(Run(events), job)
    decreases |events|
  {
    if events != [] {
      var front, e := events[..|events| - 1], events[|events| - 1];
      HandlersMatchTimers(front, job);
      match e
      case Register(j) => RegisterKeeps(Run(front), j, job);
      case Proceed(i) => if i < |Run(front).timers| {
          ProceedKeepsHandlers(Run(front), i, job);
          ProceedKeepsTopic(Run(front), i, job);
        }
    }
  }

  /** No step of another timer takes down the subscription or the handler of a timer that still needs it. */
  lemma OldTimerSparesNewer(events: seq<Event>, old_: nat, newer: nat)
    requires old_ != newer && newer < |Run(events).timers| && old_ < |Run(events).timers|
    ensures var s, t := Run(events), Run(events).timers[newer];
            var s' := Proceeded(s, old_);
            && s'.timers[newer] == t
            && (HasTopic(t, t.job) ==> Topic(t.job) in s'.topics)
            && (HasHandler(t, t.job) ==> t.job in s'.handlers)
  {
    var s, t := Run(events), Run(events).timers[newer];
    var s' := Proceeded(s, old_);
    HandlersMatchTimers(events + [Proceed(old_)], t.job);
    assert (events + [Proceed(old_)])[..|events|] == events;
    assert s'.timers[newer] in s'.timers;
    if HasHandler(t, t.job) {
      OneHolderCounts(s'.timers, newer, t.job);
    }
  }

  // ---------- The shared registry, changed in place ----------

  class InterestRegistry {
    const runningHandlers: GenericSlice<string>
    var topics: set<string>
    var timers: seq<Timer>

    ghost function View(): State
      reads this, runningHandlers
    {
      State(runningHandlers.data, topics, timers)
    }

    constructor ()
      ensures fresh(runningHandlers) && View() == Run([])
    {
      runningHandlers := new GenericSlice<string>();
      topics, timers := {}, [];
    }

    method MqttRegisterInterest(job: string)
      modifies this, runningHandlers
      ensures View() == Registered(old(View()), job)
    {
      var registered := runningHandlers.Exists(job);
      if registered {
        return;
      }
      topics := topics + {Topic(job)};
      runningHandlers.Add(job);
      timers := timers + [Timer(job, Waiting)];
    }

    method MqttIsInterestRegistered(job: string) returns (b: bool)
      ensures b <==> job in runningHandlers.data
    {
      b := runningHandlers.Exists(job);
    }

    /** One step of the teardown that a timer runs after its timeout. */
    method TeardownStep(i: nat)
      requires i < |timers|
      modifies this, runningHandlers
      ensures View() == Proceeded(old(View()), i)
    {
      var t := timers[i];
      match t.stage {
        case InterestWithdrawn => topics := topics - {Topic(t.job)};
        case Unsubscribed => runningHandlers.RemoveElem(t.job);
        case _ =>
      }
      timers := timers[i := t.(stage := NextStage(t.stage))];
    }
  }
}
