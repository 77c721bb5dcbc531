/**
 Interest timers together with the table entries that they drop: a lookup
 registers its interest and adds entries afterwards, outside the handler lock.
 */
module InterestTable {
  import opened JobUpdates
  import Slice

  /** `entries` are the jobs with entries in the translation table. */
  datatype TableState = TableState(interests: State, entries: set<string>)

  /** Entries are added by lookups and refreshes, and dropped when a container is detached. */
  datatype TableEvent = Interest(event: Event) | Load(job: string) | Drop(job: string)

  /** The last step of a timer drops its job's entries. */
  predicate DropsEntries(s: State, e: Event, job: string) {
    e.Proceed? && e.timer < |s.timers| && s.timers[e.timer] == Timer(job, ChannelClosed)
  }

  function TableStep(s: TableState, e: TableEvent): TableState {
    match e
    case Interest(event) =>
      TableState(Step(s.interests, event), set job | job in s.entries && !DropsEntries(s.interests, event, job))
    case Load(job) => s.(entries := s.entries + {job})
    case Drop(job) => s.(entries := s.entries - {job})
  }

  function TableRun(events: seq<TableEvent>): TableState
  {
    if events == [] then TableState(Run([]), {})
    else TableStep(TableRun(events[..|events| - 1]), events[|events| - 1])
  }

  /**
   A job has entries after a step if they were loaded in it, or were there and
   neither a detachment nor the last step of one of its timers dropped them.
   */
  lemma EntriesExactly(s: TableState, e: TableEvent, job: string)
    ensures job in TableStep(s, e).entries <==>
            || e == Load(job)
            || (job in s.entries && e != Drop(job)
                && forall i: nat | e == Interest(Proceed(i)) && i < |s.interests.timers| ::
                     s.interests.timers[i] != Timer(job, ChannelClosed))
  {
    if e.Interest? && e.event.Proceed? && e.event.timer < |s.interests.timers| {
      assert e == Interest(Proceed(e.event.timer));
    }
  }

  // ---------- Watched entries ----------

  /** Some timer of the job has not come to its end. */
  predicate Unfinished(s: State, job: string) {
    exists t <- s.timers :: t.job == job && t.stage != Finished
  }

  /** A job with entries is subscribed, or some timer will still drop them. */
  predicate Watched(s: TableState, job: string) {
    job in s.entries ==> Topic(job) in s.interests.topics || Unfinished(s.interests, job)
  }

  lemma RegisterStaysUnfinished(s: State, new_: string, job: string)
    requires Unfinished(s, job)
    ensures Unfinished(Registered(s, new_), job)
  {
    var t :| t in s.timers && t.job == job && t.stage != Finished;
    assert t in Registered(s, new_).timers;
  }

  /** A timer's step leaves its job with an unfinished timer unless it is the step that drops the entries. */
  lemma ProceedStaysUnfinished(s: State, i: nat, job: string)
    requires i < |s.timers| && Unfinished(s, job) && !DropsEntries(s, Proceed(i), job)
    ensures Unfinished(Proceeded(s, i), job)
  {
    var k :| 0 <= k < |s.timers| && s.timers[k].job == job && s.timers[k].stage != Finished;
    assert Proceeded(s, i).timers[k] in Proceeded(s, i).timers;
  }

  lemma SubscribedIsUnfinished(s: State, job: string)
    requires JobInv(s, job) && Topic(job) in s.topics
    ensures Unfinished(s, job)
  {
    var t :| t in s.timers && HasTopic(t, job);
  }

  /** A step leaves a job's entries watched if and only if it does not load them while all its timers are finished. */
  lemma StepWatchedExactly(s: TableState, e: TableEvent, job: string)
    requires JobInv(s.interests, job) && Watched(s, job)
    ensures Watched(TableStep(s, e), job) <==> (e == Load(job) ==> Unfinished(s.interests, job))
  {
    if Topic(job) in s.interests.topics {
      SubscribedIsUnfinished(s.interests, job);
    }
    match e
    case Interest(Register(new_)) =>
      if job in s.entries { RegisterStaysUnfinished(s.interests, new_, job); }
    case Interest(Proceed(i)) =>
      if i < |s.interests.timers| && job in s.entries && !DropsEntries(s.interests, Proceed(i), job) {
        ProceedStaysUnfinished(s.interests, i, job);
      }
    case _ =>
  }

  // ---------- Runs ----------

  /** The registrations and timer steps of a run. */
  function InterestsOf(events: seq<TableEvent>): seq<Event>
  {
    if events == [] then [] else
    var front, e := InterestsOf(events[..|events| - 1]), events[|events| - 1];
    if e.Interest? then front + [e.event] else front
  }

  lemma {:induction false} TableRunInterests(events: seq<TableEvent>)
    ensures TableRun(events).interests == Run(InterestsOf(events))
  {
    if events != [] {
      var front, e := events[..|events| - 1], events[|events| - 1];
      TableRunInterests(front);
      if e.Interest? {
        assert (InterestsOf(front) + [e.event])[..|InterestsOf(front)|] == InterestsOf(front);
      }
    }
  }

  predicate WatchedThroughout(events: seq<TableEvent>, job: string)
  {
    Watched(TableRun(events), job) && (events == [] || WatchedThroughout(events[..|events| - 1], job))
  }

  /** Whenever the job's entries are loaded, one of its timers is unfinished. */
  predicate LoadsInTime(events: seq<TableEvent>, job: string)
  {
    if events == [] then true else
    var front, e := events[..|events| - 1], events[|events| - 1];
    LoadsInTime(front, job) && (e == Load(job) ==> Unfinished(TableRun(front).interests, job))
  }

  /** In every interleaving, entries are watched all the way if and only if they are loaded in time. */
  lemma {:induction false} EntriesWatchedExactly(events: seq<TableEvent>, job: string)
    ensures WatchedThroughout(events, job) <==> LoadsInTime(events, job)
    decreases |events|
  {
    if events != [] {
      var front, e := events[..|events| - 1], events[|events| - 1];
      EntriesWatchedExactly(front, job);
      if WatchedThroughout(front, job) {
        TableRunInterests(front);
        HandlersMatchTimers(InterestsOf(front), job);
        StepWatchedExactly(TableRun(front), e, job);
      }
    }
  }

  // ---------- A lookup that comes too late ----------

  /** The timer numbered 0 alone, after n of its teardown steps. */
  function Alone(job: string, stage: Stage): State {
    var handlers := if stage in {Waiting, InterestWithdrawn, Unsubscribed} then [job] else [];
    var topics := if stage in {Waiting, InterestWithdrawn} then {Topic(job)} else {};
    State(handlers, topics, [Timer(job, stage)])
  }

  lemma AloneProceeds(job: string, stage: Stage)
    ensures Proceeded(Alone(job, stage), 0) == Alone(job, NextStage(stage))
  {
    if stage == Unsubscribed {
      OnlyHandlerGoes(job);
    }
  }

  lemma OnlyHandlerGoes(job: string)
    ensures Slice.WithoutOne([job], job) == []
  {
  }

  /** While the handler is there, a registration is refused, even if the topic is gone already. */
  lemma RefusedWhileHandled(job: string)
    ensures Registered(Alone(job, Unsubscribed), job) == Alone(job, Unsubscribed)
    ensures Topic(job) !in Alone(job, Unsubscribed).topics
  {
  }

  lemma PrefixStep(events: seq<TableEvent>, k: nat)
    requires k < |events|
    ensures TableRun(events[..k + 1]) == TableStep(TableRun(events[..k]), events[k])
  {
    assert events[..k + 1][..k] == events[..k];
  }

  /** A timer's step when nothing is in the table. */
  lemma TimerStep(events: seq<TableEvent>, k: nat, job: string, stage: Stage)
    requires k < |events| && events[k] == Interest(Proceed(0))
    requires TableRun(events[..k]) == TableState(Alone(job, stage), {})
    ensures TableRun(events[..k + 1]) == TableState(Alone(job, NextStage(stage)), {})
  {
    PrefixStep(events, k);
    AloneProceeds(job, stage);
  }

  lemma OldTimerUnsubscribes(r: seq<TableEvent>, job: string)
    requires |r| >= 3 && r[0] == Interest(Register(job)) && r[1] == r[2] == Interest(Proceed(0))
    ensures TableRun(r[..3]) == TableState(Alone(job, Unsubscribed), {})
  {
    assert TableRun(r[..0]) == TableState(State([], {}, []), {});
    PrefixStep(r, 0);
    assert TableRun(r[..1]) == TableState(Alone(job, Waiting), {});
    TimerStep(r, 1, job, Waiting);
    TimerStep(r, 2, job, InterestWithdrawn);
  }

  /**
   A lookup registers after the old timer has unsubscribed and is refused; the
   timer runs to its end; then the lookup adds its entries. They stay, without
   a subscription and without a timer.
   */
  lemma LateLoadIsUnwatched(r: seq<TableEvent>, job: string)
    requires |r| == 8 && r[0] == r[3] == Interest(Register(job)) && r[7] == Load(job)
    requires r[1] == r[2] == r[4] == r[5] == r[6] == Interest(Proceed(0))
    ensures TableRun(r[..4]) == TableRun(r[..3])
    ensures job in TableRun(r).entries && !Watched(TableRun(r), job)
  {
    OldTimerUnsubscribes(r, job);
    PrefixStep(r, 3);
    RefusedWhileHandled(job);
    TimerStep(r, 4, job, Unsubscribed);
    TimerStep(r, 5, job, HandlerRemoved);
    TimerStep(r, 6, job, ChannelClosed);
    PrefixStep(r, 7);
    assert r[..8] == r;
  }
}
