/** The dispatcher, and the whole system of clients, bus, dispatcher and workers as interleaved steps. */
module Discovery {
  import opened Wrappers
  import opened Messages
  import opened MessageBus
  import opened Tasks

  const SUBJECTS: seq<string> := ["protocols", "mibs", "assets"]

  predicate Known(p: Packet) {
    p.meta.subject in SUBJECTS
  }

  /** Where a worker stands with its request. */
  datatype Stage = Waiting | Running | Computed(answer: Packet, ticket: nat)
  datatype Worker = Worker(req: Packet, stage: Stage)

  /** The dispatcher's own state: the pool. */
  class Dispatcher {
    var pool: seq<Worker>

    constructor ()
      ensures pool == []
    {
      pool := [];
    }

    /** `Discovery::discover`: a known subject gets a worker, another message is passed over. */
    method Discover(msg: Packet)
      modifies this
      ensures pool == old(pool) + Dispatched(msg)
      ensures msg.meta.subject == "protocols" || msg.meta.subject == "mibs" || msg.meta.subject == "assets" ==>
        pool == old(pool) + [Worker(msg, Waiting)]
      ensures msg.meta.subject != "protocols" && msg.meta.subject != "mibs" && msg.meta.subject != "assets" ==>
        pool == old(pool)
    {
      if msg.meta.subject == "protocols" {
        pool := pool + [Worker(msg, Waiting)];
      } else if msg.meta.subject == "mibs" {
        pool := pool + [Worker(msg, Waiting)];
      } else if msg.meta.subject == "assets" {
        pool := pool + [Worker(msg, Waiting)];
      } else {
        assert !Known(msg);
      }
    }
  }

  function Dispatched(msg: Packet): seq<Worker> {
    if Known(msg) then [Worker(msg, Waiting)] else []
  }

  // ---------- the system ----------

  /** What the jobs do: the n-th job that is run in the whole system, when it is one for the subject.
      The same job on the same payload may end differently each time. */
  type Jobs = (nat, string) -> Job

  /** The bus's queue, the pool, the requests whose reply was not taken yet, and the replies nobody took
      yet, by their numbers.  And what happened so far: how many jobs were run, the requests sent, the
      messages passed over, the replies handed to the bus with the requests they answer and the numbers
      of the jobs that made them, and the clients' requests with the numbers of the replies they took. */
  datatype State = State(
    queue: seq<Packet>, pool: seq<Worker>, waiting: seq<Packet>, mailbox: seq<nat>, computed: nat,
    sent: seq<Packet>, skipped: seq<Packet>, answered: seq<Packet>, replies: seq<Packet>, tickets: seq<nat>,
    received: seq<(Packet, nat)>)

  const INITIAL := State([], [], [], [], 0, [], [], [], [], [], [])

  /** One step of somebody: a client sends, the dispatcher takes a message, a worker starts, runs its
      job or replies, a client takes a reply that carries its correlation id and its name out of the
      mailbox.  A client that gave up waiting is one that never takes its reply. */
  datatype Action =
    | Send(req: Packet)
    | Dispatch(i: nat)
    | Start(w: nat)
    | Compute(w: nat)
    | Reply(w: nat)
    | Receive(client: nat, reply: nat)

  function Without<T>(s: seq<T>, i: nat): seq<T>
    requires i < |s|
  {
    s[..i] + s[i + 1..]
  }

  /** The reply carries the request's correlation id and is for its sender. */
  predicate Suits(reply: Packet, req: Packet) {
    reply.meta.correlationId == req.meta.correlationId && reply.meta.to == req.meta.from
  }

  predicate Enabled(s: State, a: Action) {
    match a
    case Send(req) => req.meta.correlationId != ""
    case Dispatch(i) => i < |s.queue|
    case Start(w) => w < |s.pool| && s.pool[w].stage.Waiting?
    case Compute(w) => w < |s.pool| && s.pool[w].stage.Running?
    case Reply(w) => w < |s.pool| && s.pool[w].stage.Computed?
    case Receive(c, r) =>
      c < |s.waiting| && r < |s.mailbox| && s.mailbox[r] < |s.replies|
      && Suits(s.replies[s.mailbox[r]], s.waiting[c])
  }

  /** The answer to the request when the n-th job is the one that is run on it. */
  function Answer(jobs: Jobs, req: Packet, n: nat): Packet {
    ReplyTo(req, jobs(n, req.meta.subject))
  }

  function Perform(jobs: Jobs, s: State, a: Action): State
    requires Enabled(s, a)
  {
    match a
    case Send(req) => s.(queue := s.queue + [req], waiting := s.waiting + [req], sent := s.sent + [req])
    case Dispatch(i) =>
      s.(queue := Without(s.queue, i), pool := s.pool + Dispatched(s.queue[i]),
         skipped := if Known(s.queue[i]) then s.skipped else s.skipped + [s.queue[i]])
    case Start(w) => s.(pool := s.pool[w := s.pool[w].(stage := Running)])
    case Compute(w) =>
      var answer := Answer(jobs, s.pool[w].req, s.computed);
      s.(pool := s.pool[w := s.pool[w].(stage := Computed(answer, s.computed))], computed := s.computed + 1)
    case Reply(w) =>
      s.(pool := Without(s.pool, w), answered := s.answered + [s.pool[w].req],
         replies := s.replies + [s.pool[w].stage.answer], tickets := s.tickets + [s.pool[w].stage.ticket],
         mailbox := s.mailbox + [|s.replies|])
    case Receive(c, r) =>
      s.(waiting := Without(s.waiting, c), mailbox := Without(s.mailbox, r),
         received := s.received + [(s.waiting[c], s.mailbox[r])])
  }

  ghost predicate Legal(jobs: Jobs, s: State, run: seq<Action>)
    decreases |run|
  {
    run == [] || (Enabled(s, run[0]) && Legal(jobs, Perform(jobs, s, run[0]), run[1..]))
  }

  ghost function Final(jobs: Jobs, s: State, run: seq<Action>): State
    requires Legal(jobs, s, run)
    decreases |run|
  {
    if run == [] then s else Final(jobs, Perform(jobs, s, run[0]), run[1..])
  }

  // ---------- what every run keeps ----------

  function Requests(pool: seq<Worker>): seq<Packet> {
    seq(|pool|, i requires 0 <= i < |pool| => pool[i].req)
  }

  /** Every request that was sent is, as often as it was sent, in the queue, passed over, with a worker
      or answered, and in one of these places only. */
  ghost predicate Conserved(s: State) {
    multiset(s.sent) ==
    multiset(s.queue) + multiset(s.skipped) + multiset(Requests(s.pool)) + multiset(s.answered)
  }

  /** Replies are kept beside their requests and the jobs that made them. */
  ghost predicate Recorded(jobs: Jobs, s: State) {
    && |s.answered| == |s.replies| == |s.tickets|
    && forall k :: 0 <= k < |s.replies| ==>
         && Known(s.answered[k]) && s.tickets[k] < s.computed
         && s.replies[k] == Answer(jobs, s.answered[k], s.tickets[k])
  }

  ghost predicate Genuine(jobs: Jobs, s: State) {
    && (forall i :: 0 <= i < |s.skipped| ==> !Known(s.skipped[i]))
    && (forall w :: 0 <= w < |s.pool| ==> Known(s.pool[w].req) && Working(jobs, s.pool[w], s.computed))
    && Recorded(jobs, s)
    && (forall r :: 0 <= r < |s.received| ==>
          var (req, k) := s.received[r];
          req in s.sent && k < |s.replies| && Suits(s.replies[k], req))
    && WaitingSent(s.waiting, s.sent)
  }

  ghost predicate WaitingSent(waiting: seq<Packet>, sent: seq<Packet>) {
    forall i :: 0 <= i < |waiting| ==> waiting[i] in sent
  }

  /** An answer that waits for being sent was computed from the worker's own request. */
  ghost predicate Working(jobs: Jobs, w: Worker, computed: nat) {
    w.stage.Computed? ==> w.stage.ticket < computed && w.stage.answer == Answer(jobs, w.req, w.stage.ticket)
  }

  /** No two answers, sent or waiting, come from the same run of a job. */
  ghost predicate OneRunEach(pool: seq<Worker>, tickets: seq<nat>) {
    && (forall k, l :: 0 <= k < l < |tickets| ==> tickets[k] != tickets[l])
    && (forall w, k :: 0 <= w < |pool| && pool[w].stage.Computed? && 0 <= k < |tickets| ==>
          pool[w].stage.ticket != tickets[k])
    && (forall w, v :: 0 <= w < v < |pool| && pool[w].stage.Computed? && pool[v].stage.Computed? ==>
          pool[w].stage.ticket != pool[v].stage.ticket)
  }

  /** No reply is in the mailbox twice, or there and taken, or taken twice. */
  ghost predicate TakenOnce(mailbox: seq<nat>, received: seq<(Packet, nat)>, replies: nat) {
    && (forall i :: 0 <= i < |mailbox| ==> mailbox[i] < replies)
    && (forall r :: 0 <= r < |received| ==> received[r].1 < replies)
    && (forall i, j :: 0 <= i < j < |mailbox| ==> mailbox[i] != mailbox[j])
    && (forall i, r :: 0 <= i < |mailbox| && 0 <= r < |received| ==> mailbox[i] != received[r].1)
    && (forall q, r :: 0 <= q < r < |received| ==> received[q].1 != received[r].1)
  }

  ghost predicate Invariant(jobs: Jobs, s: State) {
    && Conserved(s) && Genuine(jobs, s) && OneRunEach(s.pool, s.tickets)
    && TakenOnce(s.mailbox, s.received, |s.replies|)
  }

  lemma WithoutMultiset<T>(s: seq<T>, i: nat)
    requires i < |s|
    ensures multiset(s) == multiset(Without(s, i)) + multiset{s[i]}
  {
    assert s == s[..i] + [s[i]] + s[i + 1..];
  }

  lemma DispatchConserves(jobs: Jobs, s: State, i: nat)
    requires Conserved(s) && i < |s.queue|
    ensures Conserved(Perform(jobs, s, Dispatch(i)))
  {
    var p := s.queue[i];
    WithoutMultiset(s.queue, i);
    if Known(p) {
      assert Requests(s.pool + Dispatched(p)) == Requests(s.pool) + [p];
    } else {
      assert Requests(s.pool + Dispatched(p)) == Requests(s.pool);
    }
  }

  lemma ReplyConserves(jobs: Jobs, s: State, w: nat)
    requires Conserved(s) && Enabled(s, Reply(w))
    ensures Conserved(Perform(jobs, s, Reply(w)))
  {
    assert Requests(Without(s.pool, w)) == Without(Requests(s.pool), w);
    WithoutMultiset(Requests(s.pool), w);
  }

  lemma StepConserves(jobs: Jobs, s: State, a: Action)
    requires Conserved(s) && Enabled(s, a)
    ensures Conserved(Perform(jobs, s, a))
  {
    match a
    case Send(req) =>
    case Dispatch(i) => DispatchConserves(jobs, s, i);
    case Start(w) =>
      assert Requests(Perform(jobs, s, a).pool) == Requests(s.pool);
    case Compute(w) =>
      assert Requests(Perform(jobs, s, a).pool) == Requests(s.pool);
    case Reply(w) => ReplyConserves(jobs, s, w);
    case Receive(c, r) =>
  }

  lemma StepGenuine(jobs: Jobs, s: State, a: Action)
    requires Genuine(jobs, s) && Enabled(s, a)
    ensures Genuine(jobs, Perform(jobs, s, a))
  {
    StepWaitingSent(jobs, s, a);
    if a.Reply? {
      StepRecorded(jobs, s, a.w);
    }
  }

  lemma StepRecorded(jobs: Jobs, s: State, w: nat)
    requires Genuine(jobs, s) && Enabled(s, Reply(w))
    ensures Recorded(jobs, Perform(jobs, s, Reply(w)))
  {
    assert Working(jobs, s.pool[w], s.computed);
  }

  lemma StepOneRun(jobs: Jobs, s: State, a: Action)
    requires Genuine(jobs, s) && OneRunEach(s.pool, s.tickets) && Enabled(s, a)
    ensures var s' := Perform(jobs, s, a); OneRunEach(s'.pool, s'.tickets)
  {
    match a
    case Compute(w) =>
      RunOnce(s.pool, s.tickets, w, Computed(Answer(jobs, s.pool[w].req, s.computed), s.computed));
    case Reply(w) => SentOnce(s.pool, s.tickets, w);
    case _ =>
  }

  lemma RunOnce(pool: seq<Worker>, tickets: seq<nat>, w: nat, stage: Stage)
    requires OneRunEach(pool, tickets) && w < |pool| && stage.Computed? && stage.ticket !in tickets
    requires forall v :: 0 <= v < |pool| && pool[v].stage.Computed? ==> pool[v].stage.ticket != stage.ticket
    ensures OneRunEach(pool[w := pool[w].(stage := stage)], tickets)
  {}

  lemma SentOnce(pool: seq<Worker>, tickets: seq<nat>, w: nat)
    requires OneRunEach(pool, tickets) && w < |pool| && pool[w].stage.Computed?
    ensures OneRunEach(Without(pool, w), tickets + [pool[w].stage.ticket])
  {}

  lemma StepTakenOnce(jobs: Jobs, s: State, a: Action)
    requires TakenOnce(s.mailbox, s.received, |s.replies|) && Enabled(s, a)
    ensures var s' := Perform(jobs, s, a); TakenOnce(s'.mailbox, s'.received, |s'.replies|)
  {
    match a
    case Reply(w) => PostedOnce(s.mailbox, s.received, |s.replies|);
    case Receive(c, r) => ReceivedOnce(s.mailbox, s.received, |s.replies|, s.waiting[c], r);
    case _ =>
  }

  lemma PostedOnce(mailbox: seq<nat>, received: seq<(Packet, nat)>, replies: nat)
    requires TakenOnce(mailbox, received, replies)
    ensures TakenOnce(mailbox + [replies], received, replies + 1)
  {}

  lemma ReceivedOnce(mailbox: seq<nat>, received: seq<(Packet, nat)>, replies: nat, req: Packet, r: nat)
    requires TakenOnce(mailbox, received, replies) && r < |mailbox|
    ensures TakenOnce(Without(mailbox, r), received + [(req, mailbox[r])], replies)
  {}

  /** Every run of every interleaving keeps the invariant. */
  lemma {:induction false} RunKeeps(jobs: Jobs, s: State, run: seq<Action>)
    requires Invariant(jobs, s) && Legal(jobs, s, run)
    ensures Invariant(jobs, Final(jobs, s, run))
    decreases |run|
  {
    if run != [] {
      StepConserves(jobs, s, run[0]);
      StepGenuine(jobs, s, run[0]);
      StepOneRun(jobs, s, run[0]);
      StepTakenOnce(jobs, s, run[0]);
      RunKeeps(jobs, Perform(jobs, s, run[0]), run[1..]);
    }
  }

  ghost predicate Reachable(jobs: Jobs, s: State) {
    exists run :: Legal(jobs, INITIAL, run) && Final(jobs, INITIAL, run) == s
  }

  lemma ReachableInvariant(jobs: Jobs, s: State)
    requires Reachable(jobs, s)
    ensures Invariant(jobs, s)
  {
    var run :| Legal(jobs, INITIAL, run) && Final(jobs, INITIAL, run) == s;
    RunKeeps(jobs, INITIAL, run);
  }

  ghost predicate DistinctIds(sent: seq<Packet>) {
    forall i, j :: 0 <= i < j < |sent| ==> sent[i].meta.correlationId != sent[j].meta.correlationId
  }

  /** Every reply carries the correlation id of a request that was sent with a known subject, goes to
      the sender of that request and comes from its addressee. */
  lemma RepliesHaveRequests(jobs: Jobs, s: State, k: nat)
    requires Reachable(jobs, s) && k < |s.replies|
    ensures |s.answered| == |s.replies|
    ensures var req, rep := s.answered[k], s.replies[k];
            && req in s.sent && Known(req)
            && rep.meta.correlationId == req.meta.correlationId
            && rep.meta.to == req.meta.from && rep.meta.from == req.meta.to
  {
    ReachableInvariant(jobs, s);
    assert s.answered[k] in multiset(s.answered);
    assert s.answered[k] in multiset(s.sent);
  }

  /** Nothing is answered more often than it was sent, whatever the correlation ids are. */
  lemma AnsweredAtMostAsSent(jobs: Jobs, s: State)
    requires Reachable(jobs, s)
    ensures multiset(s.answered) <= multiset(s.sent)
  {
    ReachableInvariant(jobs, s);
  }

  lemma {:induction false} OnceIn(ps: seq<Packet>, p: Packet)
    requires DistinctIds(ps)
    ensures multiset(ps)[p] <= 1
  {
    if ps != [] {
      var l := |ps| - 1;
      assert ps == ps[..l] + [ps[l]];
      OnceIn(ps[..l], p);
      assert forall i :: 0 <= i < l ==> ps[..l][i] != ps[l];
      assert ps[l] !in ps[..l];
    }
  }

  lemma TwiceIn(ps: seq<Packet>, i: nat, j: nat)
    requires i < j < |ps| && ps[i] == ps[j]
    ensures multiset(ps)[ps[i]] >= 2
  {
    assert ps == ps[..j] + [ps[j]] + ps[j + 1..];
    assert ps[..j][i] == ps[i] && ps[i] in multiset(ps[..j]);
  }

  /** With distinct correlation ids no request is answered twice, and a reply can be traced to one
      request and one run of a job only. */
  lemma NoneAnsweredTwice(jobs: Jobs, s: State, i: nat, j: nat)
    requires Reachable(jobs, s) && DistinctIds(s.sent) && i < j < |s.replies|
    ensures s.replies[i].meta.correlationId != s.replies[j].meta.correlationId
    ensures j < |s.tickets| && s.tickets[i] != s.tickets[j]
  {
    ReachableInvariant(jobs, s);
    RepliesHaveRequests(jobs, s, i);
    RepliesHaveRequests(jobs, s, j);
    if s.replies[i].meta.correlationId == s.replies[j].meta.correlationId {
      SameIdSame(s.sent, s.answered[i], s.answered[j]);
      TwiceIn(s.answered, i, j);
      OnceIn(s.sent, s.answered[i]);
    }
  }

  lemma SameIdSame(ps: seq<Packet>, p: Packet, q: Packet)
    requires DistinctIds(ps) && p in ps && q in ps && p.meta.correlationId == q.meta.correlationId
    ensures p == q
  {}

  ghost predicate Drained(s: State) {
    s.queue == [] && s.pool == []
  }

  /** Once queue and pool are empty, exactly the requests with a known subject were answered, each as
      often as it was sent. */
  lemma DrainedAnswered(jobs: Jobs, s: State, req: Packet)
    requires Reachable(jobs, s) && Drained(s)
    ensures multiset(s.answered)[req] == if Known(req) then multiset(s.sent)[req] else 0
  {
    ReachableInvariant(jobs, s);
    assert Requests(s.pool) == [];
    if Known(req) {
      assert req !in s.skipped;
    } else {
      assert req !in s.answered;
    }
  }

  // ---------- who takes which reply ----------

  /** A client does not choose an id that a request in flight has: one whose reply was not taken yet. */
  ghost predicate FreshId(s: State, a: Action) {
    a.Send? ==> forall i :: 0 <= i < |s.waiting| ==> s.waiting[i].meta.correlationId != a.req.meta.correlationId
  }

  ghost predicate Careful(jobs: Jobs, s: State, run: seq<Action>)
    requires Legal(jobs, s, run)
    decreases |run|
  {
    run == [] || (FreshId(s, run[0]) && Careful(jobs, Perform(jobs, s, run[0]), run[1..]))
  }

  /** The state can be reached by clients that are careful. */
  ghost predicate CarefullyReachable(jobs: Jobs, s: State) {
    exists run :: Legal(jobs, INITIAL, run) && Careful(jobs, INITIAL, run) && Final(jobs, INITIAL, run) == s
  }

  /** The requests that the replies in the mailbox answer. */
  function Mailed(answered: seq<Packet>, mailbox: seq<nat>): seq<Packet>
    requires forall i :: 0 <= i < |mailbox| ==> mailbox[i] < |answered|
  {
    seq(|mailbox|, i requires 0 <= i < |mailbox| => answered[mailbox[i]])
  }

  /** The requests in flight have different ids, and each is in one place: in the queue, passed over, with
      a worker, or answered by a reply in the mailbox. */
  ghost predicate InFlight(s: State) {
    && (forall i :: 0 <= i < |s.mailbox| ==> s.mailbox[i] < |s.answered|)
    && DistinctIds(s.waiting)
    && multiset(s.waiting) ==
       multiset(s.queue) + multiset(s.skipped) + multiset(Requests(s.pool)) + multiset(Mailed(s.answered, s.mailbox))
  }

  /** Every reply that was taken answers the very request it was taken for. */
  ghost predicate Matched(s: State) {
    forall r :: 0 <= r < |s.received| ==>
      s.received[r].1 < |s.answered| && s.answered[s.received[r].1] == s.received[r].0
  }

  lemma SendInFlight(jobs: Jobs, s: State, req: Packet)
    requires InFlight(s) && Enabled(s, Send(req)) && FreshId(s, Send(req))
    ensures InFlight(Perform(jobs, s, Send(req)))
  {}

  lemma DispatchInFlight(jobs: Jobs, s: State, i: nat)
    requires InFlight(s) && i < |s.queue|
    ensures InFlight(Perform(jobs, s, Dispatch(i)))
  {
    var p := s.queue[i];
    WithoutMultiset(s.queue, i);
    if Known(p) {
      assert Requests(s.pool + Dispatched(p)) == Requests(s.pool) + [p];
    } else {
      assert Requests(s.pool + Dispatched(p)) == Requests(s.pool);
    }
  }

  lemma ReplyInFlight(jobs: Jobs, s: State, w: nat)
    requires InFlight(s) && |s.answered| == |s.replies| && Enabled(s, Reply(w))
    ensures InFlight(Perform(jobs, s, Reply(w)))
  {
    var s' := Perform(jobs, s, Reply(w));
    assert Requests(Without(s.pool, w)) == Without(Requests(s.pool), w);
    WithoutMultiset(Requests(s.pool), w);
    assert Mailed(s'.answered, s'.mailbox) == Mailed(s.answered, s.mailbox) + [s.pool[w].req];
  }

  /** The reply a client takes is the one to its own request: no other one in flight has the id. */
  lemma TakesOwn(jobs: Jobs, s: State, c: nat, r: nat)
    requires InFlight(s) && Recorded(jobs, s) && Enabled(s, Receive(c, r))
    ensures s.answered[s.mailbox[r]] == s.waiting[c]
  {
    var k := s.mailbox[r];
    assert s.replies[k].meta.correlationId == s.answered[k].meta.correlationId;
    assert Mailed(s.answered, s.mailbox)[r] == s.answered[k];
    assert s.answered[k] in multiset(Mailed(s.answered, s.mailbox));
    assert s.answered[k] in multiset(s.waiting);
    SameIdSame(s.waiting, s.answered[k], s.waiting[c]);
  }

  lemma ReceiveInFlight(jobs: Jobs, s: State, c: nat, r: nat)
    requires InFlight(s) && Recorded(jobs, s) && Enabled(s, Receive(c, r))
    ensures InFlight(Perform(jobs, s, Receive(c, r)))
  {
    var mailed := Mailed(s.answered, s.mailbox);
    assert mailed[r] == s.waiting[c] by { TakesOwn(jobs, s, c, r); }
    BothWithout(s.waiting, c, multiset(s.queue) + multiset(s.skipped) + multiset(Requests(s.pool)), mailed, r);
    assert Mailed(s.answered, Without(s.mailbox, r)) == Without(mailed, r);
    DistinctWithout(s.waiting, c);
  }

  lemma BothWithout<T>(xs: seq<T>, c: nat, rest: multiset<T>, ys: seq<T>, r: nat)
    requires c < |xs| && r < |ys| && xs[c] == ys[r] && multiset(xs) == rest + multiset(ys)
    ensures multiset(Without(xs, c)) == rest + multiset(Without(ys, r))
  {
    WithoutMultiset(xs, c);
    WithoutMultiset(ys, r);
    assert multiset(Without(xs, c)) == multiset(xs) - multiset{xs[c]};
    assert rest + multiset(Without(ys, r)) == multiset(xs) - multiset{ys[r]};
  }

  lemma DistinctWithout(ps: seq<Packet>, c: nat)
    requires DistinctIds(ps) && c < |ps|
    ensures DistinctIds(Without(ps, c))
  {}

  lemma StepInFlight(jobs: Jobs, s: State, a: Action)
    requires InFlight(s) && Recorded(jobs, s) && Enabled(s, a) && FreshId(s, a)
    ensures InFlight(Perform(jobs, s, a))
  {
    match a
    case Send(req) => SendInFlight(jobs, s, req);
    case Dispatch(i) => DispatchInFlight(jobs, s, i);
    case Start(w) => assert Requests(Perform(jobs, s, a).pool) == Requests(s.pool);
    case Compute(w) => assert Requests(Perform(jobs, s, a).pool) == Requests(s.pool);
    case Reply(w) => ReplyInFlight(jobs, s, w);
    case Receive(c, r) => ReceiveInFlight(jobs, s, c, r);
  }

  lemma StepMatched(jobs: Jobs, s: State, a: Action)
    requires Matched(s) && InFlight(s) && Recorded(jobs, s) && Enabled(s, a)
    ensures Matched(Perform(jobs, s, a))
  {
    if a.Receive? {
      TakesOwn(jobs, s, a.client, a.reply);
    }
  }

  lemma {:induction false} CarefulRunKeeps(jobs: Jobs, s: State, run: seq<Action>)
    requires Invariant(jobs, s) && InFlight(s) && Matched(s)
    requires Legal(jobs, s, run) && Careful(jobs, s, run)
    ensures var s' := Final(jobs, s, run); Invariant(jobs, s') && InFlight(s') && Matched(s')
    decreases |run|
  {
    if run != [] {
      var s1 := Perform(jobs, s, run[0]);
      assert run == [run[0]] + run[1..] && [run[0]][1..] == [];
      RunKeeps(jobs, s, [run[0]]);
      assert Final(jobs, s, [run[0]]) == s1;
      StepInFlight(jobs, s, run[0]);
      StepMatched(jobs, s, run[0]);
      CarefulRunKeeps(jobs, s1, run[1..]);
    }
  }

  /** A client never takes the answer to somebody else's request, if no two requests in flight have the
      same id: the reply it took was made for the very request it sent, by running a job for its subject
      on its own payload, and nobody else takes that reply. */
  lemma NoCrossTalk(jobs: Jobs, s: State, r: nat)
    requires CarefullyReachable(jobs, s) && r < |s.received|
    ensures var (req, k) := s.received[r];
            && k < |s.replies| == |s.answered| == |s.tickets| && s.tickets[k] < s.computed
            && s.answered[k] == req && s.replies[k] == Answer(jobs, req, s.tickets[k])
            && forall q :: 0 <= q < |s.received| && q != r ==> s.received[q].1 != k
  {
    var run :| Legal(jobs, INITIAL, run) && Careful(jobs, INITIAL, run) && Final(jobs, INITIAL, run) == s;
    CarefulRunKeeps(jobs, INITIAL, run);
  }

  /** What the caller gets in the end, in every such state, for the reply it took: these errors for a
      payload that is empty or cannot be read; otherwise a value exactly when the job that was run on its
      payload returned, with the text of that output, and exactly the text that was thrown when it did not. */
  lemma FaithfulToClient(jobs: Jobs, s: State, r: nat) returns (n: nat)
    requires CarefullyReachable(jobs, s) && r < |s.received|
    ensures n < s.computed && s.received[r].1 < |s.replies|
    ensures var (req, k) := s.received[r];
            var job, got := jobs(n, req.meta.subject), ClientResult(Ok(ToWire(s.replies[k])));
            && (req.userData == "" ==> got == Err(PAYLOAD_EMPTY))
            && (req.userData != "" ==>
                  match (job.decode)(req.userData)
                  case None => got == Err(PAYLOAD_INCORRECT)
                  case Some(cmd) =>
                    match (job.run)(cmd)
                    case Finished(Some(text)) => got.Ok? && got.value.userData == text
                    case Finished(None) => got.Ok? && got.value.userData == job.emptyText
                    case Threw(_, text) => got == Err(text))
  {
    NoCrossTalk(jobs, s, r);
    var (req, k) := s.received[r];
    n := s.tickets[k];
    FaithfulResult(req, jobs(n, req.meta.subject));
  }

  /** Clients whose ids are never used twice are careful. */
  lemma DistinctReachable(jobs: Jobs, s: State)
    requires Reachable(jobs, s) && DistinctIds(s.sent)
    ensures CarefullyReachable(jobs, s)
  {
    var run :| Legal(jobs, INITIAL, run) && Final(jobs, INITIAL, run) == s;
    DistinctIsCareful(jobs, INITIAL, run);
  }

  lemma {:induction false} SentGrows(jobs: Jobs, s: State, run: seq<Action>)
    requires Legal(jobs, s, run)
    ensures s.sent <= Final(jobs, s, run).sent
    decreases |run|
  {
    if run != [] {
      SentGrows(jobs, Perform(jobs, s, run[0]), run[1..]);
    }
  }

  lemma {:induction false} DistinctIsCareful(jobs: Jobs, s: State, run: seq<Action>)
    requires Legal(jobs, s, run) && DistinctIds(Final(jobs, s, run).sent)
    requires WaitingSent(s.waiting, s.sent)
    ensures Careful(jobs, s, run)
    decreases |run|
  {
    if run != [] {
      var s1 := Perform(jobs, s, run[0]);
      SentGrows(jobs, s1, run[1..]);
      StepWaitingSent(jobs, s, run[0]);
      DistinctIsCareful(jobs, s1, run[1..]);
      if run[0].Send? {
        DistinctFront(s1.sent, Final(jobs, s1, run[1..]).sent);
        NewIdFresh(s, s1.sent, run[0]);
      }
    }
  }

  lemma StepWaitingSent(jobs: Jobs, s: State, a: Action)
    requires WaitingSent(s.waiting, s.sent) && Enabled(s, a)
    ensures var s' := Perform(jobs, s, a); WaitingSent(s'.waiting, s'.sent)
  {}

  lemma DistinctFront(front: seq<Packet>, ps: seq<Packet>)
    requires front <= ps && DistinctIds(ps)
    ensures DistinctIds(front)
  {}

  lemma NewIdFresh(s: State, sent: seq<Packet>, a: Action)
    requires a.Send? && sent == s.sent + [a.req] && DistinctIds(sent)
    requires WaitingSent(s.waiting, s.sent)
    ensures FreshId(s, a)
  {
    forall i | 0 <= i < |s.waiting| ensures s.waiting[i].meta.correlationId != a.req.meta.correlationId {
      var j :| 0 <= j < |s.sent| && s.sent[j] == s.waiting[i];
      assert sent[j] == s.sent[j] && sent[|s.sent|] == a.req;
    }
  }

  // ---------- every run can be brought to an end ----------

  function Cost(w: Worker): nat {
    match w.stage case Waiting => 3 case Running => 2 case Computed(_, _) => 1
  }

  function PoolCost(pool: seq<Worker>): nat {
    if pool == [] then 0 else Cost(pool[0]) + PoolCost(pool[1..])
  }

  /** The steps still to be made before queue and pool are empty. */
  function Remaining(s: State): nat {
    4 * |s.queue| + PoolCost(s.pool)
  }

  lemma {:induction false} PoolCostCat(a: seq<Worker>, b: seq<Worker>)
    ensures PoolCost(a + b) == PoolCost(a) + PoolCost(b)
  {
    if a == [] {
      assert a + b == b;
    } else {
      assert (a + b)[0] == a[0] && (a + b)[1..] == a[1..] + b;
      PoolCostCat(a[1..], b);
    }
  }

  lemma PoolCostAt(pool: seq<Worker>, w: nat, v: Worker)
    requires w < |pool|
    ensures PoolCost(pool[w := v]) == PoolCost(pool) - Cost(pool[w]) + Cost(v)
    ensures PoolCost(Without(pool, w)) == PoolCost(pool) - Cost(pool[w])
  {
    var x, z := pool[..w], pool[w + 1..];
    assert pool == x + [pool[w]] + z && pool[w := v] == x + [v] + z;
    PoolCostCat(x + [pool[w]], z);
    PoolCostCat(x, [pool[w]]);
    PoolCostCat(x + [v], z);
    PoolCostCat(x, [v]);
    PoolCostCat(x, z);
    assert [v][1..] == [] && [pool[w]][1..] == [];
  }

  /** A step of the dispatcher or of a worker. */
  predicate Internal(a: Action) {
    a.Dispatch? || a.Start? || a.Compute? || a.Reply?
  }

  lemma InternalShrinks(jobs: Jobs, s: State, a: Action)
    requires Enabled(s, a) && Internal(a)
    ensures Remaining(Perform(jobs, s, a)) < Remaining(s)
  {
    match a
    case Dispatch(i) =>
      PoolCostCat(s.pool, Dispatched(s.queue[i]));
      assert [Worker(s.queue[i], Waiting)][1..] == [];
    case Start(w) => PoolCostAt(s.pool, w, s.pool[w].(stage := Running));
    case Compute(w) =>
      PoolCostAt(s.pool, w, s.pool[w].(stage := Computed(Answer(jobs, s.pool[w].req, s.computed), s.computed)));
    case Reply(w) => PoolCostAt(s.pool, w, s.pool[w]);
  }

  /** Without further requests dispatcher and workers, in whatever order they run, get to the point
      where nothing is left to do: from every state, after at most so many steps. */
  lemma {:induction false} InternalRunsEnd(jobs: Jobs, s: State, run: seq<Action>)
    requires Legal(jobs, s, run) && forall i :: 0 <= i < |run| ==> Internal(run[i])
    ensures |run| + Remaining(Final(jobs, s, run)) <= Remaining(s)
    decreases |run|
  {
    if run != [] {
      InternalShrinks(jobs, s, run[0]);
      InternalRunsEnd(jobs, Perform(jobs, s, run[0]), run[1..]);
    }
  }

  /** And they are never stuck before: as long as something is left, a step is possible. */
  lemma NeverStuck(s: State)
    ensures Drained(s) || exists a :: Enabled(s, a) && Internal(a)
  {
    if s.queue != [] {
      assert Enabled(s, Dispatch(0)) && Internal(Dispatch(0));
    } else if s.pool != [] {
      match s.pool[0].stage
      case Waiting => assert Enabled(s, Start(0)) && Internal(Start(0));
      case Running => assert Enabled(s, Compute(0)) && Internal(Compute(0));
      case Computed(_, _) => assert Enabled(s, Reply(0)) && Internal(Reply(0));
    }
  }
}
