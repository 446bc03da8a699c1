/** The GETNEXT walk over an agent's table. */
module SnmpWalk {
  import opened Wrappers
  import opened Order

  type Oid = seq<nat>

  /** .1.3.6.1.2.1, where the walk begins. */
  const ROOT: Oid := [1, 3, 6, 1, 2, 1]

  /** The type of a returned variable, as far as the walk tells it apart. */
  datatype Kind = Value | EndOfMibView | NoSuchObject | NoSuchInstance
  datatype Binding = Binding(name: Oid, kind: Kind)

  /** What `snmp_sess_synch_response` comes back with. */
  datatype Reply =
    | Failed(text: string)  // STAT_ERROR
    | TimedOut
    | ErrorStatus           // a response whose error status is set
    | Response(vars: seq<Binding>)

  /** The peer: the reply to the i-th request, for the name in it. */
  type Responder = (nat, Oid) -> Reply

  /** The loop's variables, and the names given to the callback so far; or the end. */
  datatype WalkState =
    | Running(name: Oid, calls: seq<Oid>)
    | Done(calls: seq<Oid>, result: Expected<()>)

  /** The loop over the variables of one response. */
  function TakeVars(name: Oid, calls: seq<Oid>, vars: seq<Binding>): WalkState
    decreases |vars|
  {
    if vars == [] then Running(name, calls)
    else if vars[0].kind == Value then TakeVars(vars[0].name, calls + [vars[0].name], vars[1..])
    else Running(name, calls + [vars[0].name])
  }

  function OnReply(name: Oid, calls: seq<Oid>, r: Reply): WalkState {
    match r
    case Failed(text) => Done(calls, Err(text))
    case TimedOut => Done(calls, Ok(()))
    case ErrorStatus => Done(calls, Ok(()))
    case Response(vars) => TakeVars(name, calls, vars)
  }

  /** The state after n rounds of the loop. */
  function After(peer: Responder, n: nat): WalkState {
    if n == 0 then Running(ROOT, [])
    else match After(peer, n - 1)
      case Running(name, calls) => OnReply(name, calls, peer(n - 1, name))
      case Done(calls, result) => Done(calls, result)
  }

  /** The reply the loop got in round i, as long as it still ran. */
  ghost predicate GotResponse(peer: Responder, i: nat) {
    After(peer, i).Running? && peer(i, After(peer, i).name).Response?
  }

  /** For every peer: the loop still runs after n rounds exactly when each of them brought a response
      without error status.  Nothing else stops it. */
  lemma {:induction false} RunsWhileAnswered(peer: Responder, n: nat)
    ensures After(peer, n).Running? <==> forall i :: 0 <= i < n ==> GotResponse(peer, i)
  {
    if n > 0 {
      RunsWhileAnswered(peer, n - 1);
      var s := After(peer, n - 1);
      if s.Running? && peer(n - 1, s.name).Response? {
        TakeVarsRuns(s.name, s.calls, peer(n - 1, s.name).vars);
        assert GotResponse(peer, n - 1);
      } else {
        assert !GotResponse(peer, n - 1);
      }
    }
  }

  lemma {:induction false} TakeVarsRuns(name: Oid, calls: seq<Oid>, vars: seq<Binding>)
    ensures TakeVars(name, calls, vars).Running?
    decreases |vars|
  {
    if vars != [] && vars[0].kind == Value {
      TakeVarsRuns(vars[0].name, calls + [vars[0].name], vars[1..]);
    }
  }

  lemma OneVar(name: Oid, calls: seq<Oid>, v: Binding)
    ensures TakeVars(name, calls, [v]) == Running(if v.kind == Value then v.name else name, calls + [v.name])
  {}

  /** The names of the first n variables. */
  function Names(vars: seq<Binding>, n: nat): seq<Oid>
    requires n <= |vars|
  {
    seq(n, i requires 0 <= i < n => vars[i].name)
  }

  /** A response with any number of variables: the callback gets all names up to and with the first mark
      of whatever kind, and the walk goes on from the last name before it. */
  lemma {:induction false} TakeVarsMeans(name: Oid, calls: seq<Oid>, vars: seq<Binding>, k: nat)
    requires k <= |vars| && (forall i :: 0 <= i < k ==> vars[i].kind == Value)
    requires k < |vars| ==> vars[k].kind != Value
    ensures var s := TakeVars(name, calls, vars);
            && s.Running?
            && s.calls == calls + Names(vars, if k < |vars| then k + 1 else k)
            && s.name == (if k > 0 then vars[k - 1].name else name)
    decreases k
  {
    var n := if k < |vars| then k + 1 else k;
    if k == 0 {
      assert Names(vars, n) == if vars == [] then [] else [vars[0].name];
      assert calls + [] == calls;
    } else {
      TakeVarsMeans(vars[0].name, calls + [vars[0].name], vars[1..], k - 1);
      assert Names(vars, n) == [vars[0].name] + Names(vars[1..], n - 1);
    }
  }

  // ---------- agents ----------

  /** GETNEXT on the table: the least larger name, if there is one. */
  ghost predicate NextIn(table: set<Oid>, name: Oid, r: Option<Oid>) {
    match r
    case None => forall t :: t in table ==> !Less(name, t)
    case Some(o) => o in table && Less(name, o) && forall t :: t in table && Less(name, t) ==> t == o || Less(o, t)
  }

  ghost predicate Conforming(table: set<Oid>, next: Oid -> Option<Oid>) {
    forall name :: NextIn(table, name, next(name))
  }

  /** Every finite table has such an agent. */
  lemma {:induction false} NextExists(table: set<Oid>, name: Oid) returns (r: Option<Oid>)
    ensures NextIn(table, name, r)
    decreases table
  {
    if table == {} {
      r := None;
    } else {
      var x :| x in table;
      r := NextExists(table - {x}, name);
      if Less(name, x) {
        if r == None || Less(x, r.value) {
          forall t | t in table && Less(name, t) ensures t == x || Less(x, t) {
            if t != x {
              LessTotal(t, r.value);
              if Less(r.value, t) {
                LessTrans(x, r.value, t);
              }
            }
          }
          r := Some(x);
        } else {
          LessTotal(x, r.value);
        }
      }
    }
  }

  datatype Transport = Delivered | Lost | Broken(text: string)

  /** How an agent says that its table is at its end: by an error status (SNMPv1, section 4.1.3 of
      RFC 1157), or by a variable of its own (section 4.2.2 of RFC 3416). */
  datatype EndStyle = ByStatus | ByMark

  /** An agent behind a network: `net` is the fate of each request. */
  function Agent(next: Oid -> Option<Oid>, style: EndStyle, net: nat -> Transport): Responder {
    (i: nat, name: Oid) =>
      match net(i)
      case Broken(text) => Failed(text)
      case Lost => TimedOut
      case Delivered =>
        match next(name)
        case Some(o) => Response([Binding(o, Value)])
        case None => if style == ByStatus then ErrorStatus else Response([Binding(name, EndOfMibView)])
  }

  /** The name such an agent answers with: the next one, or the asked one again. */
  function Answered(next: Oid -> Option<Oid>, name: Oid): Oid {
    match next(name) case Some(o) => o case None => name
  }

  lemma MarkedRound(next: Oid -> Option<Oid>, net: nat -> Transport, n: nat)
    requires After(Agent(next, ByMark, net), n).Running?
    ensures var s, s' := After(Agent(next, ByMark, net), n), After(Agent(next, ByMark, net), n + 1);
            var o := Answered(next, s.name);
            if net(n) == Delivered then s' == Running(o, s.calls + [o]) else s'.Done?
  {
    var s := After(Agent(next, ByMark, net), n);
    if net(n) == Delivered {
      OneVar(s.name, s.calls, Agent(next, ByMark, net)(n, s.name).vars[0]);
    }
  }

  /** Against an agent that marks the end the walk runs on as long as its requests are delivered, and
      calls back once in every round. */
  lemma {:induction false} MarkedRuns(next: Oid -> Option<Oid>, net: nat -> Transport, n: nat)
    ensures var s := After(Agent(next, ByMark, net), n);
            && (s.Running? <==> forall i :: 0 <= i < n ==> net(i) == Delivered)
            && (s.Running? ==> |s.calls| == n)
  {
    if n > 0 {
      MarkedRuns(next, net, n - 1);
      if After(Agent(next, ByMark, net), n - 1).Running? {
        MarkedRound(next, net, n - 1);
      }
    }
  }

  /** `name` a number of times. */
  function Again(name: Oid, times: nat): seq<Oid> {
    seq(times, i requires 0 <= i < times => name)
  }

  /** The marked walk s after n rounds and the one t of the same table with an error status at its end:
      the calls are the same, and behind the end of t the last name comes again and again. */
  ghost predicate Follows(next: Oid -> Option<Oid>, n: nat, s: WalkState, t: WalkState)
    requires s.Running?
  {
    match t
    case Running(_, _) => s == t
    case Done(calls, result) =>
      && result == Ok(()) && next(s.name) == None && |calls| < n
      && s.calls == calls + Again(s.name, n - |calls|)
  }

  lemma FollowsStep(next: Oid -> Option<Oid>, n: nat, s: WalkState, t: WalkState, t': WalkState)
    requires s.Running? && |s.calls| == n && Follows(next, n, s, t)
    requires t' == if t.Done? then t
                   else if next(t.name) == None then Done(t.calls, Ok(()))
                   else Running(next(t.name).value, t.calls + [next(t.name).value])
    ensures var o := Answered(next, s.name); Follows(next, n + 1, Running(o, s.calls + [o]), t')
  {
    if t.Done? {
      assert Again(s.name, n + 1 - |t.calls|) == Again(s.name, n - |t.calls|) + [s.name];
    } else {
      assert s.calls + [s.name] == s.calls + Again(s.name, 1);
    }
  }

  lemma StatusRound(next: Oid -> Option<Oid>, net: nat -> Transport, n: nat)
    requires net(n) == Delivered
    ensures var t := After(Agent(next, ByStatus, net), n);
            After(Agent(next, ByStatus, net), n + 1) ==
            if t.Done? then t
            else if next(t.name) == None then Done(t.calls, Ok(()))
            else Running(next(t.name).value, t.calls + [next(t.name).value])
  {
    var t := After(Agent(next, ByStatus, net), n);
    if t.Running? && next(t.name).Some? {
      OneVar(t.name, t.calls, Binding(next(t.name).value, Value));
    }
  }

  lemma {:induction false} MarkedRepeats(next: Oid -> Option<Oid>, net: nat -> Transport, n: nat)
    requires After(Agent(next, ByMark, net), n).Running?
    ensures Follows(next, n, After(Agent(next, ByMark, net), n), After(Agent(next, ByStatus, net), n))
  {
    if n > 0 {
      MarkedRuns(next, net, n);
      MarkedRuns(next, net, n - 1);
      MarkedRepeats(next, net, n - 1);
      MarkedRound(next, net, n - 1);
      StatusRound(next, net, n - 1);
      FollowsStep(next, n - 1, After(Agent(next, ByMark, net), n - 1), After(Agent(next, ByStatus, net), n - 1),
                  After(Agent(next, ByStatus, net), n));
    }
  }

  // ---------- the walk of a table that ends with an error status ----------

  ghost predicate Ascending(s: seq<Oid>) {
    forall i, j :: 0 <= i < j < |s| ==> Less(s[i], s[j])
  }

  /** `calls` are the first names of the table behind ROOT, each once and in order: all that are not
      larger than `name`. */
  ghost predicate Covers(table: set<Oid>, calls: seq<Oid>, name: Oid) {
    && Ascending(calls)
    && (forall c :: c in calls <==> c in table && Less(ROOT, c) && (c == name || Less(c, name)))
  }

  /** So much was covered by as many requests, all delivered. */
  ghost predicate Covered(table: set<Oid>, net: nat -> Transport, calls: seq<Oid>, name: Oid) {
    && Covers(table, calls, name) && (name == ROOT || Less(ROOT, name))
    && forall i :: 0 <= i < |calls| ==> net(i) == Delivered
  }

  lemma CoversNext(table: set<Oid>, net: nat -> Transport, calls: seq<Oid>, name: Oid, o: Oid)
    requires Covered(table, net, calls, name) && NextIn(table, name, Some(o)) && net(|calls|) == Delivered
    ensures Covered(table, net, calls + [o], o)
  {
    if name != ROOT {
      LessTrans(ROOT, name, o);
    }
    forall i | 0 <= i < |calls| ensures Less(calls[i], o) {
      assert calls[i] in calls;
      if calls[i] != name {
        LessTrans(calls[i], name, o);
      }
    }
    forall c ensures c in calls + [o] <==> c in table && Less(ROOT, c) && (c == o || Less(c, o)) {
      if c in table && Less(c, o) {
        LessTotal(c, name);
        if Less(name, c) {
          LessAsym(c, o);
        }
      }
      if c in calls && c != name {
        LessTrans(c, name, o);
      }
    }
  }

  lemma LessAsym(a: seq<int>, b: seq<int>)
    requires Less(a, b)
    ensures !Less(b, a) && a != b
  {}

  /** Names in order are determined by which names there are. */
  lemma {:induction false} AscendingUnique(s: seq<Oid>, t: seq<Oid>)
    requires Ascending(s) && Ascending(t) && forall c :: c in s <==> c in t
    ensures s == t
  {
    if s == [] {
      assert forall i :: 0 <= i < |t| ==> t[i] in t;
    } else {
      assert s[0] in s && s[0] in t;
      FirstIsLeast(s, t);
      FirstIsLeast(t, s);
      assert s[0] == t[0] by {
        if s[0] != t[0] {
          LessAsym(s[0], t[0]);
        }
      }
      forall c ensures c in s[1..] <==> c in t[1..] {
        TailNames(s, c);
        TailNames(t, c);
      }
      AscendingUnique(s[1..], t[1..]);
    }
  }

  lemma TailNames(s: seq<Oid>, c: Oid)
    requires Ascending(s) && s != []
    ensures c in s[1..] <==> c in s && c != s[0]
  {
    assert s == [s[0]] + s[1..];
    if c in s[1..] {
      var i :| 0 <= i < |s| - 1 && s[1..][i] == c;
      assert Less(s[0], s[i + 1]);
      LessAsym(s[0], c);
    }
  }

  lemma FirstIsLeast(s: seq<Oid>, t: seq<Oid>)
    requires Ascending(t) && s != [] && s[0] in t
    ensures t[0] == s[0] || Less(t[0], s[0])
  {}

  ghost function Above(table: set<Oid>, name: Oid): set<Oid> {
    set t | t in table && Less(name, t)
  }

  lemma AboveShrinks(table: set<Oid>, name: Oid, o: Oid)
    requires o in table && Less(name, o)
    ensures Above(table, o) < Above(table, name)
  {
    LessIrreflexive(o);
    forall t | t in Above(table, o) ensures t in Above(table, name) {
      LessTrans(name, o, t);
    }
    assert o in Above(table, name) && o !in Above(table, o);
  }

  /** What the callback got, and how the walk ended: the names behind the root, each once and in
      order; all of them when every request was delivered, the first ones otherwise.  A lost request
      ends the walk without an error, a broken connection with one. */
  ghost predicate Walked(table: set<Oid>, net: nat -> Transport, calls: seq<Oid>, result: Expected<()>) {
    && Ascending(calls)
    && (forall c :: c in calls ==> c in table && Less(ROOT, c))
    && (forall c, t :: c in calls && t in table && Less(ROOT, t) && Less(t, c) ==> t in calls)
    && (forall i :: 0 <= i < |calls| ==> net(i) == Delivered)
    && match net(|calls|)
       case Broken(text) => result == Err(text)
       case Lost => result == Ok(())
       case Delivered => result == Ok(()) && forall t :: t in table && Less(ROOT, t) ==> t in calls
  }

  /** The loop over the variables of a response. */
  method HandleVars(vars: seq<Binding>, name: Oid, calls: seq<Oid>) returns (name': Oid, calls': seq<Oid>)
    ensures Running(name', calls') == TakeVars(name, calls, vars)
  {
    name', calls' := name, calls;
    var i := 0;
    while i < |vars|
      invariant 0 <= i <= |vars|
      invariant TakeVars(name', calls', vars[i..]) == TakeVars(name, calls, vars)
    {
      assert vars[i..][0] == vars[i] && vars[i..][1..] == vars[i + 1..];
      calls' := calls' + [vars[i].name];
      if vars[i].kind == Value {
        name' := vars[i].name;
      } else {
        return;
      }
      i := i + 1;
    }
  }

  lemma NextOfName(table: set<Oid>, next: Oid -> Option<Oid>, name: Oid)
    requires Conforming(table, next)
    ensures NextIn(table, name, next(name))
  {}

  lemma CoversNothing(table: set<Oid>)
    ensures Covers(table, [], ROOT)
  {
    forall c | Less(ROOT, c) ensures c != ROOT && !Less(c, ROOT) {
      LessAsym(ROOT, c);
    }
  }

  lemma CoversPrefix(table: set<Oid>, calls: seq<Oid>, name: Oid)
    requires Covers(table, calls, name)
    ensures forall c, t :: c in calls && t in table && Less(ROOT, t) && Less(t, c) ==> t in calls
  {
    forall c, t | c in calls && t in table && Less(ROOT, t) && Less(t, c) ensures t in calls {
      if c != name {
        LessTrans(t, c, name);
      }
    }
  }

  lemma CoversAll(table: set<Oid>, calls: seq<Oid>, name: Oid)
    requires Covers(table, calls, name) && NextIn(table, name, None)
    ensures forall t :: t in table && Less(ROOT, t) ==> t in calls
  {
    forall t | t in table && Less(ROOT, t) ensures t in calls {
      LessTotal(t, name);
    }
  }

  lemma WalkEnds(table: set<Oid>, next: Oid -> Option<Oid>, net: nat -> Transport, name: Oid, calls: seq<Oid>)
    requires Conforming(table, next) && Covered(table, net, calls, name)
    ensures var s := OnReply(name, calls, Agent(next, ByStatus, net)(|calls|, name));
            s.Done? ==> s.calls == calls && Walked(table, net, calls, s.result)
  {
    NextOfName(table, next, name);
    CoversPrefix(table, calls, name);
    if next(name) == None {
      CoversAll(table, calls, name);
    } else {
      OneVar(name, calls, Binding(next(name).value, Value));
    }
  }

  lemma WalkGoesOn(table: set<Oid>, next: Oid -> Option<Oid>, net: nat -> Transport, name: Oid, calls: seq<Oid>)
    requires Conforming(table, next) && Covered(table, net, calls, name)
    requires Agent(next, ByStatus, net)(|calls|, name).Response?
    ensures var s := OnReply(name, calls, Agent(next, ByStatus, net)(|calls|, name));
            && s.Running? && |s.calls| == |calls| + 1
            && Covered(table, net, s.calls, s.name) && Above(table, s.name) < Above(table, name)
  {
    var o := next(name).value;
    NextOfName(table, next, name);
    OneVar(name, calls, Binding(o, Value));
    CoversNext(table, net, calls, name, o);
    AboveShrinks(table, name, o);
  }

  /** The walk of an agent that ends with an error status, round by round. */
  lemma {:induction false} AfterCovered(table: set<Oid>, next: Oid -> Option<Oid>, net: nat -> Transport, n: nat)
    requires Conforming(table, next)
    ensures match After(Agent(next, ByStatus, net), n)
            case Running(name, calls) => |calls| == n && Covered(table, net, calls, name)
            case Done(calls, result) => Walked(table, net, calls, result)
  {
    if n == 0 {
      CoversNothing(table);
    } else {
      AfterCovered(table, next, net, n - 1);
      var s := After(Agent(next, ByStatus, net), n - 1);
      if s.Running? {
        if Agent(next, ByStatus, net)(n - 1, s.name).Response? {
          WalkGoesOn(table, next, net, s.name, s.calls);
        } else {
          WalkEnds(table, next, net, s.name, s.calls);
        }
      }
    }
  }

  /** The walk terminates on every finite table of such an agent. */
  method Walk(ghost table: set<Oid>, next: Oid -> Option<Oid>, net: nat -> Transport)
    returns (calls: seq<Oid>, result: Expected<()>)
    requires Conforming(table, next)
    ensures Walked(table, net, calls, result)
    ensures After(Agent(next, ByStatus, net), |calls| + 1) == Done(calls, result)
  {
    var peer := Agent(next, ByStatus, net);
    calls, result := RunWalk(table, next, net, peer);
    AfterCovered(table, next, net, |calls| + 1);
  }

  method RunWalk(ghost table: set<Oid>, ghost next: Oid -> Option<Oid>, ghost net: nat -> Transport, peer: Responder)
    returns (calls: seq<Oid>, result: Expected<()>)
    requires Conforming(table, next) && peer == Agent(next, ByStatus, net)
    ensures After(peer, |calls| + 1) == Done(calls, result)
  {
    var name := ROOT;
    calls := [];
    while true
      invariant After(peer, |calls|) == Running(name, calls)
      decreases Above(table, name)
    {
      var reply := peer(|calls|, name);
      if reply.Failed? {
        return calls, Err(reply.text);
      }
      if reply.Response? {
        RoundShrinks(table, next, net, peer, name, calls);
        name, calls := HandleVars(reply.vars, name, calls);
      } else {
        return calls, Ok(());
      }
    }
  }

  lemma RoundShrinks(table: set<Oid>, next: Oid -> Option<Oid>, net: nat -> Transport, peer: Responder,
                     name: Oid, calls: seq<Oid>)
    requires Conforming(table, next) && peer == Agent(next, ByStatus, net)
    requires After(peer, |calls|) == Running(name, calls) && peer(|calls|, name).Response?
    ensures var s := TakeVars(name, calls, peer(|calls|, name).vars);
            s.Running? && |s.calls| == |calls| + 1 && Above(table, s.name) < Above(table, name)
  {
    AfterCovered(table, next, net, |calls|);
    WalkGoesOn(table, next, net, name, calls);
  }

  /** It ends after one round more, at most, than there are names left. */
  lemma {:induction false} EndsByStatus(table: set<Oid>, next: Oid -> Option<Oid>, net: nat -> Transport, n: nat)
    returns (m: nat)
    requires Conforming(table, next) && After(Agent(next, ByStatus, net), n).Running?
    ensures n < m <= n + |Above(table, After(Agent(next, ByStatus, net), n).name)| + 1
    ensures After(Agent(next, ByStatus, net), m).Done?
    decreases Above(table, After(Agent(next, ByStatus, net), n).name)
  {
    var s := After(Agent(next, ByStatus, net), n);
    AfterCovered(table, next, net, n);
    if Agent(next, ByStatus, net)(n, s.name).Response? {
      WalkGoesOn(table, next, net, s.name, s.calls);
      var t := After(Agent(next, ByStatus, net), n + 1);
      Fewer(Above(table, t.name), Above(table, s.name));
      m := EndsByStatus(table, next, net, n + 1);
    } else {
      m := n + 1;
    }
  }

  lemma Fewer(a: set<Oid>, b: set<Oid>)
    requires a < b
    ensures |a| < |b|
  {
    assert b == a + (b - a);
  }

  ghost predicate Ends(peer: Responder) {
    exists n: nat :: After(peer, n).Done?
  }

  /** When the walk of a finite table returns, exactly: if the agent ends it with an error status, or if
      some request is not delivered. */
  lemma WalkEndsExactly(table: set<Oid>, next: Oid -> Option<Oid>, style: EndStyle, net: nat -> Transport)
    requires Conforming(table, next)
    ensures Ends(Agent(next, style, net)) <==> style == ByStatus || exists i: nat :: net(i) != Delivered
  {
    var peer := Agent(next, style, net);
    if style == ByStatus {
      var m := EndsByStatus(table, next, net, 0);
      assert After(peer, m).Done?;
    } else if i: nat :| net(i) != Delivered {
      MarkedRuns(next, net, i + 1);
      assert After(peer, i + 1).Done?;
    } else {
      forall n: nat ensures !After(peer, n).Done? {
        MarkedRuns(next, net, n);
      }
    }
  }

  /** A walk with everything delivered gives the one enumeration there is of the names behind the root
      in ascending order. */
  lemma CompleteWalk(table: set<Oid>, net: nat -> Transport, calls: seq<Oid>, result: Expected<()>, names: seq<Oid>)
    requires Walked(table, net, calls, result) && forall i :: net(i) == Delivered
    requires Ascending(names) && forall c :: c in names <==> c in table && Less(ROOT, c)
    ensures result == Ok(()) && calls == names
  {
    assert net(|calls|) == Delivered;
    AscendingUnique(calls, names);
  }
}
