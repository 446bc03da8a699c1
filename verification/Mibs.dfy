/** The reader of an endpoint's MIB names, and the choice of one in the assets job. */
module Mibs {
  import opened Wrappers
  import opened Order
  import opened SnmpWalk
  import Text

  // ---------- which names count ----------

  const IGNORED: seq<string> :=
    ["IP-MIB", "DISMAN-EVENT-MIB", "RFC1213-MIB", "SNMP-", "TCP-MIB", "UDP-MIB"]

  /** The name matches ^(IP-MIB|...|UDP-MIB).* as a whole. */
  predicate IsIgnored(mib: string) {
    exists i :: 0 <= i < |IGNORED| && IGNORED[i] <= mib && Text.NoBreak(mib[|IGNORED[i]|..])
  }

  predicate FilterMib(mib: string) {
    !IsIgnored(mib)
  }

  /** The text before the first "::". */
  function Module(name: string): Option<string> {
    match Text.Find(name, "::") case None => None case Some(pos) => Some(name[..pos])
  }

  /** The modules of the names that pass the filter. */
  ghost function ModulesOf(names: set<string>): set<string> {
    set n | n in names && FilterMib(n) && Module(n).Some? :: Module(n).value
  }

  /** The modules of the known objects that the endpoint has. */
  ghost function AnsweredModules(known: seq<string>, answers: string -> Expected<string>): set<string> {
    set k | k in known && answers(k).Ok? && Module(k).Some? :: Module(k).value
  }

  /** The part of a system object id that is kept: up to its first dot. */
  function SystemMib(oid: string): string {
    match Text.Find(oid, ".") case None => oid case Some(pos) => oid[..pos]
  }

  /** Six prefixes are not wanted, before anything without line breaks. */
  lemma FilterMeans(mib: string)
    ensures FilterMib(mib) <==>
            && !("IP-MIB" <= mib && Text.NoBreak(mib[6..]))
            && !("DISMAN-EVENT-MIB" <= mib && Text.NoBreak(mib[16..]))
            && !("RFC1213-MIB" <= mib && Text.NoBreak(mib[11..]))
            && !("SNMP-" <= mib && Text.NoBreak(mib[5..]))
            && !("TCP-MIB" <= mib && Text.NoBreak(mib[7..]))
            && !("UDP-MIB" <= mib && Text.NoBreak(mib[7..]))
  {
    assert IGNORED[0] == "IP-MIB" && IGNORED[1] == "DISMAN-EVENT-MIB" && IGNORED[2] == "RFC1213-MIB";
    assert IGNORED[3] == "SNMP-" && IGNORED[4] == "TCP-MIB" && IGNORED[5] == "UDP-MIB";
  }

  /** The module ends where the first "::" begins. */
  ghost predicate InModule(name: string, mod: string) {
    mod + "::" <= name && forall i :: 0 <= i < |mod| ==> !("::" <= name[i..])
  }

  lemma ModuleMeans(name: string, mod: string)
    ensures Module(name) == Some(mod) <==> InModule(name, mod)
  {
    var r := Text.Find(name, "::");
    if r.Some? {
      FoundModule(name, r.value);
      if InModule(name, mod) {
        SameModule(name, name[..r.value], mod);
      }
    } else if mod + "::" <= name {
      assert name[|mod|..] == "::" + name[|mod| + 2..];
    }
  }

  lemma FoundModule(name: string, i: nat)
    requires i + 2 <= |name| && name[i..i + 2] == "::" && forall k :: 0 <= k < i ==> !("::" <= name[k..])
    ensures InModule(name, name[..i])
  {
    assert name[..i + 2] == name[..i] + "::";
  }

  lemma SameModule(name: string, mod: string, other: string)
    requires InModule(name, mod) && InModule(name, other)
    ensures mod == other
  {
    assert name[|mod|..] == "::" + name[|mod| + 2..] && name[|other|..] == "::" + name[|other| + 2..];
    assert name[..|mod|] == mod && name[..|other|] == other;
  }

  lemma ModulesMean(names: set<string>, mod: string)
    ensures mod in ModulesOf(names) <==> exists n :: n in names && FilterMib(n) && InModule(n, mod)
  {
    forall n ensures Module(n) == Some(mod) <==> InModule(n, mod) {
      ModuleMeans(n, mod);
    }
    if n :| n in names && FilterMib(n) && InModule(n, mod) {
      assert Module(n).value == mod;
    }
  }

  lemma AnsweredMean(known: seq<string>, answers: string -> Expected<string>, mod: string)
    ensures mod in AnsweredModules(known, answers) <==> exists k :: k in known && answers(k).Ok? && InModule(k, mod)
  {
    forall n ensures Module(n) == Some(mod) <==> InModule(n, mod) {
      ModuleMeans(n, mod);
    }
    if k :| k in known && answers(k).Ok? && InModule(k, mod) {
      assert Module(k).value == mod;
    }
  }

  /** What is kept of an object id has no dot, and is all of it or what is before a dot. */
  lemma SystemMeans(oid: string)
    ensures '.' !in SystemMib(oid) && (SystemMib(oid) == oid || SystemMib(oid) + "." <= oid)
  {
    var r := Text.Find(oid, ".");
    var n := if r.Some? then r.value else |oid|;
    forall i | 0 <= i < n ensures oid[i] != '.' {
      assert oid[i..][0] == oid[i] && !("." <= oid[i..]);
    }
    if r.Some? {
      assert oid[..n + 1] == oid[..n] + ".";
    }
  }

  // ---------- the endpoint ----------

  /** What the session answers: the outcome of the i-th attempt to open it, of reading an object, the
      table with its GETNEXT, the fate of each request of a walk, and how names are rendered. */
  datatype Endpoint = Endpoint(
    opens: nat -> Expected<()>,
    get: string -> Expected<string>,
    next: Oid -> Option<Oid>,
    net: nat -> Transport,
    render: Oid -> string)

  /** What is asked of the session, in order. */
  datatype Call = Open(done: bool) | Get(oid: string) | GetNextWalk

  const NO_MIBS := "Cannot fetch mibs from endpoint. Host is not available or SNMP is not supported."

  /** The session is opened successfully at most once, is not opened again after that, and is not asked
      anything before. */
  ghost predicate Disciplined(log: seq<Call>) {
    forall i :: 0 <= i < |log| ==> (log[i].Open? <==> forall j :: 0 <= j < i ==> log[j] == Open(false))
  }

  class MibsReader {
    const peer: Endpoint
    ghost const table: set<Oid>
    var isOpen: bool
    var attempts: nat
    ghost var log: seq<Call>

    ghost predicate Valid()
      reads this
    {
      && Conforming(table, peer.next)
      && Disciplined(log)
      && (isOpen <==> exists i :: 0 <= i < |log| && log[i] == Open(true))
      && (!isOpen ==> forall i :: 0 <= i < |log| ==> log[i] == Open(false))
    }

    constructor (peer: Endpoint, ghost table: set<Oid>)
      requires Conforming(table, peer.next)
      ensures Valid() && !isOpen && this.peer == peer && this.table == table && log == []
    {
      this.peer, this.table := peer, table;
      isOpen, attempts, log := false, 0, [];
    }

    /** `m_session->open()`, at most once with success. */
    method EnsureOpen() returns (r: Expected<()>)
      requires Valid()
      modifies this
      ensures Valid() && (isOpen <==> r.Ok?)
      ensures log == if old(isOpen) then old(log) else old(log) + [Open(isOpen)]
      ensures r == if old(isOpen) || peer.opens(old(attempts)).Ok? then Ok(()) else peer.opens(old(attempts))
      ensures attempts == old(attempts) + if old(isOpen) then 0 else 1
    {
      if isOpen {
        return Ok(());
      }
      r := peer.opens(attempts);
      attempts := attempts + 1;
      isOpen := r.Ok?;
      log := log + [Open(r.Ok?)];
      assert log[|log| - 1] == Open(r.Ok?);
      if r.Ok? {
        r := Ok(());
      }
    }

    ghost method Asked(c: Call)
      requires Valid() && isOpen && !c.Open?
      modifies this`log
      ensures Valid() && log == old(log) + [c]
    {
      var i :| 0 <= i < |log| && log[i] == Open(true);
      log := log + [c];
      assert log[i] == Open(true);
    }

    method CollectVisited(names: seq<string>) returns (mibs: set<string>)
      ensures mibs == ModulesOf(set n | n in names)
    {
      mibs := {};
      var i := 0;
      while i < |names|
        invariant 0 <= i <= |names|
        invariant mibs == ModulesOf(set n | n in names[..i])
      {
        assert names[..i + 1] == names[..i] + [names[i]];
        if FilterMib(names[i]) {
          var pos := Text.Find(names[i], "::");
          if pos.Some? {
            mibs := mibs + {names[i][..pos.value]};
          }
        }
        i := i + 1;
      }
      assert names[..|names|] == names;
    }

    method TryKnown(known: seq<string>) returns (mibs: set<string>)
      requires Valid() && isOpen
      modifies this`log
      ensures Valid() && old(log) <= log
      ensures mibs == AnsweredModules(known, peer.get)
    {
      mibs := {};
      var i := 0;
      while i < |known|
        invariant 0 <= i <= |known| && Valid() && old(log) <= log
        invariant mibs == AnsweredModules(known[..i], peer.get)
      {
        assert known[..i + 1] == known[..i] + [known[i]];
        Asked(Get(known[i]));
        if peer.get(known[i]).Ok? {
          var pos := Text.Find(known[i], "::");
          if pos.Some? {
            mibs := mibs + {known[i][..pos.value]};
          }
        }
        i := i + 1;
      }
      assert known[..|known|] == known;
    }

    /** The names visited by a walk with everything delivered. */
    ghost function AllNames(): set<string>
      reads this
    {
      set t | t in table && Less(ROOT, t) :: peer.render(t)
    }

    ghost function Rendered(calls: seq<Oid>): set<string> {
      set c | c in calls :: peer.render(c)
    }

    /** The branch that walks: the modules of what was visited before the walk ended, unless it ended
        with an error. */
    method TryAll() returns (r: Expected<set<string>>, ghost calls: seq<Oid>, ghost result: Expected<()>)
      requires Valid() && isOpen
      modifies this`log
      ensures Valid() && log == old(log) + [GetNextWalk]
      ensures Walked(table, peer.net, calls, result)
      ensures r == if result.Err? then Err(result.error) else Ok(ModulesOf(Rendered(calls)))
    {
      Asked(GetNextWalk);
      var visited, ended := Walk(table, peer.next, peer.net);
      calls, result := visited, ended;
      var names := seq(|visited|, i requires 0 <= i < |visited| => peer.render(visited[i]));
      var mibs := CollectVisited(names);
      if ended.Err? {
        return Err(ended.error), calls, result;
      }
      assert (set n | n in names) == Rendered(visited) by { NamesRendered(visited, names); }
      return Ok(mibs), calls, result;
    }

    lemma NamesRendered(calls: seq<Oid>, names: seq<string>)
      requires |names| == |calls| && forall i :: 0 <= i < |calls| ==> names[i] == peer.render(calls[i])
      ensures (set n | n in names) == Rendered(calls)
    {}

    /** The answer after a walk that visited `calls` and ended with `result`. */
    ghost predicate Collected(r: Expected<set<string>>, calls: seq<Oid>, result: Expected<()>) {
      var mibs := ModulesOf(Rendered(calls));
      && Walked(table, peer.net, calls, result)
      && r == if result.Err? then Err(result.error) else if mibs == {} then Err(NO_MIBS) else Ok(mibs)
    }

    /** The order of the visits and repetitions do not matter: only which names there are. */
    lemma VisitedNames(calls: seq<Oid>, result: Expected<()>)
      requires Walked(table, peer.net, calls, result)
      ensures ModulesOf(Rendered(calls)) <= ModulesOf(AllNames())
      ensures (forall i :: peer.net(i) == Delivered) ==>
        result.Ok? && ModulesOf(Rendered(calls)) == ModulesOf(AllNames())
    {}

    /** What an open session makes of the endpoint: the system object id, or else what the table or the
        known objects say. */
    ghost predicate Answers(tryAll: bool, known: seq<string>, r: Expected<set<string>>)
      reads this
    {
      match peer.get("RFC1213-MIB::sysObjectID.0")
      case Ok(oid) => r == Ok({SystemMib(oid)})
      case Err(_) =>
        && (!tryAll ==>
              var mibs := AnsweredModules(known, peer.get);
              r == if mibs == {} then Err(NO_MIBS) else Ok(mibs))
        && (tryAll ==> exists calls, result :: Collected(r, calls, result))
        && (tryAll && r.Ok? ==> r.value <= ModulesOf(AllNames()))
        && (tryAll && (forall i :: peer.net(i) == Delivered) ==>
              var mibs := ModulesOf(AllNames());
              r == if mibs == {} then Err(NO_MIBS) else Ok(mibs))
    }

    /** The MIB names of the endpoint.  A success is never empty.  Without a system object id, and when
        everything is to be tried, it is the set of modules of all names of the table that count. */
    method Read(tryAll: bool, known: seq<string>) returns (r: Expected<set<string>>)
      requires Valid()
      modifies this
      ensures Valid() && isOpen == (old(isOpen) || peer.opens(old(attempts)).Ok?)
      ensures r.Ok? ==> isOpen && r.value != {}
      ensures !isOpen ==> r == Err(peer.opens(old(attempts)).error)
      ensures old(log) <= log && (!isOpen ==> log == old(log) + [Open(false)])
      ensures isOpen ==> Answers(tryAll, known, r)
    {
      var ready := EnsureOpen();
      if ready.Err? {
        return Err(ready.error);
      }
      var mibs: set<string> := {};
      Asked(Get("RFC1213-MIB::sysObjectID.0"));
      var oid := peer.get("RFC1213-MIB::sysObjectID.0");
      if oid.Ok? {
        var pos := Text.Find(oid.value, ".");
        if pos.Some? {
          mibs := mibs + {oid.value[..pos.value]};
        } else {
          mibs := mibs + {oid.value};
        }
        assert mibs == {SystemMib(oid.value)};
      } else {
        if tryAll {
          var found, calls, result := TryAll();
          VisitedNames(calls, result);
          if found.Err? {
            assert Collected(found, calls, result);
            return found;
          }
          mibs := found.value;
          assert Collected(if mibs == {} then Err(NO_MIBS) else Ok(mibs), calls, result);
        } else {
          mibs := TryKnown(known);
        }
        if mibs == {} {
          return Err(NO_MIBS);
        }
      }
      return Ok(mibs);
    }

    /** The description of the system. */
    method ReadName() returns (r: Expected<string>)
      requires Valid()
      modifies this
      ensures Valid() && isOpen == (old(isOpen) || peer.opens(old(attempts)).Ok?)
      ensures isOpen ==> r == peer.get("SNMPv2-MIB::sysDescr.0")
      ensures !isOpen ==> r == Err(peer.opens(old(attempts)).error)
      ensures log == old(log) + (if old(isOpen) then [] else [Open(isOpen)])
                              + (if isOpen then [Get("SNMPv2-MIB::sysDescr.0")] else [])
    {
      var ready := EnsureOpen();
      if ready.Err? {
        return Err(ready.error);
      }
      Asked(Get("SNMPv2-MIB::sysDescr.0"));
      return peer.get("SNMPv2-MIB::sysDescr.0");
    }
  }

  // ---------- the choice of a MIB in the assets job ----------

  /** `*mibs->begin()`: the set is ordered. */
  method Begin(mibs: set<string>) returns (least: string)
    requires mibs != {}
    ensures least in mibs && forall m :: m in mibs ==> m == least || Before(least, m)
  {
    least :| least in mibs;
    var rest := mibs - {least};
    while rest != {}
      invariant rest <= mibs && least in mibs
      invariant forall m :: m in mibs && m !in rest ==> m == least || Before(least, m)
      decreases rest
    {
      var m :| m in rest;
      rest := rest - {m};
      BeforeTotal(m, least);
      if Before(m, least) {
        forall k | k in mibs && k !in rest ensures k == m || Before(m, k) {
          if k != m && k != least {
            BeforeTrans(m, least, k);
          }
        }
        least := m;
      }
    }
  }

  datatype Settings = Settings(
    port: Option<nat>, credentialId: Option<string>, community: Option<string>, mib: Option<string>)

  /** The settings a request goes on with: a port and a MIB, its own, or the standard port and the least
      of the names found. */
  ghost predicate Completed(settings: Settings, mibs: set<string>, r: Settings) {
    && r.port == Some(if settings.port.Some? then settings.port.value else 161)
    && r.credentialId == settings.credentialId && r.community == settings.community
    && r.mib.Some?
    && if settings.mib.Some? then r.mib == settings.mib
       else r.mib.value in mibs && forall m :: m in mibs ==> m == r.mib.value || Before(r.mib.value, m)
  }

  /** The part of `Assets::run` for SNMP: the request gets a port and a MIB, or there is an error.
      `credential` is the outcome of handing the credential or the community to the session; `found` is
      what the reader gave, if it came to that. */
  method PrepareSnmp(reader: MibsReader, settings: Settings, credential: Expected<()>, tryAll: bool, known: seq<string>)
    returns (r: Expected<Settings>, ghost found: Option<Expected<set<string>>>)
    requires reader.Valid()
    modifies reader
    ensures reader.Valid()
    ensures settings.credentialId.None? && settings.community.None? ==>
      r == Err("Credential or community must be set") && found == None
    ensures (settings.credentialId.Some? || settings.community.Some?) && credential.Err? ==>
      r == Err(credential.error) && found == None
    ensures (settings.credentialId.Some? || settings.community.Some?) && credential.Ok? ==>
      && found.Some?
      && reader.isOpen == (old(reader.isOpen) || reader.peer.opens(old(reader.attempts)).Ok?)
      && (reader.isOpen ==> reader.Answers(tryAll, known, found.value))
      && (!reader.isOpen ==> found.value == Err(reader.peer.opens(old(reader.attempts)).error))
      && (found.value.Err? ==> r == Err(found.value.error))
      && (found.value.Ok? ==> r.Ok? && found.value.value != {} && Completed(settings, found.value.value, r.value))
    ensures found == None ==> reader.log == old(reader.log) && reader.isOpen == old(reader.isOpen)
  {
    found := None;
    var params := settings;
    if params.port.None? {
      params := params.(port := Some(161));
    }
    if params.credentialId.Some? || params.community.Some? {
      if credential.Err? {
        return Err(credential.error), found;
      }
    } else {
      return Err("Credential or community must be set"), found;
    }
    var mibs := reader.Read(tryAll, known);
    found := Some(mibs);
    if mibs.Err? {
      return Err(mibs.error), found;
    }
    if params.mib.None? {
      var first := Begin(mibs.value);
      params := params.(mib := Some(first));
    }
    return Ok(params), found;
  }
}
