/** The driver's command line and environment, built by setters. */
module NutProcess {
  import opened Wrappers
  import opened Text

  /** The process to be started: its arguments and its environment. */
  datatype Command = Command(path: string, args: seq<string>, env: map<string, string>)

  /** A document of the security wallet, with the fields this class reads.  A level or protocol the
      wallet does not define is `None`. */
  datatype Credential =
    | SnmpV3(secLevel: Option<string>, secName: string, authPassword: string, privPassword: string,
             authProtocol: Option<string>, privProtocol: Option<string>)
    | SnmpV1(community: string)
    | UserPassword(user: string, password: string)
    | OtherCredential

  /** Setters of the class, with what the wallet answers where it is asked. */
  datatype Setter =
    | CredentialId(answer: Expected<Credential>)
    | UserAndPassword(user: string, password: string)
    | Community(community: string)
    | Timeout(milliseconds: nat)
    | Mib(legacyName: string)

  const SNMP := "nut_snmp"
  const XML_PDC := "nut_xml_pdc"
  const POWERCOM := "nut_powercom"

  const VERSION := "SU_VAR_VERSION"
  const MIBS := "SU_VAR_MIBS"
  const VERSION_OPTION := "snmp_version"

  // ---------- the options of an argument list, as a driver reads them ----------

  /** The value of "name=value". */
  function OptionValue(arg: string, name: string): Option<string> {
    if name + "=" <= arg then Some(arg[|name| + 1..]) else None
  }

  /** The arguments are flags with a value each; the last "-x name=value" gives the option. */
  function LastOption(args: seq<string>, name: string): Option<string>
    decreases |args|
  {
    if |args| < 2 then None
    else
      var l := |args| - 2;
      var v := if args[l] == "-x" then OptionValue(args[l + 1], name) else None;
      if v.Some? then v else LastOption(args[..l], name)
  }

  function XArg(name: string, value: string): seq<string> {
    ["-x", name + "=" + value]
  }

  lemma XArgOption(args: seq<string>, name: string, value: string, asked: string)
    requires '=' !in name && '=' !in asked
    ensures LastOption(args + XArg(name, value), asked) ==
            if asked == name then Some(value) else LastOption(args, asked)
  {
    var all, arg := args + XArg(name, value), name + "=" + value;
    assert all[|all| - 2] == "-x" && all[|all| - 1] == arg && all[..|all| - 2] == args;
    NameRead(arg, name);
    NameRead(arg, asked);
    assert arg[|name| + 1..] == value;
  }

  /** The name of an option is what is before the first '='. */
  lemma NameRead(arg: string, name: string)
    ensures '=' !in name && name + "=" <= arg ==> FirstOf(arg, '=') == |name| && arg[..|name|] == name
  {
    if '=' !in name && name + "=" <= arg {
      assert arg[..|name|] == name && arg[|name|] == '=';
      assert forall i :: 0 <= i < |name| ==> arg[i] == name[i];
      FirstOfIs(arg, '=', |name|);
    }
  }

  // ---------- settings that are given both as an option and in the environment ----------

  datatype Twin =
    | COMMUNITY | TIMEOUT | SEC_LEVEL | SEC_NAME | AUTH_PASSWORD | PRIV_PASSWORD | AUTH_PROTOCOL | PRIV_PROTOCOL

  function OptionName(t: Twin): string {
    match t
    case COMMUNITY => "community"
    case TIMEOUT => "snmp_timeout"
    case SEC_LEVEL => "secLevel"
    case SEC_NAME => "secName"
    case AUTH_PASSWORD => "authPassword"
    case PRIV_PASSWORD => "privPassword"
    case AUTH_PROTOCOL => "authProtocol"
    case PRIV_PROTOCOL => "privProtocol"
  }

  function EnvName(t: Twin): string {
    match t
    case COMMUNITY => "SU_VAR_COMMUNITY"
    case TIMEOUT => "SU_VAR_TIMEOUT"
    case SEC_LEVEL => "SU_VAR_SECLEVEL"
    case SEC_NAME => "SU_VAR_SECNAME"
    case AUTH_PASSWORD => "SU_VAR_AUTHPASSWD"
    case PRIV_PASSWORD => "SU_VAR_PRIVPASSWD"
    case AUTH_PROTOCOL => "SU_VAR_AUTHPROT"
    case PRIV_PROTOCOL => "SU_VAR_PRIVPROT"
  }

  lemma OptionNameParts(t: Twin)
    ensures var n := OptionName(t);
            && |n| >= 7 && '=' !in n
            && (|n|, n[0], n[5]) == match t
               case COMMUNITY => (9, 'c', 'n')
               case TIMEOUT => (12, 's', 't')
               case SEC_LEVEL => (8, 's', 'v')
               case SEC_NAME => (7, 's', 'm')
               case AUTH_PASSWORD => (12, 'a', 'a')
               case PRIV_PASSWORD => (12, 'p', 'a')
               case AUTH_PROTOCOL => (12, 'a', 'r')
               case PRIV_PROTOCOL => (12, 'p', 'r')
  {}

  lemma EnvNameParts(t: Twin)
    ensures var n := EnvName(t);
            && |n| >= 14
            && (|n|, n[7]) == match t
               case COMMUNITY => (16, 'C')
               case TIMEOUT => (14, 'T')
               case SEC_LEVEL => (15, 'S')
               case SEC_NAME => (14, 'S')
               case AUTH_PASSWORD => (17, 'A')
               case PRIV_PASSWORD => (17, 'P')
               case AUTH_PROTOCOL => (15, 'A')
               case PRIV_PROTOCOL => (15, 'P')
  {}

  lemma TwinsDiffer(t: Twin, u: Twin)
    ensures OptionName(t) == OptionName(u) ==> t == u
    ensures EnvName(t) == EnvName(u) ==> t == u
  {}

  /** The driver sees the same value, or none, in both places. */
  ghost predicate Agrees(c: Command, t: Twin) {
    LastOption(c.args, OptionName(t)) == if EnvName(t) in c.env then Some(c.env[EnvName(t)]) else None
  }

  // ---------- what the setters do to an initialized process ----------

  function SetEnvVar(c: Command, name: string, value: string): Command {
    c.(env := c.env[name := value])
  }

  function AddOption(c: Command, name: string, value: string): Command {
    c.(args := c.args + XArg(name, value))
  }

  function SetTwin(c: Command, t: Twin, value: string): Command {
    AddOption(SetEnvVar(c, EnvName(t), value), OptionName(t), value)
  }

  function SetTwinIf(c: Command, t: Twin, value: Option<string>): Command {
    if value.Some? then SetTwin(c, t, value.value) else c
  }

  function WithCommunity(c: Command, community: string): Command {
    SetTwin(SetEnvVar(c, VERSION, "v1"), COMMUNITY, community)
  }

  /** One setting after the other, those that are given. */
  function SetTwins(c: Command, settings: seq<(Twin, Option<string>)>): Command
    decreases |settings|
  {
    if settings == [] then c else SetTwins(SetTwinIf(c, settings[0].0, settings[0].1), settings[1..])
  }

  /** The settings of a version 3 credential, in the order in which they are made. */
  function V3Settings(v3: Credential): seq<(Twin, Option<string>)>
    requires v3.SnmpV3?
  {
    [(SEC_LEVEL, v3.secLevel), (SEC_NAME, Some(v3.secName)),
     (AUTH_PASSWORD, Some(v3.authPassword)), (PRIV_PASSWORD, Some(v3.privPassword)),
     (AUTH_PROTOCOL, v3.authProtocol), (PRIV_PROTOCOL, v3.privProtocol)]
  }

  function WithV3(c: Command, v3: Credential): Command
    requires v3.SnmpV3?
  {
    SetTwins(AddOption(SetEnvVar(c, VERSION, "v3"), VERSION_OPTION, "v3"), V3Settings(v3))
  }

  function WithUser(c: Command, user: string, password: string): Command {
    AddOption(AddOption(c, "username", user), "password", password)
  }

  function Applied(protocol: string, c: Command, s: Setter): Command {
    match s
    case CredentialId(answer) =>
      if answer.Err? then c
      else if protocol == SNMP then
        (match answer.value
         case SnmpV3(_, _, _, _, _, _) => WithV3(c, answer.value)
         case SnmpV1(community) => WithCommunity(c, community)
         case _ => c)
      else if protocol == POWERCOM && answer.value.UserPassword? then
        WithUser(c, answer.value.user, answer.value.password)
      else c
    case UserAndPassword(user, password) => if protocol == POWERCOM then WithUser(c, user, password) else c
    case Community(community) => if protocol == SNMP then WithCommunity(c, community) else c
    case Timeout(ms) => if protocol == SNMP then SetTwin(c, TIMEOUT, Decimal(ms / 1000)) else c
    case Mib(legacy) => if protocol == SNMP then SetEnvVar(c, MIBS, legacy) else c
  }

  function AllApplied(protocol: string, c: Command, setters: seq<Setter>): Command
    decreases |setters|
  {
    if setters == [] then c else AllApplied(protocol, Applied(protocol, c, setters[0]), setters[1..])
  }

  // ---------- what every sequence of setters keeps ----------

  /** Pairs "-x", "name=value". */
  ghost predicate AreOptions(args: seq<string>)
    decreases |args|
  {
    args == [] ||
    (|args| >= 2 && args[|args| - 2] == "-x" && '=' in args[|args| - 1] && AreOptions(args[..|args| - 2]))
  }

  /** The command is the first one with options behind it, and options and environment agree. */
  ghost predicate Grown(first: Command, c: Command) {
    && c.path == first.path && first.args <= c.args && AreOptions(c.args[|first.args|..])
    && forall t :: Agrees(c, t)
  }

  lemma AddOptionGrows(first: Command, c: Command, name: string, value: string)
    requires first.args <= c.args && AreOptions(c.args[|first.args|..])
    ensures var c' := AddOption(c, name, value);
            first.args <= c'.args && AreOptions(c'.args[|first.args|..])
  {
    var tail := c.args[|first.args|..];
    var tail' := AddOption(c, name, value).args[|first.args|..];
    assert tail' == tail + XArg(name, value);
    assert tail'[|tail'| - 1] == name + "=" + value && (name + "=" + value)[|name|] == '=';
    assert tail'[..|tail'| - 2] == tail;
  }

  lemma SetTwinGrows(first: Command, c: Command, t: Twin, value: string)
    requires Grown(first, c)
    ensures Grown(first, SetTwin(c, t, value))
  {
    var c' := SetTwin(c, t, value);
    AddOptionGrows(first, SetEnvVar(c, EnvName(t), value), OptionName(t), value);
    forall u ensures Agrees(c', u) {
      assert Agrees(c, u);
      OptionNameParts(t);
      OptionNameParts(u);
      XArgOption(c.args, OptionName(t), value, OptionName(u));
      TwinsDiffer(t, u);
    }
  }

  lemma OtherName(name: string, t: Twin)
    requires name in [VERSION_OPTION, "username", "password"]
    ensures '=' !in name && name != OptionName(t)
  {}

  /** Options and variables that are no twins. */
  lemma OtherGrows(first: Command, c: Command, name: string, value: string)
    requires Grown(first, c) && name in [VERSION_OPTION, "username", "password"]
    ensures Grown(first, AddOption(c, name, value))
  {
    AddOptionGrows(first, c, name, value);
    forall u ensures Agrees(AddOption(c, name, value), u) {
      assert Agrees(c, u);
      OtherName(name, u);
      OptionNameParts(u);
      XArgOption(c.args, name, value, OptionName(u));
    }
  }

  lemma EnvGrows(first: Command, c: Command, name: string, value: string)
    requires Grown(first, c) && name in [VERSION, MIBS]
    ensures Grown(first, SetEnvVar(c, name, value))
  {
    forall u ensures Agrees(SetEnvVar(c, name, value), u) {
      assert Agrees(c, u);
      EnvNameParts(u);
      assert name == VERSION ==> name[7] == 'V';
    }
  }

  lemma {:induction false} SetTwinsGrow(first: Command, c: Command, settings: seq<(Twin, Option<string>)>)
    requires Grown(first, c)
    ensures Grown(first, SetTwins(c, settings))
    decreases |settings|
  {
    if settings != [] {
      SetTwinIfGrows(first, c, settings[0].0, settings[0].1);
      SetTwinsGrow(first, SetTwinIf(c, settings[0].0, settings[0].1), settings[1..]);
    }
  }

  lemma V3Grows(first: Command, c: Command, v3: Credential)
    requires Grown(first, c) && v3.SnmpV3?
    ensures Grown(first, WithV3(c, v3))
  {
    EnvGrows(first, c, VERSION, "v3");
    OtherGrows(first, SetEnvVar(c, VERSION, "v3"), VERSION_OPTION, "v3");
    SetTwinsGrow(first, AddOption(SetEnvVar(c, VERSION, "v3"), VERSION_OPTION, "v3"), V3Settings(v3));
  }

  lemma SetTwinIfGrows(first: Command, c: Command, t: Twin, value: Option<string>)
    requires Grown(first, c)
    ensures Grown(first, SetTwinIf(c, t, value))
  {
    if value.Some? {
      SetTwinGrows(first, c, t, value.value);
    }
  }

  lemma CommunityGrows(first: Command, c: Command, community: string)
    requires Grown(first, c)
    ensures Grown(first, WithCommunity(c, community))
  {
    EnvGrows(first, c, VERSION, "v1");
    SetTwinGrows(first, SetEnvVar(c, VERSION, "v1"), COMMUNITY, community);
  }

  lemma UserGrows(first: Command, c: Command, user: string, password: string)
    requires Grown(first, c)
    ensures Grown(first, WithUser(c, user, password))
  {
    OtherGrows(first, c, "username", user);
    OtherGrows(first, AddOption(c, "username", user), "password", password);
  }

  lemma CredentialGrows(protocol: string, first: Command, c: Command, credential: Credential)
    requires Grown(first, c)
    ensures Grown(first, Applied(protocol, c, CredentialId(Ok(credential))))
  {
    match credential
    case SnmpV3(_, _, _, _, _, _) => V3Grows(first, c, credential);
    case SnmpV1(community) => CommunityGrows(first, c, community);
    case UserPassword(user, password) => UserGrows(first, c, user, password);
    case OtherCredential =>
  }

  lemma SetterGrows(protocol: string, first: Command, c: Command, s: Setter)
    requires Grown(first, c)
    ensures Grown(first, Applied(protocol, c, s))
  {
    match s
    case CredentialId(Ok(credential)) => CredentialGrows(protocol, first, c, credential);
    case CredentialId(Err(_)) =>
    case UserAndPassword(user, password) => UserGrows(first, c, user, password);
    case Community(community) => CommunityGrows(first, c, community);
    case Timeout(ms) => SetTwinGrows(first, c, TIMEOUT, Decimal(ms / 1000));
    case Mib(legacy) => EnvGrows(first, c, MIBS, legacy);
  }

  /** After every sequence of setters the arguments are the first ones followed by options, and for
      every setting that is given in both places the last option has the environment's value. */
  lemma {:induction false} SettersAgree(protocol: string, first: Command, c: Command, setters: seq<Setter>)
    requires Grown(first, c)
    ensures Grown(first, AllApplied(protocol, c, setters))
    decreases |setters|
  {
    if setters != [] {
      SetterGrows(protocol, first, c, setters[0]);
      SettersAgree(protocol, first, Applied(protocol, c, setters[0]), setters[1..]);
    }
  }

  /** Another process than the SNMP driver keeps its environment, and the XML driver everything. */
  lemma {:induction false} OthersUntouched(protocol: string, c: Command, setters: seq<Setter>)
    requires protocol != SNMP
    ensures var d := AllApplied(protocol, c, setters);
            d.env == c.env && d.path == c.path && (protocol != POWERCOM ==> d == c)
    decreases |setters|
  {
    if setters != [] {
      OthersUntouched(protocol, Applied(protocol, c, setters[0]), setters[1..]);
    }
  }

  // ---------- the first command of each protocol ----------

  function Endpoint(address: string, port: nat): string {
    address + ":" + Decimal(port)
  }

  /** `init` for a driver found at `path`; `None` for a protocol that is not supported. */
  function FirstCommand(protocol: string, address: string, port: nat, path: string, root: string, mibs: string)
    : Option<Command>
  {
    if protocol == SNMP then
      var to := Endpoint(address, if port == 0 then 161 else port);
      Some(Command(path, ["-s", "discover"] + XArg("port", to) + ["-d", "1"],
                   map["NUT_STATEPATH" := root, "MIBDIRS" := mibs]))
    else if protocol == XML_PDC then
      var to := Endpoint(address, if port == 0 then 80 else port);
      var url := if "http://" <= address then to else "http://" + to;
      Some(Command(path, ["-s", "discover"] + XArg("port", url) + ["-d", "1"],
                   map["NUT_STATEPATH" := root]))
    else if protocol == POWERCOM then
      Some(Command(path, XArg("port", address) + ["-d", "1"], map[]))
    else None
  }

  lemma PortIsNoOption(args: seq<string>, x: string, n: string)
    requires args == XArg("port", x) + ["-d", "1"] || args == ["-s", "discover"] + XArg("port", x) + ["-d", "1"]
    requires |n| >= 7 && '=' !in n
    ensures LastOption(args, n) == None
  {
    var arg := "port=" + x;
    assert "port" + "=" <= arg;
    NameRead(arg, "port");
    NameRead(arg, n);
    assert !(n + "=" <= arg);
    var l := |args| - 2;
    assert args[l] == "-d" && args[..l][l - 2] == "-x" && args[..l][l - 1] == arg;
    assert args[l] != "-x" by { assert args[l][1] == 'd'; }
    assert LastOption(args, n) == LastOption(args[..l], n) == LastOption(args[..l][..l - 2], n);
    var rest := args[..l][..l - 2];
    assert rest == [] || rest == ["-s", "discover"];
    if rest != [] {
      assert rest[0] != "-x" by { assert rest[0][1] == 's'; }
      assert LastOption(rest, n) == LastOption(rest[..0], n);
    }
  }

  lemma PortIsNoTwin(args: seq<string>, x: string, t: Twin)
    requires args == XArg("port", x) + ["-d", "1"] || args == ["-s", "discover"] + XArg("port", x) + ["-d", "1"]
    ensures LastOption(args, OptionName(t)) == None
  {
    OptionNameParts(t);
    PortIsNoOption(args, x, OptionName(t));
  }

  /** A freshly initialized command agrees with itself: no setting is given yet. */
  lemma FirstGrown(protocol: string, address: string, port: nat, path: string, root: string, mibs: string)
    ensures var c := FirstCommand(protocol, address, port, path, root, mibs); c.Some? ==> Grown(c.value, c.value)
  {
    var c := FirstCommand(protocol, address, port, path, root, mibs);
    if c.Some? {
      assert c.value.args[|c.value.args|..] == [];
      forall t ensures Agrees(c.value, t) {
        EnvNameParts(t);
        assert EnvName(t) !in c.value.env;
        FirstArgs(protocol, address, port, path, root, mibs, t);
      }
    }
  }

  lemma FirstArgs(protocol: string, address: string, port: nat, path: string, root: string, mibs: string, t: Twin)
    ensures var c := FirstCommand(protocol, address, port, path, root, mibs);
            c.Some? ==> LastOption(c.value.args, OptionName(t)) == None
  {
    if protocol == SNMP {
      var x := Endpoint(address, if port == 0 then 161 else port);
      PortIsNoTwin(["-s", "discover"] + XArg("port", x) + ["-d", "1"], x, t);
    } else if protocol == XML_PDC {
      var to := Endpoint(address, if port == 0 then 80 else port);
      var x := if "http://" <= address then to else "http://" + to;
      PortIsNoTwin(["-s", "discover"] + XArg("port", x) + ["-d", "1"], x, t);
    } else if protocol == POWERCOM {
      PortIsNoTwin(XArg("port", address) + ["-d", "1"], address, t);
    }
  }

  /** From a successful `init` on, through every sequence of setters. */
  lemma BuiltCommand(protocol: string, address: string, port: nat, path: string, root: string, mibs: string,
                     setters: seq<Setter>)
    ensures var c := FirstCommand(protocol, address, port, path, root, mibs);
            c.Some? ==> Grown(c.value, AllApplied(protocol, c.value, setters))
  {
    var c := FirstCommand(protocol, address, port, path, root, mibs);
    FirstGrown(protocol, address, port, path, root, mibs);
    if c.Some? {
      SettersAgree(protocol, c.value, c.value, setters);
    }
  }

  // ---------- which value is in effect ----------

  /** The value of a setting in the environment. */
  function EnvValue(c: Command, t: Twin): Option<string> {
    if EnvName(t) in c.env then Some(c.env[EnvName(t)]) else None
  }

  /** What a setter says about a setting of the SNMP driver, if anything. */
  function Given(s: Setter, t: Twin): Option<string> {
    match s
    case Timeout(ms) => if t == TIMEOUT then Some(Decimal(ms / 1000)) else None
    case Community(community) => if t == COMMUNITY then Some(community) else None
    case CredentialId(Ok(SnmpV1(community))) => if t == COMMUNITY then Some(community) else None
    case CredentialId(Ok(SnmpV3(secLevel, secName, authPassword, privPassword, authProtocol, privProtocol))) =>
      (match t
       case SEC_LEVEL => secLevel
       case SEC_NAME => Some(secName)
       case AUTH_PASSWORD => Some(authPassword)
       case PRIV_PASSWORD => Some(privPassword)
       case AUTH_PROTOCOL => authProtocol
       case PRIV_PROTOCOL => privProtocol
       case _ => None)
    case _ => None
  }

  /** What the last setter that says something about the setting says. */
  function LastGiven(setters: seq<Setter>, t: Twin): Option<string> {
    if setters == [] then None
    else
      var later := LastGiven(setters[1..], t);
      if later.Some? then later else Given(setters[0], t)
  }

  lemma SetTwinValue(c: Command, t: Twin, value: string, u: Twin)
    ensures EnvValue(SetTwin(c, t, value), u) == if u == t then Some(value) else EnvValue(c, u)
  {}

  lemma OtherVariable(c: Command, name: string, value: string, u: Twin)
    requires name in [VERSION, MIBS]
    ensures EnvValue(SetEnvVar(c, name, value), u) == EnvValue(c, u)
  {}

  lemma SetTwinIfValue(c: Command, t: Twin, value: Option<string>, u: Twin)
    ensures EnvValue(SetTwinIf(c, t, value), u) == if u == t && value.Some? then value else EnvValue(c, u)
  {
    if value.Some? {
      SetTwinValue(c, t, value.value, u);
    }
  }

  /** What the last of the settings that is given says about u. */
  function LastSetting(settings: seq<(Twin, Option<string>)>, u: Twin): Option<string> {
    if settings == [] then None
    else
      var later := LastSetting(settings[1..], u);
      if later.Some? then later else if settings[0].0 == u then settings[0].1 else None
  }

  lemma {:induction false} SetTwinsValue(c: Command, settings: seq<(Twin, Option<string>)>, u: Twin)
    ensures var last := LastSetting(settings, u);
            EnvValue(SetTwins(c, settings), u) == if last.Some? then last else EnvValue(c, u)
    decreases |settings|
  {
    if settings != [] {
      SetTwinIfValue(c, settings[0].0, settings[0].1, u);
      SetTwinsValue(SetTwinIf(c, settings[0].0, settings[0].1), settings[1..], u);
    }
  }

  /** The first of the settings for u is the only one. */
  lemma {:induction false} OneSetting(settings: seq<(Twin, Option<string>)>, u: Twin, k: nat)
    requires k <= |settings| && forall i :: 0 <= i < |settings| && i != k ==> settings[i].0 != u
    requires k < |settings| ==> settings[k].0 == u
    ensures LastSetting(settings, u) == if k < |settings| then settings[k].1 else None
  {
    if settings != [] {
      OneSetting(settings[1..], u, if k > 0 then k - 1 else |settings| - 1);
    }
  }

  lemma V3Setting(v3: Credential, u: Twin)
    requires v3.SnmpV3?
    ensures LastSetting(V3Settings(v3), u) == Given(CredentialId(Ok(v3)), u)
  {
    OneSetting(V3Settings(v3), u,
               match u
               case SEC_LEVEL => 0
               case SEC_NAME => 1
               case AUTH_PASSWORD => 2
               case PRIV_PASSWORD => 3
               case AUTH_PROTOCOL => 4
               case PRIV_PROTOCOL => 5
               case _ => 6);
  }

  /** The settings a version 3 credential does not have keep their values. */
  lemma V3Values(c: Command, v3: Credential, u: Twin)
    requires v3.SnmpV3?
    ensures var given := Given(CredentialId(Ok(v3)), u);
            EnvValue(WithV3(c, v3), u) == if given.Some? then given else EnvValue(c, u)
  {
    var c0 := AddOption(SetEnvVar(c, VERSION, "v3"), VERSION_OPTION, "v3");
    assert EnvValue(c0, u) == EnvValue(c, u) by { OtherVariable(c, VERSION, "v3", u); }
    SetTwinsValue(c0, V3Settings(v3), u);
    V3Setting(v3, u);
  }

  lemma SetterValue(c: Command, s: Setter, u: Twin)
    ensures EnvValue(Applied(SNMP, c, s), u) == if Given(s, u).Some? then Given(s, u) else EnvValue(c, u)
  {
    match s
    case CredentialId(Ok(SnmpV3(_, _, _, _, _, _))) => V3Values(c, s.answer.value, u);
    case CredentialId(Ok(SnmpV1(community))) =>
      OtherVariable(c, VERSION, "v1", u);
      SetTwinValue(SetEnvVar(c, VERSION, "v1"), COMMUNITY, community, u);
    case Community(community) =>
      OtherVariable(c, VERSION, "v1", u);
      SetTwinValue(SetEnvVar(c, VERSION, "v1"), COMMUNITY, community, u);
    case Timeout(ms) => SetTwinValue(c, TIMEOUT, Decimal(ms / 1000), u);
    case Mib(legacy) => OtherVariable(c, MIBS, legacy, u);
    case _ =>
  }

  lemma {:induction false} SettersValue(c: Command, setters: seq<Setter>, u: Twin)
    ensures EnvValue(AllApplied(SNMP, c, setters), u) ==
            if LastGiven(setters, u).Some? then LastGiven(setters, u) else EnvValue(c, u)
    decreases |setters|
  {
    if setters != [] {
      SetterValue(c, setters[0], u);
      SettersValue(Applied(SNMP, c, setters[0]), setters[1..], u);
    }
  }

  /** The SNMP driver started after `init` and any sequence of setters sees, in its options and in its
      environment, exactly what the last setter that concerns a setting said about it. */
  lemma LastSetterWins(address: string, port: nat, path: string, root: string, mibs: string,
                       setters: seq<Setter>, t: Twin)
    ensures var c := AllApplied(SNMP, FirstCommand(SNMP, address, port, path, root, mibs).value, setters);
            EnvValue(c, t) == LastGiven(setters, t) && LastOption(c.args, OptionName(t)) == LastGiven(setters, t)
  {
    var first := FirstCommand(SNMP, address, port, path, root, mibs).value;
    BuiltCommand(SNMP, address, port, path, root, mibs, setters);
    assert Agrees(AllApplied(SNMP, first, setters), t);
    SettersValue(first, setters, t);
    EnvNameParts(t);
    assert EnvValue(first, t) == None;
  }

  /** What a setter says about the two variables that are no options. */
  function GivenVariable(s: Setter, name: string): Option<string> {
    match s
    case Mib(legacy) => if name == MIBS then Some(legacy) else None
    case Community(_) => if name == VERSION then Some("v1") else None
    case CredentialId(Ok(SnmpV1(_))) => if name == VERSION then Some("v1") else None
    case CredentialId(Ok(SnmpV3(_, _, _, _, _, _))) => if name == VERSION then Some("v3") else None
    case _ => None
  }

  function LastVariable(setters: seq<Setter>, name: string): Option<string> {
    if setters == [] then None
    else
      var later := LastVariable(setters[1..], name);
      if later.Some? then later else GivenVariable(setters[0], name)
  }

  function Variable(c: Command, name: string): Option<string> {
    if name in c.env then Some(c.env[name]) else None
  }

  lemma SetTwinVariable(c: Command, t: Twin, value: string, name: string)
    requires name in [VERSION, MIBS]
    ensures Variable(SetTwin(c, t, value), name) == Variable(c, name)
  {
    EnvNameParts(t);
    assert VERSION[7] == 'V' && MIBS[7] == 'M';
  }

  lemma SetTwinIfVariable(c: Command, t: Twin, value: Option<string>, name: string)
    requires name in [VERSION, MIBS]
    ensures Variable(SetTwinIf(c, t, value), name) == Variable(c, name)
  {
    if value.Some? {
      SetTwinVariable(c, t, value.value, name);
    }
  }

  lemma {:induction false} SetTwinsVariable(c: Command, settings: seq<(Twin, Option<string>)>, name: string)
    requires name in [VERSION, MIBS]
    ensures Variable(SetTwins(c, settings), name) == Variable(c, name)
    decreases |settings|
  {
    if settings != [] {
      SetTwinIfVariable(c, settings[0].0, settings[0].1, name);
      SetTwinsVariable(SetTwinIf(c, settings[0].0, settings[0].1), settings[1..], name);
    }
  }

  lemma SetterVariable(c: Command, s: Setter, name: string)
    requires name in [VERSION, MIBS]
    ensures Variable(Applied(SNMP, c, s), name) ==
            if GivenVariable(s, name).Some? then GivenVariable(s, name) else Variable(c, name)
  {
    assert VERSION[7] == 'V' && MIBS[7] == 'M';
    match s
    case CredentialId(Ok(SnmpV3(_, _, _, _, _, _))) =>
      SetTwinsVariable(AddOption(SetEnvVar(c, VERSION, "v3"), VERSION_OPTION, "v3"), V3Settings(s.answer.value), name);
    case CredentialId(Ok(SnmpV1(community))) =>
      SetTwinVariable(SetEnvVar(c, VERSION, "v1"), COMMUNITY, community, name);
    case Community(community) => SetTwinVariable(SetEnvVar(c, VERSION, "v1"), COMMUNITY, community, name);
    case Timeout(ms) => SetTwinVariable(c, TIMEOUT, Decimal(ms / 1000), name);
    case _ =>
  }

  /** The protocol version and the MIB are those the last setter that concerns them said. */
  lemma {:induction false} LastVariableWins(c: Command, setters: seq<Setter>, name: string)
    requires name in [VERSION, MIBS]
    ensures Variable(AllApplied(SNMP, c, setters), name) ==
            if LastVariable(setters, name).Some? then LastVariable(setters, name) else Variable(c, name)
    decreases |setters|
  {
    if setters != [] {
      SetterVariable(c, setters[0], name);
      LastVariableWins(Applied(SNMP, c, setters[0]), setters[1..], name);
    }
  }

  // ---------- the version, which only one kind of credential gives as an option ----------

  predicate IsV3(s: Setter) {
    s.CredentialId? && s.answer.Ok? && s.answer.value.SnmpV3?
  }

  predicate IsV1(s: Setter) {
    s.Community? || (s.CredentialId? && s.answer.Ok? && s.answer.value.SnmpV1?)
  }

  lemma SetTwinVersion(c: Command, t: Twin, value: string)
    ensures LastOption(SetTwin(c, t, value).args, VERSION_OPTION) == LastOption(c.args, VERSION_OPTION)
  {
    OptionNameParts(t);
    OtherName(VERSION_OPTION, t);
    XArgOption(c.args, OptionName(t), value, VERSION_OPTION);
  }

  lemma SetTwinIfVersion(c: Command, t: Twin, value: Option<string>)
    ensures LastOption(SetTwinIf(c, t, value).args, VERSION_OPTION) == LastOption(c.args, VERSION_OPTION)
  {
    if value.Some? {
      SetTwinVersion(c, t, value.value);
    }
  }

  lemma {:induction false} SetTwinsVersion(c: Command, settings: seq<(Twin, Option<string>)>)
    ensures LastOption(SetTwins(c, settings).args, VERSION_OPTION) == LastOption(c.args, VERSION_OPTION)
    decreases |settings|
  {
    if settings != [] {
      SetTwinIfVersion(c, settings[0].0, settings[0].1);
      SetTwinsVersion(SetTwinIf(c, settings[0].0, settings[0].1), settings[1..]);
    }
  }

  lemma V3Version(c: Command, v3: Credential)
    requires v3.SnmpV3?
    ensures LastOption(WithV3(c, v3).args, VERSION_OPTION) == Some("v3")
  {
    OtherName(VERSION_OPTION, COMMUNITY);
    XArgOption(c.args, VERSION_OPTION, "v3", VERSION_OPTION);
    SetTwinsVersion(AddOption(SetEnvVar(c, VERSION, "v3"), VERSION_OPTION, "v3"), V3Settings(v3));
  }

  lemma SetterVersion(c: Command, s: Setter)
    ensures LastOption(Applied(SNMP, c, s).args, VERSION_OPTION) ==
            if IsV3(s) then Some("v3") else LastOption(c.args, VERSION_OPTION)
  {
    match s
    case CredentialId(Ok(SnmpV3(_, _, _, _, _, _))) => V3Version(c, s.answer.value);
    case CredentialId(Ok(SnmpV1(community))) =>
      SetTwinVersion(SetEnvVar(c, VERSION, "v1"), COMMUNITY, community);
    case Community(community) => SetTwinVersion(SetEnvVar(c, VERSION, "v1"), COMMUNITY, community);
    case Timeout(ms) => SetTwinVersion(c, TIMEOUT, Decimal(ms / 1000));
    case _ =>
  }

  lemma {:induction false} SettersVersion(c: Command, setters: seq<Setter>)
    ensures LastOption(AllApplied(SNMP, c, setters).args, VERSION_OPTION) ==
            if exists i :: 0 <= i < |setters| && IsV3(setters[i]) then Some("v3")
            else LastOption(c.args, VERSION_OPTION)
    decreases |setters|
  {
    if setters != [] {
      SetterVersion(c, setters[0]);
      SettersVersion(Applied(SNMP, c, setters[0]), setters[1..]);
      assert forall i :: 0 < i < |setters| ==> setters[i] == setters[1..][i - 1];
    }
  }

  /** A community that no version 3 credential follows. */
  ghost predicate StaysV1(setters: seq<Setter>, j: nat) {
    j < |setters| && IsV1(setters[j]) && forall k :: j < k < |setters| ==> !IsV3(setters[k])
  }

  lemma VersionGiven(s: Setter)
    ensures GivenVariable(s, VERSION) == if IsV3(s) then Some("v3") else if IsV1(s) then Some("v1") else None
  {
    assert VERSION[7] == 'V' && MIBS[7] == 'M';
  }

  ghost predicate NoVersion(setters: seq<Setter>) {
    forall k :: 0 <= k < |setters| ==> !IsV1(setters[k]) && !IsV3(setters[k])
  }

  lemma {:induction false} LastVersion(setters: seq<Setter>)
    ensures var v := LastVariable(setters, VERSION);
            && (v == None || v == Some("v1") || v == Some("v3"))
            && (v == None <==> NoVersion(setters))
            && (v == Some("v1") <==> exists j: nat :: StaysV1(setters, j))
  {
    if setters != [] {
      var rest := setters[1..];
      LastVersion(rest);
      VersionGiven(setters[0]);
      assert setters == [setters[0]] + rest;
      assert NoVersion(setters) <==> NoVersion(rest) && !IsV1(setters[0]) && !IsV3(setters[0]);
      LaterStays(setters);
      V3Hides(rest);
      assert "v1"[1] != "v3"[1];
    }
  }

  /** Behind setters of which the last version is 3 one of them set it. */
  lemma {:induction false} V3Hides(setters: seq<Setter>)
    ensures LastVariable(setters, VERSION) == Some("v3") ==> exists k :: 0 <= k < |setters| && IsV3(setters[k])
  {
    if setters != [] {
      V3Hides(setters[1..]);
      VersionGiven(setters[0]);
      assert "v1"[1] != "v3"[1];
    }
  }

  lemma LaterStays(setters: seq<Setter>)
    requires setters != []
    ensures var rest := setters[1..];
            (exists j: nat :: StaysV1(setters, j)) <==>
            (exists j: nat :: StaysV1(rest, j)) || (IsV1(setters[0]) && forall k :: 0 <= k < |rest| ==> !IsV3(rest[k]))
  {
    var rest := setters[1..];
    assert forall k :: 0 < k < |setters| ==> setters[k] == rest[k - 1];
    if j: nat :| StaysV1(setters, j) {
      if j > 0 {
        assert StaysV1(rest, j - 1);
      }
    }
    if j: nat :| StaysV1(rest, j) {
      assert StaysV1(setters, j + 1);
    }
    if IsV1(setters[0]) && forall k :: 0 <= k < |rest| ==> !IsV3(rest[k]) {
      assert StaysV1(setters, 0);
    }
  }

  /** The driver is told two versions exactly when a version 3 credential is followed by a community that
      no such credential follows: the variable is set back, the option stays. */
  lemma TwoVersions(address: string, port: nat, path: string, root: string, mibs: string, setters: seq<Setter>)
    ensures var c := AllApplied(SNMP, FirstCommand(SNMP, address, port, path, root, mibs).value, setters);
            var option, variable := LastOption(c.args, VERSION_OPTION), Variable(c, VERSION);
            (option.Some? && variable != option) <==>
            exists i: nat, j: nat :: i < j < |setters| && IsV3(setters[i]) && StaysV1(setters, j)
  {
    var first := FirstCommand(SNMP, address, port, path, root, mibs).value;
    SettersVersion(first, setters);
    LastVariableWins(first, setters, VERSION);
    FirstVersion(address, port, path, root, mibs);
    VersionsDiffer(setters);
  }

  lemma VersionsDiffer(setters: seq<Setter>)
    ensures (exists i :: 0 <= i < |setters| && IsV3(setters[i])) && LastVariable(setters, VERSION) != Some("v3") <==>
            exists i: nat, j: nat :: i < j < |setters| && IsV3(setters[i]) && StaysV1(setters, j)
  {
    LastVersion(setters);
    assert "v1"[1] != "v3"[1];
    if i: nat, j: nat :| i < |setters| && IsV3(setters[i]) && StaysV1(setters, j) {
      assert i < j;
    }
  }

  lemma FirstVersion(address: string, port: nat, path: string, root: string, mibs: string)
    ensures var c := FirstCommand(SNMP, address, port, path, root, mibs).value;
            LastOption(c.args, VERSION_OPTION) == None && Variable(c, VERSION) == None
  {
    var x := Endpoint(address, if port == 0 then 161 else port);
    PortIsNoOption(["-s", "discover"] + XArg("port", x) + ["-d", "1"], x, VERSION_OPTION);
    assert |VERSION| == 14 && |"NUT_STATEPATH"| == 13 && |"MIBDIRS"| == 7;
  }

  // ---------- user and password ----------

  predicate SetsLogin(s: Setter) {
    s.UserAndPassword? || (s.CredentialId? && s.answer.Ok? && s.answer.value.UserPassword?)
  }

  /** The driver is told this user and this password. */
  ghost predicate HasLogin(c: Command, user: string, password: string) {
    LastOption(c.args, "username") == Some(user) && LastOption(c.args, "password") == Some(password)
  }

  lemma WithUserLogin(c: Command, user: string, password: string)
    ensures HasLogin(WithUser(c, user, password), user, password)
  {
    OtherName("username", COMMUNITY);
    OtherName("password", COMMUNITY);
    assert "username"[0] == 'u' && "password"[0] == 'p';
    XArgOption(c.args, "username", user, "username");
    XArgOption(AddOption(c, "username", user).args, "password", password, "username");
    XArgOption(AddOption(c, "username", user).args, "password", password, "password");
  }

  lemma {:induction false} LoginKept(c: Command, setters: seq<Setter>)
    requires forall i :: 0 <= i < |setters| ==> !SetsLogin(setters[i])
    ensures AllApplied(POWERCOM, c, setters) == c
    decreases |setters|
  {
    if setters != [] {
      assert SNMP[4] == 's' && POWERCOM[4] == 'p';
      LoginKept(c, setters[1..]);
    }
  }

  /** The last setter of a user and a password decides what the driver is told. */
  ghost predicate LoginOf(c: Command, s: Setter) {
    match s
    case UserAndPassword(user, password) => HasLogin(c, user, password)
    case CredentialId(Ok(UserPassword(user, password))) => HasLogin(c, user, password)
    case _ => true
  }

  lemma {:induction false} LoginApplied(c: Command, setters: seq<Setter>, i: nat)
    requires i < |setters| && forall j :: i < j < |setters| ==> !SetsLogin(setters[j])
    ensures LoginOf(AllApplied(POWERCOM, c, setters), setters[i])
    decreases |setters|
  {
    var c1 := Applied(POWERCOM, c, setters[0]);
    if i > 0 {
      LoginApplied(c1, setters[1..], i - 1);
    } else {
      LoginKept(c1, setters[1..]);
      assert SNMP[4] == 's' && POWERCOM[4] == 'p';
      match setters[0]
      case UserAndPassword(user, password) => WithUserLogin(c, user, password);
      case CredentialId(Ok(UserPassword(user, password))) => WithUserLogin(c, user, password);
      case _ =>
    }
  }

  /** The driver of that protocol is told the user and the password of the last setter that gives them, each
      under its own name, and none if no setter does. */
  lemma LastLoginWins(address: string, port: nat, path: string, root: string, mibs: string, setters: seq<Setter>)
    ensures var c := AllApplied(POWERCOM, FirstCommand(POWERCOM, address, port, path, root, mibs).value, setters);
            && (forall i :: 0 <= i < |setters| && (forall j :: i < j < |setters| ==> !SetsLogin(setters[j])) ==>
                  match setters[i]
                  case UserAndPassword(user, password) =>
                    LastOption(c.args, "username") == Some(user) && LastOption(c.args, "password") == Some(password)
                  case CredentialId(Ok(UserPassword(user, password))) =>
                    LastOption(c.args, "username") == Some(user) && LastOption(c.args, "password") == Some(password)
                  case _ => true)
            && ((forall i :: 0 <= i < |setters| ==> !SetsLogin(setters[i])) ==>
                  LastOption(c.args, "username") == None && LastOption(c.args, "password") == None)
  {
    var first := FirstCommand(POWERCOM, address, port, path, root, mibs).value;
    var c := AllApplied(POWERCOM, first, setters);
    forall i | 0 <= i < |setters| && (forall j :: i < j < |setters| ==> !SetsLogin(setters[j]))
      ensures LoginOf(c, setters[i])
    {
      LoginApplied(first, setters, i);
    }
    if forall i :: 0 <= i < |setters| ==> !SetsLogin(setters[i]) {
      LoginKept(first, setters);
      NoFirstLogin(address, port, path, root, mibs);
    }
  }

  lemma NoFirstLogin(address: string, port: nat, path: string, root: string, mibs: string)
    ensures var args := FirstCommand(POWERCOM, address, port, path, root, mibs).value.args;
            LastOption(args, "username") == None && LastOption(args, "password") == None
  {
    assert SNMP[4] == 's' && XML_PDC[4] == 'x' && POWERCOM[4] == 'p';
    OtherName("username", COMMUNITY);
    OtherName("password", COMMUNITY);
    PortIsNoOption(XArg("port", address) + ["-d", "1"], address, "username");
    PortIsNoOption(XArg("port", address) + ["-d", "1"], address, "password");
  }

  // ---------- a version 3 credential outright ----------

  function XArgIf(name: string, value: Option<string>): seq<string> {
    if value.Some? then ["-x", name + "=" + value.value] else []
  }

  lemma V3Arguments(c: Command, v3: Credential)
    requires v3.SnmpV3?
    ensures WithV3(c, v3).args == c.args
              + ["-x", "snmp_version" + "=" + "v3"] + XArgIf("secLevel", v3.secLevel)
              + ["-x", "secName" + "=" + v3.secName]
              + ["-x", "authPassword" + "=" + v3.authPassword] + ["-x", "privPassword" + "=" + v3.privPassword]
              + XArgIf("authProtocol", v3.authProtocol) + XArgIf("privProtocol", v3.privProtocol)
  {
    V3Unfolded(AddOption(SetEnvVar(c, VERSION, "v3"), VERSION_OPTION, "v3"), v3);
    var a := c.args + ["-x", "snmp_version" + "=" + "v3"];
    assert a + [] == a;
    var b := a + XArgIf("secLevel", v3.secLevel)
             + ["-x", "secName" + "=" + v3.secName]
             + ["-x", "authPassword" + "=" + v3.authPassword] + ["-x", "privPassword" + "=" + v3.privPassword];
    assert b + [] == b;
    assert b + XArgIf("authProtocol", v3.authProtocol) + [] == b + XArgIf("authProtocol", v3.authProtocol);
  }

  lemma V3Environment(c: Command, v3: Credential)
    requires v3.SnmpV3?
    ensures var env := WithV3(c, v3).env;
            && "SU_VAR_VERSION" in env && env["SU_VAR_VERSION"] == "v3"
            && "SU_VAR_SECNAME" in env && env["SU_VAR_SECNAME"] == v3.secName
            && "SU_VAR_AUTHPASSWD" in env && env["SU_VAR_AUTHPASSWD"] == v3.authPassword
            && "SU_VAR_PRIVPASSWD" in env && env["SU_VAR_PRIVPASSWD"] == v3.privPassword
            && (v3.secLevel.Some? ==> "SU_VAR_SECLEVEL" in env && env["SU_VAR_SECLEVEL"] == v3.secLevel.value)
            && (v3.authProtocol.Some? ==> "SU_VAR_AUTHPROT" in env && env["SU_VAR_AUTHPROT"] == v3.authProtocol.value)
            && (v3.privProtocol.Some? ==> "SU_VAR_PRIVPROT" in env && env["SU_VAR_PRIVPROT"] == v3.privProtocol.value)
  {
    V3Values(c, v3, SEC_NAME);
    V3Values(c, v3, AUTH_PASSWORD);
    V3Values(c, v3, PRIV_PASSWORD);
    V3Values(c, v3, SEC_LEVEL);
    V3Values(c, v3, AUTH_PROTOCOL);
    V3Values(c, v3, PRIV_PROTOCOL);
    SetTwinsVariable(AddOption(SetEnvVar(c, VERSION, "v3"), VERSION_OPTION, "v3"), V3Settings(v3), VERSION);
    assert Variable(WithV3(c, v3), VERSION) == Some("v3");
  }

  // ---------- what the agent does ----------

  /** The settings of a request, as far as they reach the process: what the wallet answers to the
      credential, if there is one, and the other settings that are there. */
  datatype AgentSettings = AgentSettings(
    credential: Option<Expected<Credential>>, community: Option<string>,
    username: Option<string>, password: Option<string>, timeout: Option<nat>, mib: Option<string>)

  /** The setters that `Assets::run` calls, in order.  Where one of the first two fails the job ends and no
      process is started. */
  function AgentSetters(a: AgentSettings): seq<Setter> {
    (if a.credential.Some? then [CredentialId(a.credential.value)]
     else if a.community.Some? then [Community(a.community.value)] else [])
    + (if a.username.Some? && a.password.Some? then [UserAndPassword(a.username.value, a.password.value)] else [])
    + (if a.timeout.Some? then [Timeout(a.timeout.value)] else [])
    + (if a.mib.Some? then [Mib(a.mib.value)] else [])
  }

  /** The agent sets a credential or a community, never both: it never gives two versions. */
  lemma AgentGivesOneVersion(address: string, port: nat, path: string, root: string, mibs: string, a: AgentSettings)
    ensures var c := AllApplied(SNMP, FirstCommand(SNMP, address, port, path, root, mibs).value, AgentSetters(a));
            var option := LastOption(c.args, VERSION_OPTION);
            option.Some? ==> Variable(c, VERSION) == option
  {
    TwoVersions(address, port, path, root, mibs, AgentSetters(a));
    assert forall k :: 0 < k < |AgentSetters(a)| ==> !IsV1(AgentSetters(a)[k]);
  }

  /** The settings of a version 3 credential one by one. */
  lemma V3Unfolded(c: Command, v3: Credential)
    requires v3.SnmpV3?
    ensures var c2 := SetTwin(SetTwinIf(c, SEC_LEVEL, v3.secLevel), SEC_NAME, v3.secName);
            var c4 := SetTwin(SetTwin(c2, AUTH_PASSWORD, v3.authPassword), PRIV_PASSWORD, v3.privPassword);
            SetTwins(c, V3Settings(v3)) ==
            SetTwinIf(SetTwinIf(c4, AUTH_PROTOCOL, v3.authProtocol), PRIV_PROTOCOL, v3.privProtocol)
  {
    var settings := V3Settings(v3);
    SettingsBehind(c, settings, 0);
    SettingsBehind(SetTwinIf(c, SEC_LEVEL, v3.secLevel), settings, 1);
    var c2 := SetTwin(SetTwinIf(c, SEC_LEVEL, v3.secLevel), SEC_NAME, v3.secName);
    SettingsBehind(c2, settings, 2);
    var c3 := SetTwin(c2, AUTH_PASSWORD, v3.authPassword);
    SettingsBehind(c3, settings, 3);
    var c4 := SetTwin(c3, PRIV_PASSWORD, v3.privPassword);
    SettingsBehind(c4, settings, 4);
    SettingsBehind(SetTwinIf(c4, AUTH_PROTOCOL, v3.authProtocol), settings, 5);
    assert settings[6..] == [] && settings[0..] == settings;
  }

  lemma SettingsBehind(c: Command, settings: seq<(Twin, Option<string>)>, i: nat)
    requires i < |settings|
    ensures SetTwins(c, settings[i..]) == SetTwins(SetTwinIf(c, settings[i].0, settings[i].1), settings[i + 1..])
  {
    assert settings[i..][0] == settings[i] && settings[i..][1..] == settings[i + 1..];
  }

  // ---------- the class ----------

  class Process {
    const protocol: string
    var process: Option<Command>

    constructor (protocol: string)
      ensures this.protocol == protocol && process == None
    {
      this.protocol, process := protocol, None;
    }

    /** `path` is where the driver was found, or the error that it was not. */
    method Init(address: string, port: nat, path: Expected<string>, root: string, mibs: string)
      returns (r: Expected<()>)
      modifies this
      ensures r.Ok? <==> path.Ok? && protocol in [SNMP, XML_PDC, POWERCOM]
      ensures r.Ok? ==> process == FirstCommand(protocol, address, port, path.value, root, mibs)
      ensures r.Ok? && protocol == "nut_snmp" ==>
        var to := address + ":" + Decimal(if port == 0 then 161 else port);
        process == Some(Command(path.value, ["-s", "discover", "-x", "port" + "=" + to, "-d", "1"],
                                map["NUT_STATEPATH" := root, "MIBDIRS" := mibs]))
      ensures r.Ok? && protocol == "nut_xml_pdc" ==>
        var to := address + ":" + Decimal(if port == 0 then 80 else port);
        var url := if "http://" <= address then to else "http://" + to;
        process == Some(Command(path.value, ["-s", "discover", "-x", "port" + "=" + url, "-d", "1"],
                                map["NUT_STATEPATH" := root]))
      ensures r.Ok? && protocol == "nut_powercom" ==>
        process == Some(Command(path.value, ["-x", "port" + "=" + address, "-d", "1"], map[]))
      ensures r.Err? ==> process == old(process)
      ensures path.Err? && protocol in [SNMP, XML_PDC, POWERCOM] ==> r == Err(path.error)
    {
      if protocol == SNMP {
        if path.Err? {
          return Err(path.error);
        }
        var p := if port == 0 then 161 else port;
        var to := Endpoint(address, p);
        process := Some(Command(path.value, ["-s", "discover"] + XArg("port", to) + ["-d", "1"], map[]));
        assert process.value.args == ["-s", "discover", "-x", "port" + "=" + to, "-d", "1"];
        Env("NUT_STATEPATH", root);
        Env("MIBDIRS", mibs);
      } else if protocol == XML_PDC {
        if path.Err? {
          return Err(path.error);
        }
        var p := if port == 0 then 80 else port;
        var to := Endpoint(address, p);
        if !("http://" <= address) {
          to := "http://" + to;
        }
        process := Some(Command(path.value, ["-s", "discover"] + XArg("port", to) + ["-d", "1"], map[]));
        assert process.value.args == ["-s", "discover", "-x", "port" + "=" + to, "-d", "1"];
        Env("NUT_STATEPATH", root);
      } else if protocol == POWERCOM {
        if path.Err? {
          return Err(path.error);
        }
        process := Some(Command(path.value, XArg("port", address) + ["-d", "1"], map[]));
        assert process.value.args == ["-x", "port" + "=" + address, "-d", "1"];
      } else {
        return Err("Protocol " + protocol + " is not supported");
      }
      return Ok(());
    }

    method Env(name: string, value: string)
      requires process.Some?
      modifies this
      ensures process == Some(SetEnvVar(old(process).value, name, value))
    {
      process := Some(SetEnvVar(process.value, name, value));
    }

    /** `addArgument("-x")` and `addArgument("name=value")`. */
    method AddXOption(name: string, value: string)
      requires process.Some?
      modifies this
      ensures process == Some(AddOption(old(process).value, name, value))
    {
      process := Some(process.value.(args := process.value.args + ["-x"]));
      process := Some(process.value.(args := process.value.args + [name + "=" + value]));
      assert process.value.args == old(process).value.args + XArg(name, value);
    }

    method Both(t: Twin, value: string)
      requires process.Some?
      modifies this
      ensures process == Some(SetTwin(old(process).value, t, value))
    {
      Env(EnvName(t), value);
      AddXOption(OptionName(t), value);
    }

    method SetCredentialId(answer: Expected<Credential>) returns (r: Expected<()>)
      modifies this
      ensures old(process).None? ==> r == Err("uninitialized") && process == None
      ensures old(process).Some? ==> process == Some(Applied(protocol, old(process).value, CredentialId(answer)))
      ensures old(process).Some? && protocol == POWERCOM && answer.Ok? && answer.value.UserPassword? ==>
        && process.value.env == old(process).value.env
        && process.value.args == old(process).value.args
             + ["-x", "username" + "=" + answer.value.user, "-x", "password" + "=" + answer.value.password]
      ensures old(process).Some? && protocol == SNMP && answer.Ok? && answer.value.SnmpV1? ==>
        && process.value.args == old(process).value.args + ["-x", "community" + "=" + answer.value.community]
        && process.value.env ==
             old(process).value.env["SU_VAR_VERSION" := "v1"]["SU_VAR_COMMUNITY" := answer.value.community]
      ensures old(process).Some? ==>
        (r.Err? <==> (protocol == SNMP && (answer.Err? || answer.value.UserPassword? || answer.value.OtherCredential?))
                     || (protocol == POWERCOM && answer.Err?))
    {
      if process.None? {
        return Err("uninitialized");
      }
      if protocol == SNMP {
        if answer.Err? {
          return Err(answer.error);
        }
        match answer.value {
          case SnmpV3(secLevel, secName, authPassword, privPassword, authProtocol, privProtocol) =>
            Env(VERSION, "v3");
            AddXOption(VERSION_OPTION, "v3");
            if secLevel.Some? {
              Both(SEC_LEVEL, secLevel.value);
            }
            Both(SEC_NAME, secName);
            Both(AUTH_PASSWORD, authPassword);
            Both(PRIV_PASSWORD, privPassword);
            if authProtocol.Some? {
              Both(AUTH_PROTOCOL, authProtocol.value);
            }
            if privProtocol.Some? {
              Both(PRIV_PROTOCOL, privProtocol.value);
            }
            V3Unfolded(AddOption(SetEnvVar(old(process).value, VERSION, "v3"), VERSION_OPTION, "v3"), answer.value);
          case SnmpV1(community) =>
            var ignored := SetCommunity(community);
          case _ =>
            return Err("Wrong wallet configuratoion");
        }
      } else if protocol == POWERCOM {
        if answer.Err? {
          return Err(answer.error);
        }
        if answer.value.UserPassword? {
          AddXOption("username", answer.value.user);
          AddXOption("password", answer.value.password);
        }
      }
      return Ok(());
    }

    /** The source follows the process pointer here without a check. */
    method SetCredential(userName: string, password: string) returns (r: Expected<()>)
      requires protocol == POWERCOM ==> process.Some?
      modifies this
      ensures r == Ok(())
      ensures process == if old(process).None? then None
                         else Some(Applied(protocol, old(process).value, UserAndPassword(userName, password)))
      ensures protocol != POWERCOM ==> process == old(process)
      ensures protocol == POWERCOM ==>
        process == Some(old(process).value.(
          args := old(process).value.args
                  + ["-x", "username" + "=" + userName, "-x", "password" + "=" + password]))
    {
      if protocol == POWERCOM {
        AddXOption("username", userName);
        AddXOption("password", password);
        assert process.value.args == old(process).value.args
               + ["-x", "username" + "=" + userName, "-x", "password" + "=" + password];
      }
      return Ok(());
    }

    method SetCommunity(community: string) returns (r: Expected<()>)
      modifies this
      ensures r == if old(process).None? then Err("uninitialized")
                   else if protocol != SNMP then Err("unsupported") else Ok(())
      ensures process == if old(process).None? then None
                         else Some(Applied(protocol, old(process).value, Community(community)))
      ensures r.Err? ==> process == old(process)
      ensures r.Ok? ==>
        process == Some(old(process).value.(
          args := old(process).value.args + ["-x", "community" + "=" + community],
          env := old(process).value.env["SU_VAR_VERSION" := "v1"]["SU_VAR_COMMUNITY" := community]))
    {
      if process.None? {
        return Err("uninitialized");
      }
      if protocol != SNMP {
        return Err("unsupported");
      }
      Env(VERSION, "v1");
      Both(COMMUNITY, community);
      return Ok(());
    }

    method SetTimeout(milliseconds: nat) returns (r: Expected<()>)
      modifies this
      ensures r == if old(process).None? then Err("uninitialized")
                   else if protocol != SNMP then Err("unsupported") else Ok(())
      ensures process == if old(process).None? then None
                         else Some(Applied(protocol, old(process).value, Timeout(milliseconds)))
      ensures r.Err? ==> process == old(process)
      ensures r.Ok? ==>
        var seconds := Decimal(milliseconds / 1000);
        process == Some(old(process).value.(
          args := old(process).value.args + ["-x", "snmp_timeout" + "=" + seconds],
          env := old(process).value.env["SU_VAR_TIMEOUT" := seconds]))
    {
      if process.None? {
        return Err("uninitialized");
      }
      if protocol != SNMP {
        return Err("unsupported");
      }
      Both(TIMEOUT, Decimal(milliseconds / 1000));
      return Ok(());
    }

    method SetMib(legacyName: string) returns (r: Expected<()>)
      modifies this
      ensures r == if old(process).None? then Err("uninitialized")
                   else if protocol != SNMP then Err("unsupported") else Ok(())
      ensures process == if old(process).None? then None
                         else Some(Applied(protocol, old(process).value, Mib(legacyName)))
      ensures r.Err? ==> process == old(process)
      ensures r.Ok? ==>
        process == Some(old(process).value.(env := old(process).value.env["SU_VAR_MIBS" := legacyName]))
    {
      if process.None? {
        return Err("uninitialized");
      }
      if protocol != SNMP {
        return Err("unsupported");
      }
      Env(MIBS, legacyName);
      return Ok(());
    }
  }
}
