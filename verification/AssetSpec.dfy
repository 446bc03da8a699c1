/** What the assets of a driver's output should be: the reference for the job. */
module AssetSpec {
  import opened Wrappers
  import opened Text
  import opened OrderedMap
  import opened Mapper
  import opened AssetSplit

  /** The request, as far as it reaches the assets.  `None` is a field that is not set. */
  datatype Params = Params(
    address: string, protocol: string, port: nat,
    credentialId: Option<string>, community: Option<string>, mib: Option<string>)

  /** Calls whose code is not part of this model: the inventory mapping that was loaded, the UUID of a
      manufacturer, model and serial number, and the conversion of a text to an integer. */
  datatype Site = Site(
    inventory: Inventory, uuid: (string, string, string) -> string, toInt: string -> int)

  /** One asset of the answer, as a value. */
  datatype AssetView = AssetView(subAddress: string, kind: string, subtype: string, ext: seq<Entry>)

  /** `find`: the position of the first entry with the key, or the length of the list. */
  function FirstAt(ext: seq<Entry>, key: string): (i: nat)
    ensures i <= |ext| && (i < |ext| ==> ext[i].key == key)
    ensures forall k :: 0 <= k < i ==> ext[k].key != key
  {
    if ext == [] || ext[0].key == key then 0 else 1 + FirstAt(ext[1..], key)
  }

  function Found(ext: seq<Entry>, key: string): Option<Entry> {
    if FirstAt(ext, key) < |ext| then Some(ext[FirstAt(ext, key)]) else None
  }

  /** The value of the first entry with the key. */
  function FirstWith(ext: seq<Entry>, key: string): (r: Option<string>)
    ensures r.None? <==> forall i :: 0 <= i < |ext| ==> ext[i].key != key
  {
    match Found(ext, key) case None => None case Some(e) => Some(e.value)
  }

  lemma FirstAtCat(a: seq<Entry>, b: seq<Entry>, key: string)
    ensures FirstAt(a + b, key) == if FirstAt(a, key) < |a| then FirstAt(a, key) else |a| + FirstAt(b, key)
    ensures Found(a + b, key) == if Found(a, key).Some? then Found(a, key) else Found(b, key)
  {
    FirstAtIn(a, b, key);
  }

  lemma {:induction false} FirstAtIn(a: seq<Entry>, b: seq<Entry>, key: string)
    ensures FirstAt(a + b, key) == if FirstAt(a, key) < |a| then FirstAt(a, key) else |a| + FirstAt(b, key)
  {
    if a == [] {
      assert a + b == b;
    } else {
      assert (a + b)[0] == a[0] && (a + b)[1..] == a[1..] + b;
      FirstAtIn(a[1..], b, key);
    }
  }

  lemma FirstWithCat(a: seq<Entry>, b: seq<Entry>, key: string)
    ensures FirstWith(a + b, key) == if FirstWith(a, key).Some? then FirstWith(a, key) else FirstWith(b, key)
  {
    FirstAtCat(a, b, key);
  }

  function GetOr(r: Option<string>, default: string): string {
    match r case None => default case Some(v) => v
  }

  /** What the job takes from a device: its final subtype and some of the things it says about itself. */
  datatype Device = Device(
    subtype: string, manufacturer: Option<string>, model: Option<string>, serial: Option<string>,
    power: Option<string>)

  function DeviceFrom(subtype: string, said: string -> Option<string>): Device {
    var s := if subtype == "" then GetOr(said("device.type"), "") else subtype;
    Device(if s == "pdu" then "epdu" else if s == "ats" then "sts" else s,
           said("manufacturer"), said("model"), said("serial_no"),
           if said("realpower.nominal").Some? then said("realpower.nominal") else said("realpower.default.nominal"))
  }

  /** As the entries say it that an asset has before it is enriched. */
  function DeviceIn(v: AssetView): Device {
    DeviceFrom(v.subtype, key => FirstWith(v.ext, key))
  }

  // ---------- the appended entries ----------

  function Connection(p: Params, subAddress: string): seq<Entry> {
    [Entry("ip.1", p.address, false),
     Entry("endpoint.1.protocol", p.protocol, false),
     Entry("endpoint.1.port", Decimal(p.port), false),
     Entry("endpoint.1.sub_address", subAddress, false),
     Entry("endpoint.1.status.operating", "IN_SERVICE", false),
     Entry("endpoint.1.status.error_msg", "", false)]
  }

  function Identity(site: Site, d: Device): Entry {
    Entry("uuid",
          if d.manufacturer.Some? && d.model.Some? && d.serial.Some?
          then (site.uuid)(d.manufacturer.value, d.model.value, d.serial.value) else "",
          false)
  }

  function MaxPower(d: Device): seq<Entry> {
    IfSet("max_power", d.power)
  }

  const SECW_KEY := "endpoint.1.nut_snmp.secw_credential_id"
  const COMMUNITY_KEY := "endpoint.1.nut_snmp.community"
  const MIB_KEY := "endpoint.1.nut_snmp.MIB"

  function IfSet(key: string, v: Option<string>): seq<Entry> {
    match v case None => [] case Some(x) => [Entry(key, x, false)]
  }

  function ProtocolSettings(p: Params): seq<Entry> {
    if p.protocol != "nut_snmp" then []
    else IfSet(SECW_KEY, p.credentialId) + IfSet(COMMUNITY_KEY, p.community) + IfSet(MIB_KEY, p.mib)
  }

  function DaisyChain(subtype: string, subAddress: string): seq<Entry> {
    if subtype != "epdu" then []
    else [Entry("daisy_chain", if subAddress == "" then "0" else subAddress, true)]
  }

  function Tail(site: Site, p: Params, subAddress: string, d: Device): seq<Entry> {
    Connection(p, subAddress) + [Identity(site, d)] + MaxPower(d) + ProtocolSettings(p)
    + DaisyChain(d.subtype, subAddress)
  }

  function Enriched(site: Site, p: Params, v: AssetView): AssetView {
    v.(subtype := DeviceIn(v).subtype, ext := v.ext + Tail(site, p, v.subAddress, DeviceIn(v)))
  }

  // ---------- all assets of an output ----------

  function DeviceType(m: Pairs): string {
    GetOr(Get(m, "device.type"), "")
  }

  function DeviceCount(site: Site, m: Pairs): int {
    match Get(m, "device.count") case None => 0 case Some(v) => (site.toInt)(v)
  }

  function AssetFor(site: Site, p: Params, m: Pairs, subAddress: string, prefix: string): AssetView {
    Enriched(site, p, AssetView(subAddress, "device", DeviceType(m), DeviceEntries(site.inventory, m, prefix)))
  }

  /** The first n devices of a daisy chain. */
  function Chain(site: Site, p: Params, m: Pairs, n: nat): seq<AssetView> {
    if n == 0 then [] else Chain(site, p, m, n - 1) + ChainNext(site, p, m, n - 1)
  }

  /** The device behind the first n ones. */
  function ChainNext(site: Site, p: Params, m: Pairs, n: nat): seq<AssetView> {
    [AssetFor(site, p, m, Decimal(n + 1), DevicePrefix(n + 1))]
  }

  function AssetsOf(site: Site, p: Params, m: Pairs): seq<AssetView> {
    var n := DeviceCount(site, m);
    if n > 1 then Chain(site, p, m, n) else [AssetFor(site, p, m, "", "")]
  }

  // ---------- what that means ----------

  function CountKey(ext: seq<Entry>, key: string): nat {
    if ext == [] then 0 else (if ext[0].key == key then 1 else 0) + CountKey(ext[1..], key)
  }

  lemma {:induction false} CountKeyCat(a: seq<Entry>, b: seq<Entry>, key: string)
    ensures CountKey(a + b, key) == CountKey(a, key) + CountKey(b, key)
  {
    if a == [] {
      assert a + b == b;
    } else {
      assert (a + b)[0] == a[0] && (a + b)[1..] == a[1..] + b;
      CountKeyCat(a[1..], b, key);
    }
  }

  lemma {:induction false} CountAbsent(ext: seq<Entry>, key: string)
    requires forall i :: 0 <= i < |ext| ==> ext[i].key != key
    ensures CountKey(ext, key) == 0
  {
    if ext != [] {
      CountAbsent(ext[1..], key);
    }
  }

  /** The shape of every enriched asset: what the device gave stays in front; behind it there is one
      uuid, a max_power exactly when the device gave a nominal power, and a daisy_chain exactly for
      "epdu"; and the old names of two subtypes are gone. */
  lemma EnrichedShape(site: Site, p: Params, v: AssetView)
    ensures var w := Enriched(site, p, v);
            && v.ext <= w.ext && w.subAddress == v.subAddress && w.kind == v.kind
            && w.subtype !in ["pdu", "ats"]
            && CountKey(w.ext, "uuid") == CountKey(v.ext, "uuid") + 1
            && CountKey(w.ext, "max_power") == CountKey(v.ext, "max_power") +
                 (if FirstWith(v.ext, "realpower.nominal").Some? ||
                     FirstWith(v.ext, "realpower.default.nominal").Some? then 1 else 0)
            && CountKey(w.ext, "daisy_chain") == CountKey(v.ext, "daisy_chain") + (if w.subtype == "epdu" then 1 else 0)
  {
    TailCount(site, p, v, "uuid");
    TailCount(site, p, v, "max_power");
    TailCount(site, p, v, "daisy_chain");
  }

  /** Every enriched asset outright.  Two names of subtypes are replaced and all others kept; behind what
      the device gave there are, in this order, the connection, the uuid (empty unless the device gave all
      that it is made of), the nominal power or else the default one, what was set for SNMP, and the place
      in the daisy chain. */
  lemma EnrichedExact(site: Site, p: Params, v: AssetView)
    ensures var w := Enriched(site, p, v);
            var given := if v.subtype != "" then v.subtype else GetOr(FirstWith(v.ext, "device.type"), "");
            && (given == "pdu" ==> w.subtype == "epdu") && (given == "ats" ==> w.subtype == "sts")
            && (given != "pdu" && given != "ats" ==> w.subtype == given)
    ensures var w, snmp := Enriched(site, p, v), p.protocol == "nut_snmp";
            var m, o, n := FirstWith(v.ext, "manufacturer"), FirstWith(v.ext, "model"), FirstWith(v.ext, "serial_no");
            var power := FirstWith(v.ext, "realpower.nominal");
            var byDefault := FirstWith(v.ext, "realpower.default.nominal");
            w.ext == v.ext
              + ([Entry("ip.1", p.address, false),
                  Entry("endpoint.1.protocol", p.protocol, false),
                  Entry("endpoint.1.port", Decimal(p.port), false),
                  Entry("endpoint.1.sub_address", v.subAddress, false),
                  Entry("endpoint.1.status.operating", "IN_SERVICE", false),
                  Entry("endpoint.1.status.error_msg", "", false)]
                 + [Entry("uuid",
                          if m.Some? && o.Some? && n.Some? then (site.uuid)(m.value, o.value, n.value) else "",
                          false)]
                 + (if power.Some? then [Entry("max_power", power.value, false)]
                    else if byDefault.Some? then [Entry("max_power", byDefault.value, false)] else [])
                 + (if !snmp then []
                    else (if p.credentialId.Some?
                          then [Entry("endpoint.1.nut_snmp.secw_credential_id", p.credentialId.value, false)] else [])
                         + (if p.community.Some?
                            then [Entry("endpoint.1.nut_snmp.community", p.community.value, false)] else [])
                         + (if p.mib.Some? then [Entry("endpoint.1.nut_snmp.MIB", p.mib.value, false)] else []))
                 + (if w.subtype == "epdu"
                    then [Entry("daisy_chain", if v.subAddress == "" then "0" else v.subAddress, true)] else []))
  {}

  lemma TailCount(site: Site, p: Params, v: AssetView, key: string)
    requires key in ["uuid", "max_power", "daisy_chain"]
    ensures var d := DeviceIn(v);
            CountKey(v.ext + Tail(site, p, v.subAddress, d), key) == CountKey(v.ext, key) +
              (if key == "uuid" then 1
               else if key == "max_power" then |MaxPower(d)|
               else |DaisyChain(d.subtype, v.subAddress)|)
  {
    var device := DeviceIn(v);
    var a, b, c := Connection(p, v.subAddress), [Identity(site, device)], MaxPower(device);
    var d, e := ProtocolSettings(p), DaisyChain(device.subtype, v.subAddress);
    CountParts(v.ext, a, b, c, d, e, key);
    OtherKeys(p, v.subAddress, key);
  }

  lemma OtherKeys(p: Params, subAddress: string, key: string)
    requires key in ["uuid", "max_power", "daisy_chain"]
    ensures CountKey(Connection(p, subAddress), key) == 0 && CountKey(ProtocolSettings(p), key) == 0
  {
    CountAbsent(Connection(p, subAddress), key);
    CountAbsent(ProtocolSettings(p), key);
  }

  lemma CountParts(z: seq<Entry>, a: seq<Entry>, b: seq<Entry>, c: seq<Entry>, d: seq<Entry>, e: seq<Entry>,
                   key: string)
    ensures CountKey(z + (a + b + c + d + e), key) ==
            CountKey(z, key) + CountKey(a, key) + CountKey(b, key) + CountKey(c, key) + CountKey(d, key)
            + CountKey(e, key)
  {
    CountKeyCat(z, a + b + c + d + e, key);
    CountKeyCat(a + b + c + d, e, key);
    CountKeyCat(a + b + c, d, key);
    CountKeyCat(a + b, c, key);
    CountKeyCat(a, b, key);
  }

  lemma {:induction false} ChainAt(site: Site, p: Params, m: Pairs, n: nat, i: nat)
    requires i < n
    ensures |Chain(site, p, m, n)| == n
    ensures Chain(site, p, m, n)[i] == AssetFor(site, p, m, Decimal(i + 1), DevicePrefix(i + 1))
  {
    if i < n - 1 {
      ChainAt(site, p, m, n - 1, i);
    } else if n > 1 {
      ChainAt(site, p, m, n - 1, 0);
    }
  }

  /** A device count n > 1 gives n assets with the sub-addresses "1" to "n" in order, none of them twice,
      each with the entries under its own prefix in front; every other output gives one asset without
      sub-address, with the entries of all keys. */
  lemma AssetsShape(site: Site, p: Params, m: Pairs)
    ensures var views, count := AssetsOf(site, p, m), Get(m, "device.count");
            var n := if count.Some? then (site.toInt)(count.value) else 0;
            && |views| == (if n > 1 then n else 1)
            && (forall i :: 0 <= i < |views| ==>
                  && views[i].subAddress == (if n > 1 then Decimal(i + 1) else "")
                  && views[i].kind == "device"
                  && DeviceEntries(site.inventory, m, if n > 1 then "device." + Decimal(i + 1) + "." else "")
                       <= views[i].ext)
            && (forall i, j :: 0 <= i < j < |views| ==> views[i].subAddress != views[j].subAddress)
  {
    var n := DeviceCount(site, m);
    if n > 1 {
      ChainShape(site, p, m, n);
    }
  }

  lemma ChainShape(site: Site, p: Params, m: Pairs, n: nat)
    ensures var views := Chain(site, p, m, n);
            && |views| == n
            && (forall i :: 0 <= i < n ==>
                  && views[i].subAddress == Decimal(i + 1) && views[i].kind == "device"
                  && DeviceEntries(site.inventory, m, DevicePrefix(i + 1)) <= views[i].ext)
            && (forall i, j :: 0 <= i < j < n ==> views[i].subAddress != views[j].subAddress)
  {
    var views := Chain(site, p, m, n);
    if n > 0 {
      ChainAt(site, p, m, n, 0);
    }
    forall i | 0 <= i < n
      ensures views[i].subAddress == Decimal(i + 1) && views[i].kind == "device"
      ensures DeviceEntries(site.inventory, m, DevicePrefix(i + 1)) <= views[i].ext
    {
      ChainAt(site, p, m, n, i);
    }
    forall i, j | 0 <= i < j < n ensures views[i].subAddress != views[j].subAddress {
      if Decimal(i + 1) == Decimal(j + 1) {
        DecimalInjective(i + 1, j + 1);
      }
    }
  }

  // ---------- what a client reads under a key ----------

  /** The pair becomes an attribute called `key` of the device with the prefix. */
  predicate Gives(inventory: Inventory, prefix: string, pair: (string, string), key: string) {
    Feeds(inventory, prefix, pair.0) && MapKey(inventory, pair.0[|prefix|..]) == key
  }

  /** The first such pair, in key order. */
  function Source(inventory: Inventory, prefix: string, m: Pairs, key: string): (r: Option<nat>)
    ensures r.Some? ==> r.value < |m| && Gives(inventory, prefix, m[r.value], key)
    ensures forall i :: 0 <= i < (if r.Some? then r.value else |m|) ==> !Gives(inventory, prefix, m[i], key)
  {
    if m == [] then None
    else if Gives(inventory, prefix, m[0], key) then Some(0)
    else match Source(inventory, prefix, m[1..], key) case None => None case Some(i) => Some(i + 1)
  }

  /** What the device itself said. */
  function Said(inventory: Inventory, prefix: string, m: Pairs, key: string): Option<string> {
    match Source(inventory, prefix, m, key) case None => None case Some(i) => Some(m[i].1)
  }

  /** The device said v under the key: a pair of the output under the prefix has it for its value, its
      remaining key is mapped to the key, and no pair before it is. */
  ghost predicate Says(inventory: Inventory, prefix: string, m: Pairs, key: string, v: string, i: nat) {
    && i < |m| && key != "" && m[i].1 == v
    && prefix <= m[i].0 && MapKey(inventory, m[i].0[|prefix|..]) == key
    && forall j :: 0 <= j < i ==> !(prefix <= m[j].0 && MapKey(inventory, m[j].0[|prefix|..]) == key)
  }

  lemma SaidMeans(inventory: Inventory, prefix: string, m: Pairs, key: string, v: string)
    ensures Said(inventory, prefix, m, key) == Some(v) <==> exists i: nat :: Says(inventory, prefix, m, key, v, i)
  {
    var r := Source(inventory, prefix, m, key);
    if r.Some? {
      assert Says(inventory, prefix, m, key, m[r.value].1, r.value);
    }
    if i: nat :| Says(inventory, prefix, m, key, v, i) {
      assert Gives(inventory, prefix, m[i], key);
      if i < r.value {
        assert false;
      }
      assert i == r.value;
    }
  }

  lemma FoundCons(e: Entry, ext: seq<Entry>, key: string)
    ensures Found([e] + ext, key) == if e.key == key then Some(e) else Found(ext, key)
  {
    assert ([e] + ext)[1..] == ext;
  }

  ghost predicate GivenFound(inventory: Inventory, m: Pairs, prefix: string, key: string) {
    Found(DeviceEntries(inventory, m, prefix), key) ==
    match Said(inventory, prefix, m, key) case None => None case Some(v) => Some(Entry(key, v, true))
  }

  lemma {:induction false} FoundGiven(inventory: Inventory, m: Pairs, prefix: string, key: string)
    ensures GivenFound(inventory, m, prefix, key)
  {
    if m == [] {
      assert DeviceEntries(inventory, m, prefix) == [];
    } else {
      FoundGiven(inventory, m[1..], prefix, key);
      GivenStep(inventory, m, prefix, key);
    }
  }

  lemma GivenStep(inventory: Inventory, m: Pairs, prefix: string, key: string)
    requires m != [] && GivenFound(inventory, m[1..], prefix, key)
    ensures GivenFound(inventory, m, prefix, key)
  {
    if Feeds(inventory, prefix, m[0].0) {
      var e := Entry(MapKey(inventory, m[0].0[|prefix|..]), m[0].1, true);
      FoundCons(e, DeviceEntries(inventory, m[1..], prefix), key);
    }
  }

  /** As the output says it. */
  function DeviceOf(inventory: Inventory, m: Pairs, prefix: string): Device {
    DeviceFrom(DeviceType(m), key => Said(inventory, prefix, m, key))
  }

  lemma SaidFound(inventory: Inventory, m: Pairs, prefix: string, key: string)
    ensures FirstWith(DeviceEntries(inventory, m, prefix), key) == Said(inventory, prefix, m, key)
  {
    FoundGiven(inventory, m, prefix, key);
  }

  lemma DeviceSame(subtype: string, f: string -> Option<string>, g: string -> Option<string>)
    requires forall key: string :: f(key) == g(key)
    ensures DeviceFrom(subtype, f) == DeviceFrom(subtype, g)
  {}

  lemma DeviceRead(site: Site, m: Pairs, subAddress: string, prefix: string)
    ensures var v := AssetView(subAddress, "device", DeviceType(m), DeviceEntries(site.inventory, m, prefix));
            DeviceIn(v) == DeviceOf(site.inventory, m, prefix)
  {
    var given := DeviceEntries(site.inventory, m, prefix);
    var f, g := (key: string) => FirstWith(given, key), (key: string) => Said(site.inventory, prefix, m, key);
    forall key: string ensures f(key) == g(key) {
      SaidFound(site.inventory, m, prefix, key);
    }
    DeviceSame(DeviceType(m), f, g);
  }

  /** Read-only entries are the places in a daisy chain. */
  ghost predicate Flagged(ext: seq<Entry>) {
    forall i :: 0 <= i < |ext| ==> (ext[i].readOnly <==> ext[i].key == "daisy_chain")
  }

  lemma FlaggedCat(a: seq<Entry>, b: seq<Entry>)
    requires Flagged(a) && Flagged(b)
    ensures Flagged(a + b)
  {}

  lemma SettingsFlagged(p: Params)
    ensures Flagged(ProtocolSettings(p))
  {
    var a, b, c := IfSet(SECW_KEY, p.credentialId), IfSet(COMMUNITY_KEY, p.community), IfSet(MIB_KEY, p.mib);
    assert |"daisy_chain"| == 11 && |SECW_KEY| == 38 && |COMMUNITY_KEY| == 29 && |MIB_KEY| == 23;
    FlaggedCat(a, b);
    FlaggedCat(a + b, c);
  }

  lemma TailFlagged(site: Site, p: Params, subAddress: string, d: Device)
    ensures Flagged(Tail(site, p, subAddress, d))
  {
    var a, b, c := Connection(p, subAddress), [Identity(site, d)], MaxPower(d);
    assert |"daisy_chain"| == 11;
    assert Flagged(a) && Flagged(b) && Flagged(c);
    SettingsFlagged(p);
    FlaggedCat(a, b);
    FlaggedCat(a + b, c);
    FlaggedCat(a + b + c, ProtocolSettings(p));
    FlaggedCat(a + b + c + ProtocolSettings(p), DaisyChain(d.subtype, subAddress));
  }

  /** What a client reads under a key of an asset, for every key, from the output alone: where some pair
      that feeds the device is mapped to the key, the first such pair's value, read-only; exactly where
      there is none, what the job appended, if anything, which is read-only only for the place in the
      daisy chain. */
  lemma ReadAsset(site: Site, p: Params, m: Pairs, subAddress: string, prefix: string, key: string)
    ensures var given, w := DeviceEntries(site.inventory, m, prefix), AssetFor(site, p, m, subAddress, prefix);
            var d, said := DeviceOf(site.inventory, m, prefix), Said(site.inventory, prefix, m, key);
            && given <= w.ext
            && w.subtype == d.subtype
            && d.manufacturer == Said(site.inventory, prefix, m, "manufacturer")
            && d.model == Said(site.inventory, prefix, m, "model")
            && d.serial == Said(site.inventory, prefix, m, "serial_no")
            && (var power := Said(site.inventory, prefix, m, "realpower.nominal");
                d.power == if power.Some? then power else Said(site.inventory, prefix, m, "realpower.default.nominal"))
            && (var told := GetOr(Get(m, "device.type"), "");
                var subtype := if told != "" then told else GetOr(Said(site.inventory, prefix, m, "device.type"), "");
                && (subtype == "pdu" ==> d.subtype == "epdu") && (subtype == "ats" ==> d.subtype == "sts")
                && (subtype != "pdu" && subtype != "ats" ==> d.subtype == subtype))
            && (FirstAt(w.ext, key) < |given| <==>
                  exists i :: 0 <= i < |m| && Gives(site.inventory, prefix, m[i], key))
            && var appended := Found(Tail(site, p, subAddress, d), key);
            && Found(w.ext, key) == (if said.Some? then Some(Entry(key, said.value, true)) else appended)
            && (appended.Some? ==> (appended.value.readOnly <==> key == "daisy_chain"))
  {
    var given, d := DeviceEntries(site.inventory, m, prefix), DeviceOf(site.inventory, m, prefix);
    DeviceRead(site, m, subAddress, prefix);
    FirstAtCat(given, Tail(site, p, subAddress, d), key);
    FoundGiven(site.inventory, m, prefix, key);
    TailFlagged(site, p, subAddress, d);
    var i := Source(site.inventory, prefix, m, key);
    assert i.Some? ==> Gives(site.inventory, prefix, m[i.value], key);
  }
}
