/** The job that turns a driver's output into assets. */
module Assets {
  import opened Text
  import opened OrderedMap
  import opened Mapper
  import opened NutOutput
  import opened AssetSplit
  import opened AssetSpec

  class Asset {
    var subAddress: string
    var kind: string
    var subtype: string
    var ext: seq<Entry>

    function View(): AssetView
      reads this
    {
      AssetView(subAddress, kind, subtype, ext)
    }

    constructor (subAddress: string, kind: string, subtype: string)
      ensures View() == AssetView(subAddress, kind, subtype, [])
    {
      this.subAddress, this.kind, this.subtype, ext := subAddress, kind, subtype, [];
    }
  }

  /** The answer, a list that assets are appended to. */
  class AssetList {
    var items: seq<Asset>

    constructor ()
      ensures items == []
    {
      items := [];
    }
  }

  class Job {
    const site: Site
    var params: Params

    constructor (site: Site, params: Params)
      ensures this.site == site && this.params == params
    {
      this.site, this.params := site, params;
    }

    method AddAssetVal(asset: Asset, key: string, val: string, readOnly: bool := true)
      modifies asset
      ensures asset.View() == old(asset.View()).(ext := old(asset.ext) + [Entry(key, val, readOnly)])
    {
      asset.ext := asset.ext + [Entry(key, val, readOnly)];
    }

    /** Appends what the request and the device's own entries say.  The searches run over a list that
        already grew, and still see only what the device gave. */
    method EnrichAsset(asset: Asset)
      modifies asset
      ensures asset.View() == Enriched(site, params, old(asset.View()))
    {
      ghost var v := asset.View();
      SetSubtype(asset);
      AddConnection(asset);
      AddIdentity(asset, v);
      AddPower(asset, v);
      AddSettings(asset);
      AddDaisyChain(asset);
      ghost var d := DeviceIn(v);
      Regroup(v.ext, Connection(params, v.subAddress), [Identity(site, d)], MaxPower(d),
              ProtocolSettings(params), DaisyChain(d.subtype, v.subAddress));
    }

    method SetSubtype(asset: Asset)
      modifies asset
      ensures asset.View() == old(asset.View()).(subtype := DeviceIn(old(asset.View())).subtype)
      ensures var v := old(asset.View());
        var given := if v.subtype != "" then v.subtype else GetOr(FirstWith(v.ext, "device.type"), "");
        && (given == "pdu" ==> asset.subtype == "epdu") && (given == "ats" ==> asset.subtype == "sts")
        && (given != "pdu" && given != "ats" ==> asset.subtype == given)
    {
      if asset.subtype == "" {
        var kind := FirstWith(asset.ext, "device.type");
        if kind.Some? {
          asset.subtype := kind.value;
        }
      }
      if asset.subtype == "pdu" {
        asset.subtype := "epdu";
      }
      if asset.subtype == "ats" {
        asset.subtype := "sts";
      }
    }

    method AddDaisyChain(asset: Asset)
      modifies asset
      ensures asset.View() ==
              old(asset.View()).(ext := old(asset.ext) + DaisyChain(old(asset.subtype), old(asset.subAddress)))
    {
      if asset.subtype == "epdu" {
        var daisyChain := "0";
        if asset.subAddress != "" {
          daisyChain := asset.subAddress;
        }
        AddAssetVal(asset, "daisy_chain", daisyChain);
      }
    }

    method AddConnection(asset: Asset)
      modifies asset
      ensures asset.View() == old(asset.View()).(ext := old(asset.ext) + Connection(params, old(asset.subAddress)))
    {
      AddAssetVal(asset, "ip.1", params.address, false);
      AddAssetVal(asset, "endpoint.1.protocol", params.protocol, false);
      AddAssetVal(asset, "endpoint.1.port", Decimal(params.port), false);
      AddAssetVal(asset, "endpoint.1.sub_address", asset.subAddress, false);
      AddAssetVal(asset, "endpoint.1.status.operating", "IN_SERVICE", false);
      AddAssetVal(asset, "endpoint.1.status.error_msg", "", false);
    }

    /** `v` is the asset before, when it had only what came from the device. */
    method AddIdentity(asset: Asset, ghost v: AssetView)
      requires asset.ext == v.ext + Connection(params, asset.subAddress)
      modifies asset
      ensures asset.View() == old(asset.View()).(ext := old(asset.ext) + [Identity(site, DeviceIn(v))])
    {
      ghost var given := v.ext;
      SearchPastConnection(given, params, asset.subAddress, "manufacturer");
      SearchPastConnection(given, params, asset.subAddress, "model");
      SearchPastConnection(given, params, asset.subAddress, "serial_no");
      var manufacturer := FirstWith(asset.ext, "manufacturer");
      var model := FirstWith(asset.ext, "model");
      var serial := FirstWith(asset.ext, "serial_no");
      if manufacturer.Some? && model.Some? && serial.Some? {
        AddAssetVal(asset, "uuid", (site.uuid)(manufacturer.value, model.value, serial.value), false);
      } else {
        AddAssetVal(asset, "uuid", "", false);
      }
    }

    method AddPower(asset: Asset, ghost v: AssetView)
      requires asset.ext == v.ext + Connection(params, asset.subAddress) + [Identity(site, DeviceIn(v))]
      modifies asset
      ensures asset.View() == old(asset.View()).(ext := old(asset.ext) + MaxPower(DeviceIn(v)))
      ensures var power := FirstWith(v.ext, "realpower.nominal");
        var byDefault := FirstWith(v.ext, "realpower.default.nominal");
        && (power.Some? ==> asset.ext == old(asset.ext) + [Entry("max_power", power.value, false)])
        && (power.None? && byDefault.Some? ==>
              asset.ext == old(asset.ext) + [Entry("max_power", byDefault.value, false)])
        && (power.None? && byDefault.None? ==> asset.ext == old(asset.ext))
    {
      SearchPastIdentity(site, v, params, asset.subAddress, "realpower.nominal");
      SearchPastIdentity(site, v, params, asset.subAddress, "realpower.default.nominal");
      var nominal := FirstWith(asset.ext, "realpower.nominal");
      if nominal.Some? {
        AddAssetVal(asset, "max_power", nominal.value, false);
      } else {
        var byDefault := FirstWith(asset.ext, "realpower.default.nominal");
        if byDefault.Some? {
          AddAssetVal(asset, "max_power", byDefault.value, false);
        }
      }
    }

    method AddSettings(asset: Asset)
      modifies asset
      ensures asset.View() == old(asset.View()).(ext := old(asset.ext) + ProtocolSettings(params))
    {
      if params.protocol == "nut_snmp" {
        if params.credentialId.Some? {
          AddAssetVal(asset, "endpoint.1.nut_snmp.secw_credential_id", params.credentialId.value, false);
        }
        if params.community.Some? {
          AddAssetVal(asset, "endpoint.1.nut_snmp.community", params.community.value, false);
        }
        if params.mib.Some? {
          AddAssetVal(asset, "endpoint.1.nut_snmp.MIB", params.mib.value, false);
        }
      }
    }

    /** One more asset, filled with the pairs under the prefix in key order and enriched. */
    method AppendAsset(out: AssetList, m: Pairs, deviceType: string, subAddress: string, prefix: string)
      requires deviceType == DeviceType(m)
      modifies out
      ensures Grew(out.items, old(out.items), [AssetFor(site, params, m, subAddress, prefix)])
      ensures forall a :: a in out.items[|old(out.items)|..] ==> fresh(a)
    {
      var asset := new Asset(subAddress, "device", deviceType);
      out.items := out.items + [asset];
      FillAsset(asset, m, prefix);
      EnrichAsset(asset);
    }

    /** The loop over the pairs, for an asset without attributes. */
    method FillAsset(asset: Asset, m: Pairs, prefix: string)
      requires asset.ext == []
      modifies asset
      ensures asset.View() == old(asset.View()).(ext := DeviceEntries(site.inventory, m, prefix))
    {
      var i := 0;
      while i < |m|
        invariant 0 <= i <= |m|
        invariant asset.View() == old(asset.View()).(ext := DeviceEntries(site.inventory, m[..i], prefix))
      {
        DeviceEntriesSnoc(site.inventory, m[..i], m[i], prefix);
        assert m[..i + 1] == m[..i] + [m[i]];
        if prefix <= m[i].0 {
          var key := MapKey(site.inventory, m[i].0[|prefix|..]);
          if key != "" {
            AddAssetVal(asset, key, m[i].1);
          }
        }
        i := i + 1;
      }
      assert m[..|m|] == m;
    }

    /** The assets of a daisy chain of dcount devices. */
    method AppendChain(out: AssetList, m: Pairs, deviceType: string, dcount: nat)
      requires deviceType == DeviceType(m)
      modifies out
      ensures Grew(out.items, old(out.items), Chain(site, params, m, dcount))
      ensures forall a :: a in out.items[|old(out.items)|..] ==> fresh(a)
    {
      var i := 0;
      while i < dcount
        invariant 0 <= i <= dcount
        invariant Grew(out.items, old(out.items), Chain(site, params, m, i))
        invariant forall a :: a in out.items[|old(out.items)|..] ==> fresh(a)
      {
        ghost var items := out.items;
        AppendAsset(out, m, deviceType, Decimal(i + 1), DevicePrefix(i + 1));
        GrewTwice(out.items, items, old(out.items), Chain(site, params, m, i), ChainNext(site, params, m, i));
        i := i + 1;
      }
    }

    /** The assets of an output are appended to the answer; the assets before stay as they were. */
    method Parse(cnt: string, out: AssetList)
      modifies out
      ensures Grew(out.items, old(out.items), AssetsOf(site, params, ParseOutput(cnt)))
      ensures forall a :: a in out.items[|old(out.items)|..] ==> fresh(a)
    {
      var tmpMap := CollectLines(Lines(cnt));
      var deviceType := GetOr(Get(tmpMap, "device.type"), "");
      var count := Get(tmpMap, "device.count");
      var dcount := if count.Some? then (site.toInt)(count.value) else 0;
      if dcount > 1 {
        AppendChain(out, tmpMap, deviceType, dcount);
      } else {
        AppendAsset(out, tmpMap, deviceType, "", "");
      }
    }

    method CollectLines(lines: seq<string>) returns (tmpMap: Pairs)
      ensures tmpMap == Collect([], lines)
    {
      tmpMap := [];
      var i := 0;
      while i < |lines|
        invariant 0 <= i <= |lines|
        invariant Collect(tmpMap, lines[i..]) == Collect([], lines)
      {
        var (key, value) := ParseLine(lines[i]);
        assert lines[i..][0] == lines[i] && lines[i..][1..] == lines[i + 1..];
        tmpMap := Emplace(tmpMap, key, value);
        i := i + 1;
      }
    }
  }

  /** The list `before` with more assets behind it, which read as `views`. */
  ghost predicate Grew(items: seq<Asset>, before: seq<Asset>, views: seq<AssetView>)
    reads items
  {
    && |items| == |before| + |views| && before <= items
    && forall k :: 0 <= k < |views| ==> items[|before| + k].View() == views[k]
  }

  lemma GrewTwice(items: seq<Asset>, middle: seq<Asset>, before: seq<Asset>, a: seq<AssetView>, b: seq<AssetView>)
    requires Grew(middle, before, a) && Grew(items, middle, b)
    ensures Grew(items, before, a + b)
    ensures items[|before|..] == middle[|before|..] + items[|middle|..]
  {}

  lemma Regroup(z: seq<Entry>, a: seq<Entry>, b: seq<Entry>, c: seq<Entry>, d: seq<Entry>, e: seq<Entry>)
    ensures z + a + b + c + d + e == z + (a + b + c + d + e)
  {}

  lemma SearchPastConnection(given: seq<Entry>, p: Params, subAddress: string, key: string)
    requires key != "" && key[0] != 'i' && key[0] != 'e'
    ensures FirstWith(given + Connection(p, subAddress), key) == FirstWith(given, key)
  {
    FirstWithCat(given, Connection(p, subAddress), key);
  }

  lemma SearchPastIdentity(site: Site, v: AssetView, p: Params, subAddress: string, key: string)
    requires key != "" && key[0] == 'r'
    ensures FirstWith(v.ext + Connection(p, subAddress) + [Identity(site, DeviceIn(v))], key) == FirstWith(v.ext, key)
  {
    FirstWithCat(v.ext + Connection(p, subAddress), [Identity(site, DeviceIn(v))], key);
    SearchPastConnection(v.ext, p, subAddress, key);
  }
}
