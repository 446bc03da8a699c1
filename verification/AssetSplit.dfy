/** Which entries of a driver's output go to which asset. */
module AssetSplit {
  import opened Text
  import opened OrderedMap
  import opened Mapper

  /** One attribute of an asset. */
  datatype Entry = Entry(key: string, value: string, readOnly: bool)

  /** The keys of device i of a daisy chain begin with this. */
  function DevicePrefix(i: nat): string {
    "device." + Decimal(i) + "."
  }

  /** The key goes to an asset that takes the keys with this prefix: it has a mapping. */
  predicate Feeds(inventory: Inventory, prefix: string, key: string) {
    prefix <= key && MapKey(inventory, key[|prefix|..]) != ""
  }

  /** The attributes of that asset, in key order. */
  function DeviceEntries(inventory: Inventory, m: Pairs, prefix: string): seq<Entry> {
    if m == [] then []
    else
      var rest := DeviceEntries(inventory, m[1..], prefix);
      if Feeds(inventory, prefix, m[0].0)
      then [Entry(MapKey(inventory, m[0].0[|prefix|..]), m[0].1, true)] + rest
      else rest
  }

  lemma {:induction false} DeviceEntriesSnoc(inventory: Inventory, m: Pairs, p: (string, string), prefix: string)
    ensures DeviceEntries(inventory, m + [p], prefix) ==
            if Feeds(inventory, prefix, p.0)
            then DeviceEntries(inventory, m, prefix) + [Entry(MapKey(inventory, p.0[|prefix|..]), p.1, true)]
            else DeviceEntries(inventory, m, prefix)
  {
    if m == [] {
      assert m + [p] == [p] && [p][1..] == [];
    } else {
      assert (m + [p])[0] == m[0] && (m + [p])[1..] == m[1..] + [p];
      DeviceEntriesSnoc(inventory, m[1..], p, prefix);
    }
  }

  /** The positions at which a flag is set, in order. */
  function Positions(flags: seq<bool>): (r: seq<nat>)
    ensures forall a, b :: 0 <= a < b < |r| ==> r[a] < r[b]
    ensures forall a :: 0 <= a < |r| ==> r[a] < |flags| && flags[r[a]]
    ensures forall i :: 0 <= i < |flags| && flags[i] ==> i in r
  {
    if flags == [] then []
    else
      var l := |flags| - 1;
      var r := Positions(flags[..l]);
      assert forall i :: 0 <= i < l ==> flags[..l][i] == flags[i];
      if flags[l] then r + [l] else r
  }

  function Flags(inventory: Inventory, m: Pairs, prefix: string): seq<bool> {
    seq(|m|, i requires 0 <= i < |m| => Feeds(inventory, prefix, m[i].0))
  }

  /** The pairs that feed the asset, as positions in key order. */
  function Fed(inventory: Inventory, m: Pairs, prefix: string): seq<nat> {
    Positions(Flags(inventory, m, prefix))
  }

  /** The elements at which the flag is set, in order. */
  function Picked<T>(xs: seq<T>, flags: seq<bool>): seq<T>
    requires |xs| == |flags|
  {
    if xs == [] then [] else (if flags[0] then [xs[0]] else []) + Picked(xs[1..], flags[1..])
  }

  lemma {:induction false} PickedSnoc<T>(xs: seq<T>, flags: seq<bool>)
    requires |xs| == |flags| > 0
    ensures var l := |xs| - 1;
            Picked(xs, flags) == Picked(xs[..l], flags[..l]) + if flags[l] then [xs[l]] else []
  {
    var l := |xs| - 1;
    if l == 0 {
      assert xs[1..] == [] && flags[1..] == [];
    } else {
      PickedSnoc(xs[1..], flags[1..]);
      assert xs[1..][..l - 1] == xs[..l][1..] && flags[1..][..l - 1] == flags[..l][1..];
    }
  }

  lemma {:induction false} PickedAt<T>(xs: seq<T>, flags: seq<bool>)
    requires |xs| == |flags|
    ensures var at := Positions(flags);
            |Picked(xs, flags)| == |at| && forall r :: 0 <= r < |at| ==> Picked(xs, flags)[r] == xs[at[r]]
  {
    if xs != [] {
      var l := |xs| - 1;
      PickedAt(xs[..l], flags[..l]);
      PickedSnoc(xs, flags);
    }
  }

  /** The pair as an attribute: the rest of its key mapped, its value as it was. */
  function AsEntry(inventory: Inventory, prefix: string, p: (string, string)): Entry {
    Entry(if prefix <= p.0 then MapKey(inventory, p.0[|prefix|..]) else "", p.1, true)
  }

  function AsEntries(inventory: Inventory, m: Pairs, prefix: string): seq<Entry> {
    seq(|m|, i requires 0 <= i < |m| => AsEntry(inventory, prefix, m[i]))
  }

  lemma {:induction false} EntriesPicked(inventory: Inventory, m: Pairs, prefix: string)
    ensures DeviceEntries(inventory, m, prefix) ==
            Picked(AsEntries(inventory, m, prefix), Flags(inventory, m, prefix))
  {
    if m != [] {
      EntriesPicked(inventory, m[1..], prefix);
      assert AsEntries(inventory, m, prefix)[1..] == AsEntries(inventory, m[1..], prefix);
      assert Flags(inventory, m, prefix)[1..] == Flags(inventory, m[1..], prefix);
    }
  }

  /** The entries are, one to one and in order, the pairs under the prefix whose remaining key is mapped,
      each with that mapping for its key and its value as it was. */
  lemma EntriesAreFed(inventory: Inventory, m: Pairs, prefix: string)
    ensures var es, at := DeviceEntries(inventory, m, prefix), Fed(inventory, m, prefix);
            && es == seq(|at|, r requires 0 <= r < |at| => AsEntry(inventory, prefix, m[at[r]]))
            && (forall a, b :: 0 <= a < b < |at| ==> at[a] < at[b])
            && (forall i :: 0 <= i < |m| && prefix <= m[i].0 && MapKey(inventory, m[i].0[|prefix|..]) != "" ==> i in at)
            && (forall r :: 0 <= r < |at| ==>
                  var (key, value) := m[at[r]];
                  prefix <= key && es[r] == Entry(MapKey(inventory, key[|prefix|..]), value, true) && es[r].key != "")
  {
    EntriesPicked(inventory, m, prefix);
    PickedAt(AsEntries(inventory, m, prefix), Flags(inventory, m, prefix));
    var flags := Flags(inventory, m, prefix);
    forall i | 0 <= i < |m| && prefix <= m[i].0 && MapKey(inventory, m[i].0[|prefix|..]) != ""
      ensures i in Fed(inventory, m, prefix)
    {
      assert flags[i];
    }
  }

  /** The number of a device can be read off its keys, so "device.1." takes none of "device.10.". */
  lemma PrefixesApart(i: nat, j: nat, key: string)
    requires DevicePrefix(i) <= key && DevicePrefix(j) <= key
    ensures i == j
  {
    NumberInKey(i, key);
    NumberInKey(j, key);
    DecimalInjective(i, j);
  }

  lemma NumberInKey(i: nat, key: string)
    requires DevicePrefix(i) <= key
    ensures |key| >= 7 && Decimal(i) == key[7..][..FirstOf(key[7..], '.')]
  {
    var p, d := DevicePrefix(i), Decimal(i);
    assert p == "device." + d + "." && |p| == 7 + |d| + 1;
    var tail := key[7..];
    assert key == p + key[|p|..];
    assert tail == d + ("." + key[|p|..]);
    assert tail[..|d|] == d;
    forall k | 0 <= k < |d| ensures d[k] != '.' {
      assert IsDigit(d[k]);
    }
    FirstOfIs(tail, '.', |d|);
  }

  /** The pairs taken by one of the devices 1..n. */
  ghost function Claimed(inventory: Inventory, m: Pairs, n: nat): set<nat> {
    set p | 0 <= p < |m| && exists i :: 1 <= i <= n && Feeds(inventory, DevicePrefix(i), m[p].0)
  }

  /** The number of entries of the devices 1..n together. */
  function EntryCount(inventory: Inventory, m: Pairs, n: nat): nat {
    if n == 0 then 0
    else EntryCount(inventory, m, n - 1) + |DeviceEntries(inventory, m, DevicePrefix(n))|
  }

  ghost function Elements(r: seq<nat>): set<nat> {
    set i | i in r
  }

  lemma {:induction false} DistinctCount(r: seq<nat>)
    requires forall a, b :: 0 <= a < b < |r| ==> r[a] < r[b]
    ensures |Elements(r)| == |r|
  {
    if r != [] {
      var l := |r| - 1;
      DistinctCount(r[..l]);
      assert r[l] !in Elements(r[..l]);
      assert Elements(r) == Elements(r[..l]) + {r[l]};
    }
  }

  /** No pair feeds two devices. */
  lemma DevicesApart(inventory: Inventory, m: Pairs, i: nat, j: nat, p: nat)
    requires p in Fed(inventory, m, DevicePrefix(i)) && p in Fed(inventory, m, DevicePrefix(j))
    ensures i == j
  {
    PrefixesApart(i, j, m[p].0);
  }

  lemma ClaimedStep(inventory: Inventory, m: Pairs, n: nat)
    requires n > 0
    ensures var at := Elements(Fed(inventory, m, DevicePrefix(n)));
            Claimed(inventory, m, n) == Claimed(inventory, m, n - 1) + at && Claimed(inventory, m, n - 1) !! at
  {
    var before, at := Claimed(inventory, m, n - 1), Fed(inventory, m, DevicePrefix(n));
    forall p | p in before ensures p !in at {
      var i :| 1 <= i <= n - 1 && Feeds(inventory, DevicePrefix(i), m[p].0);
      if p in at {
        DevicesApart(inventory, m, i, n, p);
      }
    }
    forall p | p in Claimed(inventory, m, n) ensures p in before || p in at {
      var i :| 1 <= i <= n && Feeds(inventory, DevicePrefix(i), m[p].0);
      assert i <= n - 1 ==> p in before;
    }
  }

  /** The daisy-chain split is a partition: the devices together have exactly one entry for every
      pair that one of them takes. */
  lemma {:induction false} SplitIsPartition(inventory: Inventory, m: Pairs, n: nat)
    ensures EntryCount(inventory, m, n) == |Claimed(inventory, m, n)|
  {
    if n == 0 {
      assert Claimed(inventory, m, 0) == {};
    } else {
      SplitIsPartition(inventory, m, n - 1);
      ClaimedStep(inventory, m, n);
      EntriesAreFed(inventory, m, DevicePrefix(n));
      DistinctCount(Fed(inventory, m, DevicePrefix(n)));
    }
  }
}
