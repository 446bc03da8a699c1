/** `std::map<std::string, std::string>`: pairs sorted by key. */
module OrderedMap {
  import opened Wrappers
  import opened Order

  type Pairs = seq<(string, string)>

  ghost predicate Sorted(m: Pairs) {
    forall i, j :: 0 <= i < j < |m| ==> Before(m[i].0, m[j].0)
  }

  /** `map::find`. */
  function Get(m: Pairs, key: string): Option<string> {
    if m == [] then None else if m[0].0 == key then Some(m[0].1) else Get(m[1..], key)
  }

  /** `map::emplace`: an existing key keeps its value. */
  function Emplace(m: Pairs, key: string, value: string): Pairs {
    if m == [] || Before(key, m[0].0) then [(key, value)] + m
    else if m[0].0 == key then m
    else [m[0]] + Emplace(m[1..], key, value)
  }

  lemma {:induction false} GetAbsent(m: Pairs, key: string)
    requires forall i :: 0 <= i < |m| ==> m[i].0 != key
    ensures Get(m, key) == None
  {
    if m != [] {
      GetAbsent(m[1..], key);
    }
  }

  lemma AbsentAfter(m: Pairs, key: string)
    requires Sorted(m) && m != [] && (Before(key, m[0].0) || key == m[0].0)
    ensures Before(key, m[0].0) ==> Get(m, key) == None
    ensures key == m[0].0 ==> Get(m[1..], key) == None
  {
    forall i | 0 <= i < |m| ensures (Before(key, m[0].0) || i > 0) ==> m[i].0 != key {
      if i > 0 {
        assert Before(m[0].0, m[i].0);
        if Before(key, m[0].0) {
          BeforeTrans(key, m[0].0, m[i].0);
        }
      }
      BeforeIrreflexive(key);
    }
    if Before(key, m[0].0) {
      GetAbsent(m, key);
    } else {
      GetAbsent(m[1..], key);
    }
  }

  /** What `emplace` does to the map: it adds the key if it is absent and changes no value. */
  lemma {:induction false} EmplaceGet(m: Pairs, key: string, value: string, k: string)
    requires Sorted(m)
    ensures Get(Emplace(m, key, value), k) ==
            if k == key && Get(m, key) == None then Some(value) else Get(m, k)
  {
    if m == [] {
    } else if Before(key, m[0].0) {
      AbsentAfter(m, key);
      assert ([(key, value)] + m)[1..] == m;
    } else if m[0].0 != key {
      EmplaceGet(m[1..], key, value, k);
    }
  }

  lemma {:induction false} EmplaceSorted(m: Pairs, key: string, value: string)
    requires Sorted(m)
    ensures Sorted(Emplace(m, key, value))
    ensures forall p :: p in Emplace(m, key, value) ==> p in m || p == (key, value)
  {
    if m == [] {
    } else if Before(key, m[0].0) {
      forall i | 0 < i < |m| ensures Before(key, m[i].0) {
        BeforeTrans(key, m[0].0, m[i].0);
      }
    } else if m[0].0 != key {
      BeforeTotal(key, m[0].0);
      EmplaceSorted(m[1..], key, value);
      var rest := Emplace(m[1..], key, value);
      forall j | 0 <= j < |rest| ensures Before(m[0].0, rest[j].0) {
        assert rest[j] in rest;
        if rest[j] in m[1..] {
          var i :| 0 <= i < |m| - 1 && m[1..][i] == rest[j];
          assert Before(m[0].0, m[i + 1].0);
        }
      }
    }
  }

  /** A key behind all others goes to the end. */
  lemma {:induction false} EmplaceLast(m: Pairs, key: string, value: string)
    requires forall i :: 0 <= i < |m| ==> Before(m[i].0, key)
    ensures Emplace(m, key, value) == m + [(key, value)]
  {
    if m != [] {
      BeforeIrreflexive(key);
      if Before(key, m[0].0) {
        BeforeTrans(key, m[0].0, key);
      }
      EmplaceLast(m[1..], key, value);
    }
  }

  /** A lookup finds exactly the pairs of the map. */
  lemma {:induction false} GetMeans(m: Pairs, key: string, value: string)
    requires Sorted(m)
    ensures Get(m, key) == Some(value) <==> (key, value) in m
  {
    if m != [] {
      GetMeans(m[1..], key, value);
      assert m == [m[0]] + m[1..];
      if m[0].0 == key {
        AbsentAfter(m, key);
      }
    }
  }
}
