/** The open elements.  While a document is read they are the nodes on the right edge of the tree: the
    root, its last child, that node's last child, and so on down to the parser's cursor.  `k` counts
    how many elements are open. */
module NeonSpine {
  import opened Wrappers
  import opened NeonTree

  ghost predicate Spine(n: NeonNode, k: nat) {
    k == 0 || (n.children != [] && Spine(n.children[|n.children| - 1], k - 1))
  }

  ghost function Tip(n: NeonNode, k: nat): NeonNode
    requires Spine(n, k)
  {
    if k == 0 then n else Tip(n.children[|n.children| - 1], k - 1)
  }

  /** Where the open elements live and what they are called, outermost first. */
  ghost function Path(n: NeonNode, k: nat): seq<(Addr, string)>
    requires Spine(n, k)
  {
    [(n.at, n.name)] + if k == 0 then [] else Path(n.children[|n.children| - 1], k - 1)
  }

  /** The tree after the node at depth k was edited. */
  ghost function EditTip(n: NeonNode, k: nat, e: Edit): NeonNode
    requires Spine(n, k)
  {
    var m := |n.children|;
    if k == 0 then Apply(e, n)
    else n.(children := n.children[..m - 1] + [EditTip(n.children[m - 1], k - 1, e)])
  }

  /** The tree after the vector of the node at depth k got one more element. */
  ghost function Attach(grows: Growth, n: NeonNode, next: Addr, k: nat, name: string, value: string): NeonNode
    requires Spine(n, k)
  {
    var m := |n.children|;
    if k == 0 then
      n.(children := Grown(grows, n.children, next) + [NeonNode(next + m, name, value, [], Some(n.at))])
    else
      n.(children := n.children[..m - 1] + [Attach(grows, n.children[m - 1], next, k - 1, name, value)])
  }

  // ---------- the cursor reaches the tip ----------

  lemma {:induction false} TipHas(n: NeonNode, k: nat)
    requires Spine(n, k)
    ensures Has(n, Tip(n, k)) && Lives(n, Tip(n, k).at)
  {
    if k > 0 {
      TipHas(n.children[|n.children| - 1], k - 1);
    }
    HasLives(n, Tip(n, k));
  }

  lemma {:induction false} PathTip(n: NeonNode, k: nat)
    requires Spine(n, k)
    ensures |Path(n, k)| == k + 1 && Path(n, k)[k] == (Tip(n, k).at, Tip(n, k).name)
    ensures k > 0 ==> Spine(n, k - 1) && Path(n, k) == Path(n, k - 1) + [(Tip(n, k).at, Tip(n, k).name)]
  {
    if k > 0 {
      PathTip(n.children[|n.children| - 1], k - 1);
    }
  }

  lemma {:induction false} SpineUp(n: NeonNode, k: nat)
    requires Spine(n, k + 1)
    ensures Spine(n, k) && Tip(n, k).children != []
    ensures Tip(n, k + 1) == Tip(n, k).children[|Tip(n, k).children| - 1]
  {
    if k > 0 {
      SpineUp(n.children[|n.children| - 1], k - 1);
    }
  }

  /** A write through the cursor edits the tip and nothing else. */
  lemma {:induction false} WriteReachesTip(n: NeonNode, k: nat, e: Edit)
    requires Spine(n, k) && Distinct(n)
    ensures Write(n, Tip(n, k).at, e) == EditTip(n, k, e)
  {
    if k > 0 {
      var t, m := Tip(n, k), |n.children|;
      TipHas(n.children[m - 1], k - 1);
      WriteReachesTip(n.children[m - 1], k - 1, e);
      forall i | 0 <= i < m - 1 ensures Write(n.children[i], t.at, e) == n.children[i] {
        assert Lives(n.children[m - 1], t.at);
        WriteDead(n.children[i], t.at, e);
      }
    }
  }

  /** `emplace_back` through the cursor followed by the writes through the reference it returned. */
  lemma {:induction false} AttachIsWrites(grows: Growth, n: NeonNode, next: Addr, k: nat, name: string, value: string)
    requires Spine(n, k) && Distinct(n) && Below(n, next)
    ensures var t := Tip(n, k);
            Attach(grows, n, next, k, name, value) ==
            Write(Write(n, t.at, Append(grows, next)), next + |t.children|, Fill(name, value, Some(t.at)))
  {
    WriteReachesTip(n, k, Append(grows, next));
    FillNewest(grows, n, next, k, name, value);
  }

  lemma {:induction false} FillNewest(grows: Growth, n: NeonNode, next: Addr, k: nat, name: string, value: string)
    requires Spine(n, k) && Distinct(n) && Below(n, next)
    ensures var t := Tip(n, k);
            Attach(grows, n, next, k, name, value) ==
            Write(EditTip(n, k, Append(grows, next)), next + |t.children|, Fill(name, value, Some(t.at)))
  {
    var t, m := Tip(n, k), |n.children|;
    var a, f := next + |t.children|, Fill(name, value, Some(t.at));
    var w := EditTip(n, k, Append(grows, next));
    if k == 0 {
      forall i | 0 <= i < m ensures Write(w.children[i], a, f) == w.children[i] {
        FreshWrite(n.children[i], w.children[i], a, f, next);
      }
    } else {
      FillNewest(grows, n.children[m - 1], next, k - 1, name, value);
      forall i | 0 <= i < m - 1 ensures Write(n.children[i], a, f) == n.children[i] {
        FreshWrite(n.children[i], n.children[i], a, f, next);
      }
    }
    assert Write(w, a, f).children == Attach(grows, n, next, k, name, value).children;
  }

  /** Moved or not, an old node is not reached through the newest address. */
  lemma {:induction false} FreshWrite(n: NeonNode, moved: NeonNode, a: Addr, e: Edit, next: Addr)
    requires Below(n, next) && a >= next
    requires moved == n.(at := moved.at) && moved.at != a
    ensures Write(moved, a, e) == moved
  {
    forall i | 0 <= i < |n.children| ensures !Lives(n.children[i], a) {
      if Lives(n.children[i], a) {
        LivesBelow(n.children[i], next, a);
      }
    }
    WriteDead(moved, a, e);
  }

  // ---------- what an append keeps ----------

  lemma {:induction false} AttachSpine(grows: Growth, n: NeonNode, next: Addr, k: nat, name: string, value: string)
    requires Spine(n, k)
    ensures var n' := Attach(grows, n, next, k, name, value);
            && Spine(n', k + 1) && Spine(n', k)
            && n'.at == n.at && n'.parent == n.parent && n'.name == n.name
            && (k > 0 ==> |n'.children| == |n.children|)
            && |Tip(n', k).children| == |Tip(n, k).children| + 1
            && Path(n', k) == Path(n, k) && Tip(n', k).at == Tip(n, k).at
            && Tip(n', k + 1) == NeonNode(next + |Tip(n, k).children|, name, value, [], Some(Tip(n, k).at))
  {
    if k > 0 {
      AttachSpine(grows, n.children[|n.children| - 1], next, k - 1, name, value);
    }
  }

  lemma {:induction false} AttachBelow(grows: Growth, n: NeonNode, next: Addr, k: nat, name: string, value: string)
    requires Spine(n, k) && Below(n, next)
    ensures Below(Attach(grows, n, next, k, name, value), next + |Tip(n, k).children| + 1)
  {
    var m, top := |n.children|, next + |Tip(n, k).children| + 1;
    var n' := Attach(grows, n, next, k, name, value);
    BelowMono(n, next, top);
    if k > 0 {
      AttachBelow(grows, n.children[m - 1], next, k - 1, name, value);
    }
    forall i | 0 <= i < |n'.children| ensures Below(n'.children[i], top) {
      if k == 0 && i < m {
        assert Below(n.children[i], top);
      }
    }
  }

  /** An address in use after an append was in use before and is not one that was moved away, or it
      is new. */
  lemma {:induction false} AttachLives(grows: Growth, n: NeonNode, next: Addr, k: nat,
                                       name: string, value: string, a: Addr)
    requires Spine(n, k) && Distinct(n) && a < next
    requires Lives(Attach(grows, n, next, k, name, value), a)
    ensures Lives(n, a)
    ensures grows(|Tip(n, k).children|) ==> !IsChild(Tip(n, k), a)
  {
    if k == 0 {
      GrownLives(grows, n, next, name, value, a);
    } else {
      var m, n' := |n.children|, Attach(grows, n, next, k, name, value);
      if IsChild(Tip(n, k), a) {
        ChildOfTip(n, k, a);
        ChildOfTip(n.children[m - 1], k - 1, a);
      }
      if n'.at != a {
        var i :| 0 <= i < m && Lives(n'.children[i], a);
        if i == m - 1 {
          AttachLives(grows, n.children[i], next, k - 1, name, value, a);
        }
        assert Lives(n.children[i], a);
      }
    }
  }

  lemma {:induction false} GrownLives(grows: Growth, n: NeonNode, next: Addr, name: string, value: string, a: Addr)
    requires Distinct(n) && a < next && Lives(Attach(grows, n, next, 0, name, value), a)
    ensures Lives(n, a)
    ensures grows(|n.children|) ==> !IsChild(n, a)
  {
    var m, n' := |n.children|, Attach(grows, n, next, 0, name, value);
    if IsChild(n, a) {
      ChildOfTip(n, 0, a);
    }
    if n.at != a {
      var i :| 0 <= i < |n'.children| && Lives(n'.children[i], a);
      MovedLives(n.children[i], n'.children[i], a);
      if grows(m) {
        DeepNotChild(n, i, a);
      }
    }
  }

  /** An address in use strictly below one child is not the address of a child. */
  lemma DeepNotChild(n: NeonNode, i: nat, a: Addr)
    requires Distinct(n) && i < |n.children|
    requires exists j :: 0 <= j < |n.children[i].children| && Lives(n.children[i].children[j], a)
    ensures !IsChild(n, a)
  {
    assert Lives(n.children[i], a);
    forall j | 0 <= j < |n.children| ensures n.children[j].at != a {
      assert Lives(n.children[j], n.children[j].at);
    }
  }

  ghost predicate IsChild(n: NeonNode, a: Addr) {
    exists i :: 0 <= i < |n.children| && n.children[i].at == a
  }

  lemma {:induction false} ChildOfTip(n: NeonNode, k: nat, a: Addr)
    requires Spine(n, k) && Distinct(n) && IsChild(Tip(n, k), a)
    ensures Lives(n, a) && n.at != a
  {
    if k == 0 {
      var i :| 0 <= i < |n.children| && n.children[i].at == a;
      assert Lives(n.children[i], a);
    } else {
      ChildOfTip(n.children[|n.children| - 1], k - 1, a);
    }
  }

  /** Moving a node changes the node's own address and nothing else. */
  lemma {:induction false} MovedLives(n: NeonNode, moved: NeonNode, a: Addr)
    requires moved == n.(at := moved.at) && Lives(moved, a) && (a != moved.at || moved == n)
    ensures Lives(n, a)
    ensures a == n.at || exists i :: 0 <= i < |n.children| && Lives(n.children[i], a)
    ensures a != moved.at ==> exists i :: 0 <= i < |n.children| && Lives(n.children[i], a)
  {}

  lemma {:induction false} MovedDistinct(n: NeonNode, moved: NeonNode, next: Addr)
    requires Distinct(n) && Below(n, next)
    requires moved == n.(at := moved.at) && (moved.at == n.at || moved.at >= next)
    ensures Distinct(moved)
  {
    forall i | 0 <= i < |n.children| ensures !Lives(moved.children[i], moved.at) {
      if Lives(n.children[i], moved.at) {
        LivesBelow(n.children[i], next, moved.at);
      }
    }
  }

  lemma {:induction false} AttachDistinct(grows: Growth, n: NeonNode, next: Addr, k: nat, name: string, value: string)
    requires Spine(n, k) && Distinct(n) && Below(n, next)
    ensures Distinct(Attach(grows, n, next, k, name, value))
  {
    if k == 0 {
      GrownDistinct(grows, n, next, name, value);
    } else {
      var m, n' := |n.children|, Attach(grows, n, next, k, name, value);
      var l := n.children[m - 1];
      AttachDistinct(grows, l, next, k - 1, name, value);
      forall a: Addr | Lives(n'.children[m - 1], a) && a < next ensures Lives(l, a) {
        AttachLives(grows, l, next, k - 1, name, value, a);
      }
      forall i, a: Addr | 0 <= i < m - 1 && Lives(n.children[i], a) ensures a < next {
        LivesBelow(n.children[i], next, a);
      }
    }
  }

  lemma {:induction false} GrownDistinct(grows: Growth, n: NeonNode, next: Addr, name: string, value: string)
    requires Distinct(n) && Below(n, next)
    ensures Distinct(Attach(grows, n, next, 0, name, value))
  {
    var m, n' := |n.children|, Attach(grows, n, next, 0, name, value);
    forall i | 0 <= i < |n'.children| ensures !Lives(n'.children[i], n'.at) && Distinct(n'.children[i]) {
      if i < m {
        MovedDistinct(n.children[i], n'.children[i], next);
        if Lives(n'.children[i], n.at) {
          MovedLives(n.children[i], n'.children[i], n.at);
        }
      }
    }
    forall i, j, a: Addr | 0 <= i < j < |n'.children| && Lives(n'.children[i], a)
      ensures !Lives(n'.children[j], a)
    {
      SiblingsApart(grows, n, next, n'.children, i, j, a);
    }
  }

  lemma {:induction false} SiblingsApart(grows: Growth, n: NeonNode, next: Addr, ns: seq<NeonNode>,
                                         i: nat, j: nat, a: Addr)
    requires Distinct(n) && Below(n, next) && i < j < |ns| == |n.children| + 1
    requires ns == Grown(grows, n.children, next) + [ns[|n.children|]]
    requires ns[|n.children|].children == [] && ns[|n.children|].at == next + |n.children|
    ensures !(Lives(ns[i], a) && Lives(ns[j], a))
  {
    if Lives(ns[i], a) && Lives(ns[j], a) {
      OldOrNew(grows, n, next, ns, i, a);
      if j < |n.children| {
        OldOrNew(grows, n, next, ns, j, a);
      }
    }
  }

  lemma {:induction false} OldOrNew(grows: Growth, n: NeonNode, next: Addr, ns: seq<NeonNode>, i: nat, a: Addr)
    requires Below(n, next) && i < |n.children|
    requires |n.children| <= |ns| && ns[..|n.children|] == Grown(grows, n.children, next)
    requires Lives(ns[i], a)
    ensures (Lives(n.children[i], a) && a < next) || (grows(|n.children|) && a == next + i)
  {
    assert ns[i] == ns[..|n.children|][i];
    if a != ns[i].at || !grows(|n.children|) {
      MovedLives(n.children[i], ns[i], a);
      LivesBelow(n.children[i], next, a);
    }
  }

  // ---------- parent pointers ----------

  /** No address handed out before `next` is in use in root' that was not in use in root. */
  ghost predicate NoRevival(root: NeonNode, root': NeonNode, next: Addr) {
    forall a: Addr :: a < next && Lives(root', a) ==> Lives(root, a)
  }

  /** Pointers that dangled keep dangling, and the others are not concerned, as long as no old address
      comes back to life. */
  lemma {:induction false} ExactMono(root: NeonNode, root': NeonNode, n: NeonNode, firm: bool, grows: Growth,
                                     next: Addr)
    requires Exact(root, n, firm, grows) && Below(n, next)
    requires NoRevival(root, root', next)
    ensures Exact(root', n, firm, grows)
  {
    forall i | 0 <= i < |n.children|
      ensures !firm ==> !Lives(root', n.children[i].parent.value)
      ensures Exact(root', n.children[i], Unmoved(grows, i, |n.children|), grows)
    {
      ExactMono(root, root', n.children[i], Unmoved(grows, i, |n.children|), grows, next);
    }
  }

  /** An append keeps the account of the parent pointers exact, in the whole tree. */
  lemma {:induction false} AttachExact(root: NeonNode, root': NeonNode, grows: Growth, n: NeonNode, next: Addr,
                                       k: nat, name: string, value: string)
    requires Spine(n, k) && Exact(root, n, true, grows) && Below(n, next)
    requires NoRevival(root, root', next)
    requires grows(|Tip(n, k).children|) ==>
               forall a: Addr :: Lives(root', a) ==> !IsChild(Tip(n, k), a)
    ensures Exact(root', Attach(grows, n, next, k, name, value), true, grows)
  {
    if k == 0 {
      GrownExact(root, root', grows, n, next, name, value);
    } else {
      var l := n.children[|n.children| - 1];
      assert Unmoved(grows, |n.children| - 1, |n.children|);
      assert Exact(root, l, true, grows);
      AttachExact(root, root', grows, l, next, k - 1, name, value);
      LastExact(root, root', grows, n, next, k, name, value);
    }
  }

  /** The account of a node whose last child alone was changed below. */
  lemma LastExact(root: NeonNode, root': NeonNode, grows: Growth, n: NeonNode, next: Addr,
                  k: nat, name: string, value: string)
    requires k > 0 && Spine(n, k) && Exact(root, n, true, grows) && Below(n, next)
    requires NoRevival(root, root', next)
    requires Exact(root', Attach(grows, n.children[|n.children| - 1], next, k - 1, name, value), true, grows)
    ensures Exact(root', Attach(grows, n, next, k, name, value), true, grows)
  {
    var m, n' := |n.children|, Attach(grows, n, next, k, name, value);
    AttachSpine(grows, n.children[m - 1], next, k - 1, name, value);
    forall i | 0 <= i < m
      ensures n'.children[i].parent == Some(n.at)
      ensures Exact(root', n'.children[i], Unmoved(grows, i, m), grows)
    {
      if i == m - 1 {
        assert Unmoved(grows, i, m);
      } else {
        ExactMono(root, root', n.children[i], Unmoved(grows, i, m), grows, next);
      }
    }
  }

  lemma GrownExact(root: NeonNode, root': NeonNode, grows: Growth, n: NeonNode, next: Addr, name: string, value: string)
    requires Exact(root, n, true, grows) && Below(n, next)
    requires NoRevival(root, root', next)
    requires grows(|n.children|) ==> forall a: Addr :: Lives(root', a) ==> !IsChild(n, a)
    ensures Exact(root', Attach(grows, n, next, 0, name, value), true, grows)
  {
    var m, n' := |n.children|, Attach(grows, n, next, 0, name, value);
    forall i | 0 <= i <= m
      ensures n'.children[i].parent == Some(n.at)
      ensures Exact(root', n'.children[i], Unmoved(grows, i, m + 1), grows)
    {
      if i < m {
        AttachExactMoved(root, root', grows, n, next, i, n'.children[i]);
      }
    }
  }

  lemma {:induction false} AttachExactMoved(root: NeonNode, root': NeonNode, grows: Growth, n: NeonNode, next: Addr,
                                            i: nat, c: NeonNode)
    requires Exact(root, n, true, grows) && Below(n, next)
    requires NoRevival(root, root', next)
    requires grows(|n.children|) ==> forall a: Addr :: Lives(root', a) ==> !IsChild(n, a)
    requires i < |n.children| && c == Grown(grows, n.children, next)[i]
    ensures c.parent == Some(n.at)
    ensures Exact(root', c, Unmoved(grows, i, |n.children| + 1), grows)
  {
    var m, o := |n.children|, n.children[i];
    assert Exact(root, o, Unmoved(grows, i, m), grows);
    assert Unmoved(grows, i, m + 1) <==> Unmoved(grows, i, m) && !grows(m);
    ExactMono(root, root', o, Unmoved(grows, i, m), grows, next);
    if grows(m) {
      forall j | 0 <= j < |c.children|
        ensures !Lives(root', c.children[j].parent.value)
        ensures Exact(root', c.children[j], Unmoved(grows, j, |c.children|), grows)
      {
        assert !Lives(root', o.at);
        assert Exact(root', o.children[j], Unmoved(grows, j, |o.children|), grows);
      }
    }
  }
}
