/** Mapping of driver keys to inventory keys, with indexed templates. */
module Mapper {
  import opened Wrappers
  import opened Text

  /** The inventory part of the mapping file. */
  type Inventory = map<string, string>

  /** `Mappping::map`: the empty text stands for "not mapped". */
  function Lookup(inventory: Inventory, key: string): string {
    if key in inventory then inventory[key] else ""
  }

  // ---------- the expression (.*\.)(\d+)(\..*) ----------

  /** Where the second group is. */
  datatype Span = Nowhere | At(begin: nat, end: nat)

  /** What the three groups hold. */
  datatype Groups = NoMatch | Groups(before: string, num: string, behind: string)

  /** One way to match: the groups are key[..a], key[a..b] and key[b..]. */
  predicate IsSplit(key: string, a: nat, b: nat) {
    && 0 < a < b < |key|
    && key[a - 1] == '.' && key[b] == '.'
    && forall i :: a <= i < b ==> IsDigit(key[i])
  }

  predicate Within(key: string, s: Span) {
    s.At? ==> s.begin <= s.end <= |key|
  }

  /** The end of the digits that begin at a. */
  function DigitRun(key: string, a: nat): (b: nat)
    requires a <= |key|
    ensures a <= b <= |key| && (forall i :: a <= i < b ==> IsDigit(key[i]))
    ensures b < |key| ==> !IsDigit(key[b])
    decreases |key| - a
  {
    if a < |key| && IsDigit(key[a]) then DigitRun(key, a + 1) else a
  }

  /** The matcher gives characters of the first group back until the rest fits. */
  function Backtrack(key: string, a: nat): (r: Span)
    requires a <= |key|
    ensures Within(key, r)
  {
    if a == 0 then Nowhere
    else
      var b := DigitRun(key, a);
      if key[a - 1] == '.' && a < b < |key| && key[b] == '.' then At(a, b) else Backtrack(key, a - 1)
  }

  /** No way to match has a longer first group. */
  lemma {:induction false} BacktrackLongest(key: string, a: nat, x: nat, y: nat)
    requires x <= a <= |key| && IsSplit(key, x, y)
    ensures var r := Backtrack(key, a); r.At? && x <= r.begin
  {
    SplitEnds(key, x, y);
    if x < a {
      BacktrackLongest(key, a - 1, x, y);
    }
  }

  lemma {:induction false} BacktrackSplits(key: string, a: nat)
    requires a <= |key|
    ensures var r := Backtrack(key, a); r.At? ==> r.begin <= a && IsSplit(key, r.begin, r.end)
  {
    if a > 0 {
      BacktrackSplits(key, a - 1);
    }
  }

  /** The second group ends where the digits end. */
  lemma SplitEnds(key: string, a: nat, b: nat)
    requires IsSplit(key, a, b)
    ensures b == DigitRun(key, a)
  {}

  /** The groups of a split. */
  function Cut(key: string, s: Span): Groups
    requires Within(key, s)
  {
    match s
    case Nowhere => NoMatch
    case At(a, b) => Groups(key[..a], key[a..b], key[b..])
  }

  function Match(key: string): Groups {
    if NoBreak(key) then Cut(key, Backtrack(key, |key|)) else NoMatch
  }

  /** `std::regex_replace` of every '#'. */
  function Subst(t: string, num: string): string {
    if t == "" then "" else (if t[0] == '#' then num else [t[0]]) + Subst(t[1..], num)
  }

  function MapKey(inventory: Inventory, key: string): string {
    match Match(key)
    case NoMatch => Lookup(inventory, key)
    case Groups(before, num, behind) => ByTemplate(inventory, key, before + "#" + behind, num)
  }

  /** The mapping of the template with the index put back, or else of the key itself. */
  function ByTemplate(inventory: Inventory, key: string, template: string, num: string): string {
    var mapped := Lookup(inventory, template);
    if mapped != "" then Subst(mapped, num) else Lookup(inventory, key)
  }

  // ---------- segments: the reference ----------

  /** The pieces of the key between its dots. */
  function Segments(key: string): seq<string> {
    SegmentsFrom(key, 0)
  }

  function SegmentsFrom(key: string, from: nat): (r: seq<string>)
    requires from <= |key|
    ensures r != []
    decreases |key| - from
  {
    var f := FirstFrom(key, '.', from);
    if f == |key| then [key[from..]] else [key[from..f]] + SegmentsFrom(key, f + 1)
  }

  function Join(segs: seq<string>): string
    requires segs != []
  {
    if |segs| == 1 then segs[0] else segs[0] + "." + Join(segs[1..])
  }

  ghost predicate DotFree(segs: seq<string>) {
    forall i :: 0 <= i < |segs| ==> '.' !in segs[i]
  }

  /** The last segment made of digits that is neither the first nor the last one of the key. */
  function LastIndex(segs: seq<string>): (r: Option<nat>)
    ensures r.Some? ==> 0 < r.value < |segs| - 1
  {
    if |segs| < 3 then None
    else
      match LastIndex(segs[1..])
      case Some(j) => Some(j + 1)
      case None => if IsNumeral(segs[1]) then Some(1) else None
  }

  lemma {:induction false} LastIndexMeans(segs: seq<string>)
    ensures var r := LastIndex(segs);
            && (r.Some? ==> IsNumeral(segs[r.value]) && forall i :: r.value < i < |segs| - 1 ==> !IsNumeral(segs[i]))
            && (r.None? ==> forall i :: 0 < i < |segs| - 1 ==> !IsNumeral(segs[i]))
  {
    if |segs| >= 3 {
      LastIndexMeans(segs[1..]);
      assert forall i :: 1 < i < |segs| - 1 ==> segs[i] == segs[1..][i - 1];
    }
  }

  lemma {:induction false} SegmentsOfJoin(key: string, from: nat, segs: seq<string>)
    requires segs != [] && DotFree(segs) && from <= |key| && key[from..] == Join(segs)
    ensures SegmentsFrom(key, from) == segs
    decreases |segs|
  {
    if |segs| == 1 {
      LastPiece(key, from, segs[0]);
      assert segs == [segs[0]];
    } else {
      var l := segs[0];
      FirstPiece(key, from, l, Join(segs[1..]));
      SegmentsOfJoin(key, from + |l| + 1, segs[1..]);
      Pieces(key, from, segs);
    }
  }

  lemma Pieces(key: string, from: nat, segs: seq<string>)
    requires from <= |key| && |segs| > 1 && FirstFrom(key, '.', from) == from + |segs[0]| < |key|
    requires key[from..from + |segs[0]|] == segs[0] && SegmentsFrom(key, from + |segs[0]| + 1) == segs[1..]
    ensures SegmentsFrom(key, from) == segs
  {
    SegmentsStep(key, from);
    assert segs == [segs[0]] + segs[1..];
  }

  lemma LastPiece(key: string, from: nat, l: string)
    requires from <= |key| && key[from..] == l && '.' !in l
    ensures SegmentsFrom(key, from) == [l]
  {}

  lemma FirstPiece(key: string, from: nat, l: string, tail: string)
    requires from <= |key| && key[from..] == l + "." + tail && '.' !in l
    ensures var f := from + |l|;
            f < |key| && FirstFrom(key, '.', from) == f && key[from..f] == l && key[f + 1..] == tail
  {
    assert forall k :: from <= k < |key| ==> key[k] == (l + "." + tail)[k - from];
    FirstFromIs(key, '.', from, from + |l|);
  }

  /** Joining dot-free pieces and splitting again gives the pieces back, and the other way round. */
  lemma SegmentsJoin(segs: seq<string>)
    requires segs != [] && DotFree(segs)
    ensures Segments(Join(segs)) == segs
  {
    assert Join(segs)[0..] == Join(segs);
    SegmentsOfJoin(Join(segs), 0, segs);
  }

  /** The definition, one dot at a time. */
  lemma SegmentsStep(key: string, from: nat)
    requires from <= |key|
    ensures var f := FirstFrom(key, '.', from);
            SegmentsFrom(key, from) == if f == |key| then [key[from..]] else [key[from..f]] + SegmentsFrom(key, f + 1)
  {}

  lemma JoinCons(l: string, segs: seq<string>)
    requires segs != []
    ensures Join([l] + segs) == l + "." + Join(segs)
    ensures '.' !in l && DotFree(segs) ==> DotFree([l] + segs)
  {
    assert ([l] + segs)[1..] == segs;
  }

  lemma SliceDot(key: string, from: nat, f: nat, a: nat)
    requires from <= f < a <= |key| && key[f] == '.'
    ensures key[from..a] == key[from..f] + "." + key[f + 1..a]
  {}

  ghost predicate Rejoins(key: string, from: nat)
    requires from <= |key|
  {
    DotFree(SegmentsFrom(key, from)) && Join(SegmentsFrom(key, from)) == key[from..]
  }

  lemma {:induction false} JoinSegmentsFrom(key: string, from: nat)
    requires from <= |key|
    ensures Rejoins(key, from)
    decreases |key| - from
  {
    var f := FirstFrom(key, '.', from);
    if f == |key| {
      JoinLast(key, from);
    } else {
      JoinSegmentsFrom(key, f + 1);
      JoinNext(key, from, f);
    }
  }

  lemma JoinLast(key: string, from: nat)
    requires from <= |key| && FirstFrom(key, '.', from) == |key|
    ensures Rejoins(key, from)
  {
    SegmentsStep(key, from);
    assert '.' !in key[from..];
  }

  lemma JoinNext(key: string, from: nat, f: nat)
    requires from <= f < |key| && FirstFrom(key, '.', from) == f && Rejoins(key, f + 1)
    ensures Rejoins(key, from)
  {
    var l, rest := key[from..f], SegmentsFrom(key, f + 1);
    assert SegmentsFrom(key, from) == [l] + rest by { SegmentsStep(key, from); }
    assert '.' !in l;
    JoinCons(l, rest);
    assert key[from..] == l + "." + key[f + 1..] by { SliceDot(key, from, f, |key|); }
  }

  lemma JoinSegments(key: string)
    ensures DotFree(Segments(key)) && Join(Segments(key)) == key
  {
    JoinSegmentsFrom(key, 0);
  }

  /** Another segment in the place of an inner one. */
  lemma {:induction false} JoinReplace(segs: seq<string>, j: nat, t: string)
    requires 0 < j < |segs| - 1
    ensures Join(segs[j := t]) == (Join(segs[..j]) + ".") + t + ("." + Join(segs[j + 1..]))
  {
    var segs', l := segs[j := t], segs[0];
    var tail := "." + Join(segs[j + 1..]);
    if j == 1 {
      assert segs[..1] == [l] && segs'[1..][0] == t && segs'[1..][1..] == segs[2..];
      assert l + "." + (t + tail) == (l + ".") + t + tail;
    } else {
      JoinReplace(segs[1..], j - 1, t);
      var head := Join(segs[1..][..j - 1]) + ".";
      assert segs'[1..] == segs[1..][j - 1 := t] && segs[1..][j..] == segs[j + 1..];
      assert segs[..j][0] == l && segs[..j][1..] == segs[1..][..j - 1];
      assert l + "." + (head + t + tail) == (l + "." + head) + t + tail;
    }
  }

  // ---------- the matcher finds the last inner segment of digits ----------

  predicate AreDigits(key: string, a: nat, b: nat)
    requires b <= |key|
  {
    a < b && forall i :: a <= i < b ==> IsDigit(key[i])
  }

  /** The last split behind `from`, looked for from the left. */
  function LastSplit(key: string, from: nat): (r: Span)
    requires from <= |key|
    ensures r.At? ==> from < r.begin < r.end < |key|
    decreases |key| - from
  {
    var f := FirstFrom(key, '.', from);
    if f == |key| then Nowhere
    else
      var e := FirstFrom(key, '.', f + 1);
      match LastSplit(key, f + 1)
      case At(a, b) => At(a, b)
      case Nowhere => if e < |key| && AreDigits(key, f + 1, e) then At(f + 1, e) else Nowhere
  }

  lemma {:induction false} LastSplitSplits(key: string, from: nat)
    requires from <= |key|
    ensures var r := LastSplit(key, from); r.At? ==> IsSplit(key, r.begin, r.end)
    decreases |key| - from
  {
    var f := FirstFrom(key, '.', from);
    if f < |key| {
      LastSplitSplits(key, f + 1);
      var e := FirstFrom(key, '.', f + 1);
      if e < |key| && AreDigits(key, f + 1, e) {
        assert IsSplit(key, f + 1, e);
      }
    }
  }

  /** No split is later. */
  lemma {:induction false} LastSplitLast(key: string, from: nat, x: nat, y: nat)
    requires from < x && IsSplit(key, x, y)
    ensures LastSplit(key, from).At? && x <= LastSplit(key, from).begin
    decreases |key| - from
  {
    var o := FirstFrom(key, '.', from) + 1;
    assert o <= x;
    if o < x {
      LastSplitLast(key, o, x, y);
    } else {
      FirstFromIs(key, '.', x, y);
    }
  }

  lemma BacktrackIsLastSplit(key: string)
    ensures Backtrack(key, |key|) == LastSplit(key, 0)
  {
    BacktrackSplits(key, |key|);
    LastSplitSplits(key, 0);
    SameSplit(key, Backtrack(key, |key|), LastSplit(key, 0));
  }

  lemma SameSplit(key: string, r: Span, q: Span)
    requires r == Backtrack(key, |key|) && (r.At? ==> IsSplit(key, r.begin, r.end))
    requires q == LastSplit(key, 0) && (q.At? ==> IsSplit(key, q.begin, q.end))
    ensures r == q
  {
    if r.At? {
      LastSplitLast(key, 0, r.begin, r.end);
      SplitEnds(key, r.begin, r.end);
    }
    if q.At? {
      BacktrackLongest(key, |key|, q.begin, q.end);
      SplitEnds(key, q.begin, q.end);
    }
  }

  /** The last inner segment of digits, with what is before and behind it. */
  function LastIndexGroups(segs: seq<string>): Groups {
    match LastIndex(segs)
    case None => NoMatch
    case Some(j) => Groups(Join(segs[..j]) + ".", segs[j], "." + Join(segs[j + 1..]))
  }

  /** The groups of a split, with the first group taken from `from` only. */
  function CutFrom(key: string, from: nat, s: Span): Groups
    requires s.At? ==> from <= s.begin <= s.end <= |key|
  {
    match s
    case Nowhere => NoMatch
    case At(a, b) => Groups(key[from..a], key[a..b], key[b..])
  }

  /** The definition, one dot at a time. */
  lemma LastSplitStep(key: string, from: nat)
    requires from <= |key| && FirstFrom(key, '.', from) < |key|
    ensures var f := FirstFrom(key, '.', from);
            var r, e := LastSplit(key, f + 1), FirstFrom(key, '.', f + 1);
            LastSplit(key, from) ==
            if r.At? then r else if e < |key| && AreDigits(key, f + 1, e) then At(f + 1, e) else Nowhere
  {}

  ghost predicate SameGroups(key: string, from: nat)
    requires from <= |key|
  {
    CutFrom(key, from, LastSplit(key, from)) == LastIndexGroups(SegmentsFrom(key, from))
  }

  lemma {:induction false} LastSplitGroups(key: string, from: nat)
    requires from <= |key|
    ensures SameGroups(key, from)
    decreases |key| - from
  {
    var f := FirstFrom(key, '.', from);
    if f == |key| {
      NoDotGroups(key, from);
    } else {
      LastSplitGroups(key, f + 1);
      DotGroups(key, from, f);
    }
  }

  lemma NoDotGroups(key: string, from: nat)
    requires from <= |key| && FirstFrom(key, '.', from) == |key|
    ensures SameGroups(key, from)
  {
    SegmentsStep(key, from);
    OneSegment(key[from..]);
  }

  lemma DotGroups(key: string, from: nat, f: nat)
    requires from <= f < |key| && FirstFrom(key, '.', from) == f && SameGroups(key, f + 1)
    ensures SameGroups(key, from)
  {
    var q, segs := LastSplit(key, from), SegmentsFrom(key, from);
    assert segs == [key[from..f]] + SegmentsFrom(key, f + 1) by { SegmentsStep(key, from); }
    LastSplitStep(key, from);
    GroupsStep(key, from, f, LastSplit(key, f + 1), q);
  }

  lemma OneSegment(s: string)
    ensures LastIndexGroups([s]) == NoMatch
  {}

  lemma GroupsStep(key: string, from: nat, f: nat, r: Span, q: Span)
    requires from <= f < |key| && key[f] == '.' && (r.At? ==> f + 1 <= r.begin <= r.end <= |key|)
    requires CutFrom(key, f + 1, r) == LastIndexGroups(SegmentsFrom(key, f + 1))
    requires var e := FirstFrom(key, '.', f + 1);
             q == if r.At? then r else if e < |key| && AreDigits(key, f + 1, e) then At(f + 1, e) else Nowhere
    ensures CutFrom(key, from, q) == LastIndexGroups([key[from..f]] + SegmentsFrom(key, f + 1))
  {
    var segs := SegmentsFrom(key, f + 1);
    if r.At? {
      GroupsLater(key, from, f, segs, r);
    } else {
      GroupsSecond(key, from, f, segs, FirstFrom(key, '.', f + 1));
    }
  }

  lemma GroupsLater(key: string, from: nat, f: nat, segs: seq<string>, r: Span)
    requires from <= f < |key| && key[f] == '.' && segs != []
    requires r.At? && f + 1 <= r.begin <= r.end <= |key|
    requires CutFrom(key, f + 1, r) == LastIndexGroups(segs)
    ensures CutFrom(key, from, r) == LastIndexGroups([key[from..f]] + segs)
  {
    GroupsCons(key[from..f], segs);
    SliceDot(key, from, f, r.begin);
  }

  lemma GroupsSecond(key: string, from: nat, f: nat, segs: seq<string>, e: nat)
    requires from <= f < |key| && key[f] == '.'
    requires segs == SegmentsFrom(key, f + 1) && LastIndexGroups(segs) == NoMatch
    requires e == FirstFrom(key, '.', f + 1)
    ensures LastIndexGroups([key[from..f]] + segs) ==
            if e < |key| && AreDigits(key, f + 1, e) then Groups(key[from..f + 1], key[f + 1..e], key[e..]) else NoMatch
  {
    GroupsCons(key[from..f], segs);
    assert key[from..f + 1] == key[from..f] + "." by { SliceDot(key, from, f, f + 1); }
    if e < |key| {
      SecondGroups(key, f + 1, e);
    }
  }

  /** The groups after one more segment was put in front. */
  lemma GroupsCons(l: string, segs: seq<string>)
    requires segs != []
    ensures LastIndexGroups([l] + segs) ==
            match LastIndexGroups(segs)
            case Groups(before, num, behind) => Groups(l + "." + before, num, behind)
            case NoMatch =>
              if |segs| > 1 && IsNumeral(segs[0]) then Groups(l + ".", segs[0], "." + Join(segs[1..])) else NoMatch
  {
    var all := [l] + segs;
    assert all[1..] == segs;
    match LastIndex(segs)
    case Some(j) =>
      assert all[..j + 1][0] == l && all[..j + 1][1..] == segs[..j] && all[j + 2..] == segs[j + 1..];
      assert l + "." + Join(segs[..j]) + "." == l + "." + (Join(segs[..j]) + ".");
    case None =>
      assert all[..1] == [l] && all[2..] == segs[1..];
  }

  lemma SecondGroups(key: string, o: nat, e: nat)
    requires o <= |key| && e == FirstFrom(key, '.', o) < |key|
    ensures var segs := SegmentsFrom(key, o);
            && |segs| > 1 && segs[0] == key[o..e] && key[e..] == "." + Join(segs[1..])
            && (IsNumeral(segs[0]) <==> AreDigits(key, o, e))
  {
    var l, rest := key[o..e], SegmentsFrom(key, e + 1);
    assert SegmentsFrom(key, o) == [l] + rest by { SegmentsStep(key, o); }
    assert Join(rest) == key[e + 1..] by { JoinSegmentsFrom(key, e + 1); }
    assert ([l] + rest)[0] == l && ([l] + rest)[1..] == rest;
    SliceDigits(key, o, e);
  }

  lemma SliceDigits(key: string, o: nat, e: nat)
    requires o <= e <= |key|
    ensures IsNumeral(key[o..e]) <==> AreDigits(key, o, e)
  {
    assert forall i :: o <= i < e ==> key[i] == key[o..e][i - o];
  }

  /** What the expression matches: exactly the last inner segment of digits. */
  lemma MatchBySegments(key: string)
    ensures Match(key) == if NoBreak(key) then LastIndexGroups(Segments(key)) else NoMatch
  {
    BacktrackIsLastSplit(key);
    LastSplitGroups(key, 0);
    assert LastSplit(key, 0).At? ==> key[0..LastSplit(key, 0).begin] == key[..LastSplit(key, 0).begin];
  }

  /** `mapKey`, segment by segment: a mapped template gets its index back; otherwise the key is looked up
      as it is, whether it has no index or its template is not mapped. */
  lemma MapKeyBySegments(inventory: Inventory, key: string)
    ensures var segs, plain := Segments(key), if key in inventory then inventory[key] else "";
            match if NoBreak(key) then LastIndex(segs) else None
            case None => MapKey(inventory, key) == plain
            case Some(j) =>
              var template := Join(segs[j := "#"]);
              && (template in inventory && inventory[template] != "" ==>
                    MapKey(inventory, key) == Subst(inventory[template], segs[j]))
              && (template !in inventory || inventory[template] == "" ==> MapKey(inventory, key) == plain)
  {
    MatchBySegments(key);
    var j := LastIndex(Segments(key));
    if j.Some? {
      JoinReplace(Segments(key), j.value, "#");
    }
  }

  // ---------- the index carries over ----------

  lemma {:induction false} SubstCat(a: string, b: string, num: string)
    ensures Subst(a + b, num) == Subst(a, num) + Subst(b, num)
  {
    if a == "" {
      assert a + b == b;
    } else {
      assert (a + b)[0] == a[0] && (a + b)[1..] == a[1..] + b;
      SubstCat(a[1..], b, num);
    }
  }

  lemma {:induction false} SubstPlain(a: string, num: string)
    requires '#' !in a
    ensures Subst(a, num) == a
  {
    if a != "" {
      SubstPlain(a[1..], num);
      assert a == [a[0]] + a[1..];
    }
  }

  /** The number takes the place of every '#', and nothing else changes. */
  lemma SubstMeans(a: string, b: string, num: string)
    requires '#' !in a
    ensures Subst(a, num) == a
    ensures Subst(a + "#" + b, num) == a + num + Subst(b, num)
  {
    SubstPlain(a, num);
    SubstCat(a + "#", b, num);
    SubstCat(a, "#", num);
    assert "#"[1..] == "";
  }

  lemma {:induction false} SubstClears(t: string, num: string)
    requires IsNumeral(num)
    ensures '#' !in Subst(t, num)
  {
    if t != "" {
      SubstClears(t[1..], num);
    }
  }

  /** The number of placeholders. */
  function Holes(t: string): nat {
    if t == "" then 0 else (if t[0] == '#' then 1 else 0) + Holes(t[1..])
  }

  lemma {:induction false} SubstLength(t: string, num: string)
    ensures |Subst(t, num)| == |t| - Holes(t) + Holes(t) * |num|
    ensures Holes(t) <= |t| && (Holes(t) > 0 <==> '#' in t)
  {
    if t != "" {
      SubstLength(t[1..], num);
      var h := Holes(t[1..]);
      assert (1 + h) * |num| == |num| + h * |num|;
    }
  }

  lemma Cancel(h: nat, x: nat, y: nat)
    requires h > 0 && h * x == h * y
    ensures x == y
  {}

  /** A template with a placeholder keeps different indices apart. */
  lemma {:induction false} SubstInjective(t: string, d: string, e: string)
    requires '#' in t && Subst(t, d) == Subst(t, e)
    ensures d == e
  {
    SubstLength(t, d);
    SubstLength(t, e);
    Cancel(Holes(t), |d|, |e|);
    SubstPrefix(t, d, e);
  }

  lemma {:induction false} SubstPrefix(t: string, d: string, e: string)
    requires '#' in t && |d| == |e| && Subst(t, d) == Subst(t, e)
    ensures d == e
  {
    if t[0] == '#' {
      assert d == Subst(t, d)[..|d|] && e == Subst(t, e)[..|d|];
    } else {
      assert Subst(t[1..], d) == Subst(t, d)[1..] && Subst(t[1..], e) == Subst(t, e)[1..];
      SubstPrefix(t[1..], d, e);
    }
  }

  /** Another index in the place of the old one. */
  function Reindex(key: string, d: string): string
    requires LastIndex(Segments(key)).Some?
  {
    Join(Segments(key)[LastIndex(Segments(key)).value := d])
  }

  /** Where the template of a key is mapped, `mapKey` commutes with changing the index: for every
      index the result is the mapped template with the index in all its places. */
  lemma MapKeyEquivariant(inventory: Inventory, key: string, d: string)
    requires NoBreak(key) && LastIndex(Segments(key)).Some? && IsNumeral(d)
    requires Lookup(inventory, Reindex(key, "#")) != ""
    ensures MapKey(inventory, Reindex(key, d)) == Subst(Lookup(inventory, Reindex(key, "#")), d)
    ensures '#' !in MapKey(inventory, Reindex(key, d))
  {
    var segs := Segments(key);
    var j := LastIndex(segs).value;
    var segs' := segs[j := d];
    JoinSegments(key);
    forall i | 0 <= i < |d| ensures d[i] != '.' && d[i] != '\n' && d[i] != '\r' {
      assert IsDigit(d[i]);
    }
    assert DotFree(segs');
    SegmentsJoin(segs');
    LastIndexMeans(segs);
    LastIndexIs(segs', j);
    ReindexNoBreak(key, j, d);
    MapKeyBySegments(inventory, Join(segs'));
    assert segs'[j := "#"] == segs[j := "#"];
    SubstClears(Lookup(inventory, Join(segs[j := "#"])), d);
  }

  lemma LastIndexIs(segs: seq<string>, j: nat)
    requires 0 < j < |segs| - 1 && IsNumeral(segs[j])
    requires forall i :: j < i < |segs| - 1 ==> !IsNumeral(segs[i])
    ensures LastIndex(segs) == Some(j)
  {
    LastIndexMeans(segs);
  }

  lemma ReindexNoBreak(key: string, j: nat, d: string)
    requires NoBreak(key) && NoBreak(d) && 0 < j < |Segments(key)| - 1
    ensures NoBreak(Join(Segments(key)[j := d]))
  {
    var segs := Segments(key);
    JoinSegments(key);
    JoinReplace(segs, j, d);
    JoinReplace(segs, j, segs[j]);
    assert segs[j := segs[j]] == segs;
    NoBreakReplaced(Join(segs[..j]) + ".", segs[j], d, "." + Join(segs[j + 1..]));
  }

  lemma NoBreakReplaced(x: string, y: string, z: string, w: string)
    requires NoBreak(x + y + w) && NoBreak(z)
    ensures NoBreak(x + z + w)
  {}

  // ---------- the mapping file: JSON with comment lines ----------

  predicate IsComment(line: string) {
    var tr := Trim(line);
    "//" <= tr || "/*" <= tr
  }

  /** The line begins with the comment sign, possibly behind white space. */
  ghost predicate CommentAt(line: string, i: nat) {
    i <= |line| && Blank(line[..i]) && ("//" <= line[i..] || "/*" <= line[i..])
  }

  lemma CommentMeans(line: string)
    ensures IsComment(line) <==> exists i: nat :: CommentAt(line, i)
  {
    var tr := Trim(line);
    TrimTrims(line);
    var a, b :| Blank(a) && Blank(b) && line == a + tr + b;
    if IsComment(line) {
      assert line[..|a|] == a && line[|a|..] == tr + b;
      assert CommentAt(line, |a|);
    }
    if i: nat :| CommentAt(line, i) {
      CommentTrimmed(line, tr, a, b, i);
    }
  }

  lemma CommentTrimmed(line: string, tr: string, a: string, b: string, i: nat)
    requires Blank(a) && Blank(b) && line == a + tr + b && CommentAt(line, i)
    requires tr != "" ==> !IsSpace(tr[0]) && !IsSpace(tr[|tr| - 1])
    ensures "//" <= tr || "/*" <= tr
  {
    assert !IsSpace(line[i]) && !IsSpace(line[i + 1]);
    assert forall k :: 0 <= k < |a| ==> line[k] == a[k];
    assert forall k :: |a| + |tr| <= k < |line| ==> line[k] == b[k - |a| - |tr|];
    assert forall k :: 0 <= k < i ==> line[k] == line[..i][k];
    assert |a| <= i && i + 1 < |a| + |tr|;
    assert line[|a|] == tr[0];
    assert tr[0] == line[i] && tr[1] == line[i + 1];
  }

  /** The lines that are no comments, in order. */
  function Kept(ls: seq<string>): (r: seq<string>)
    ensures forall i :: 0 <= i < |r| ==> !IsComment(r[i]) && r[i] in ls
  {
    if ls == [] then []
    else if IsComment(ls[0]) then Kept(ls[1..]) else [ls[0]] + Kept(ls[1..])
  }

  /** Line by line: a comment is dropped, any other line stays in its place. */
  lemma {:induction false} KeptMeans(a: seq<string>, b: seq<string>, l: string)
    ensures Kept(a + b) == Kept(a) + Kept(b)
    ensures Kept([l]) == if IsComment(l) then [] else [l]
  {
    assert [l][1..] == [];
    if a == [] {
      assert a + b == b;
    } else {
      assert (a + b)[0] == a[0] && (a + b)[1..] == a[1..] + b;
      KeptMeans(a[1..], b, l);
    }
  }

  lemma {:induction false} KeptSnoc(ls: seq<string>, l: string)
    ensures Kept(ls + [l]) == Kept(ls) + if IsComment(l) then [] else [l]
  {
    if ls == [] {
      assert ls + [l] == [l] && [l][1..] == [];
    } else {
      assert (ls + [l])[0] == ls[0] && (ls + [l])[1..] == ls[1..] + [l];
      KeptSnoc(ls[1..], l);
    }
  }

  lemma {:induction false} KeptAll(ls: seq<string>)
    requires forall i :: 0 <= i < |ls| ==> !IsComment(ls[i])
    ensures Kept(ls) == ls
  {
    if ls != [] {
      KeptAll(ls[1..]);
    }
  }

  lemma KeptStep(ls: seq<string>, i: nat)
    requires i < |ls|
    ensures Unlines(Kept(ls[..i + 1])) ==
            if IsComment(ls[i]) then Unlines(Kept(ls[..i])) else Unlines(Kept(ls[..i])) + ls[i] + "\n"
  {
    assert ls[..i + 1] == ls[..i] + [ls[i]];
    KeptSnoc(ls[..i], ls[i]);
    if IsComment(ls[i]) {
      assert Kept(ls[..i]) + [] == Kept(ls[..i]);
    } else {
      UnlinesSnoc(Kept(ls[..i]), ls[i]);
    }
  }

  /** The loop that drops the comment lines of the file. */
  method StripComments(text: string) returns (out: string)
    ensures out == Unlines(Kept(Lines(text)))
  {
    var ls := Lines(text);
    out := "";
    var i := 0;
    while i < |ls|
      invariant 0 <= i <= |ls|
      invariant out == Unlines(Kept(ls[..i]))
    {
      KeptStep(ls, i);
      if IsComment(ls[i]) {
        i := i + 1;
        continue;
      }
      out := out + ls[i] + "\n";
      i := i + 1;
    }
    assert ls[..|ls|] == ls;
  }

  /** Splitting the output gives the kept lines back, and stripping it again changes nothing. */
  lemma StripIdempotent(text: string)
    ensures var out := Unlines(Kept(Lines(text)));
            Lines(out) == Kept(Lines(text)) && Unlines(Kept(Lines(out))) == out
  {
    var kept := Kept(Lines(text));
    LinesAreLineFree(text);
    assert LineFree(kept);
    LinesUnlines(kept);
    KeptAll(kept);
  }
}
