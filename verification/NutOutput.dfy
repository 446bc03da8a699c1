/** The output of a driver: lines "key: value". */
module NutOutput {
  import opened Wrappers
  import opened Text
  import opened OrderedMap

  // ---------- the expression ([a-z0-9\.]+)\s*:\s+(.*) on one line ----------

  predicate IsKeyChar(c: char) {
    'a' <= c <= 'z' || '0' <= c <= '9' || c == '.'
  }

  predicate IsKey(s: string) {
    s != "" && forall i :: 0 <= i < |s| ==> IsKeyChar(s[i])
  }

  predicate IsBlank(s: string) {
    forall i :: 0 <= i < |s| ==> IsSpace(s[i])
  }

  /** One way to match the line: the groups are line[..a] and line[v..], the colon is at b. */
  predicate Fits(line: string, a: nat, b: nat, v: nat) {
    && a <= b < v <= |line|
    && IsKey(line[..a]) && IsBlank(line[a..b]) && line[b] == ':'
    && b + 1 < v && IsBlank(line[b + 1..v]) && NoBreak(line[v..])
  }

  /** The end of the key characters, and of the white space, that begin at i. */
  function KeyEnd(s: string, i: nat): (e: nat)
    requires i <= |s|
    ensures i <= e <= |s| && (forall k :: i <= k < e ==> IsKeyChar(s[k]))
    ensures e < |s| ==> !IsKeyChar(s[e])
    decreases |s| - i
  {
    if i < |s| && IsKeyChar(s[i]) then KeyEnd(s, i + 1) else i
  }

  function SpaceEnd(s: string, i: nat): (e: nat)
    requires i <= |s|
    ensures i <= e <= |s| && (forall k :: i <= k < e ==> IsSpace(s[k]))
    ensures e < |s| ==> !IsSpace(s[e])
    decreases |s| - i
  {
    if i < |s| && IsSpace(s[i]) then SpaceEnd(s, i + 1) else i
  }

  /** The match in which every repetition, from left to right, takes as much as it can. */
  function Match(line: string): Option<(nat, nat, nat)> {
    var a := KeyEnd(line, 0);
    var b := SpaceEnd(line, a);
    if a == 0 || b == |line| || line[b] != ':' then None
    else
      var v := SpaceEnd(line, b + 1);
      if v == b + 1 || !NoBreak(line[v..]) then None else Some((a, b, v))
  }

  lemma SlicePoints(line: string, a: nat, b: nat, v: nat)
    requires Fits(line, a, b, v)
    ensures a > 0 && (forall k :: 0 <= k < a ==> IsKeyChar(line[k]))
    ensures forall k :: a <= k < b || b < k < v ==> IsSpace(line[k])
    ensures forall k :: v <= k < |line| ==> line[k] != '\n' && line[k] != '\r'
  {}

  /** The match is found whenever there is one, and only the blanks before the value can be divided
      differently. */
  lemma MatchExact(line: string)
    ensures Match(line).Some? ==> var (a, b, v) := Match(line).value; Fits(line, a, b, v)
    ensures forall a: nat, b: nat, v: nat :: Fits(line, a, b, v) ==>
              Match(line).Some? && a == Match(line).value.0 && b == Match(line).value.1 && v <= Match(line).value.2
  {
    forall a: nat, b: nat, v: nat | Fits(line, a, b, v)
      ensures Match(line).Some? && a == Match(line).value.0 && b == Match(line).value.1 && v <= Match(line).value.2
    {
      SlicePoints(line, a, b, v);
      assert !IsKeyChar(line[a]) && KeyEnd(line, 0) == a;
      assert SpaceEnd(line, a) == b;
      var e := SpaceEnd(line, b + 1);
      assert v <= e;
      assert forall k :: e <= k < |line| ==> line[k] == line[e..][k - e];
    }
  }

  /** `fty::split`: the two groups, or two empty texts. */
  function ParseLine(line: string): (string, string) {
    match Match(line)
    case None => ("", "")
    case Some((a, _, v)) => (line[..a], line[v..])
  }

  /** The text before the colon and behind the white space after it, exactly. */
  ghost predicate Reads(line: string, key: string, value: string) {
    exists blank, more ::
      && line == key + blank + ":" + more + value
      && key != ""
      && (forall i :: 0 <= i < |key| ==> 'a' <= key[i] <= 'z' || '0' <= key[i] <= '9' || key[i] == '.')
      && IsBlank(blank) && more != "" && IsBlank(more)
      && NoBreak(value) && (value != "" ==> !IsSpace(value[0]))
  }

  /** A line of that form gives its key and value; any other gives two empty texts. */
  lemma ParseLineMeans(line: string)
    ensures var (key, value) := ParseLine(line);
            Reads(line, key, value) || (key == "" && value == "" && forall k, v :: !Reads(line, k, v))
  {
    MatchExact(line);
    match Match(line)
    case Some((a, b, v)) => SplitReads(line, a, b, v);
    case None =>
      forall k, v ensures !Reads(line, k, v) {
        if Reads(line, k, v) {
          ReadsFits(line, k, v);
        }
      }
  }

  lemma SplitReads(line: string, a: nat, b: nat, v: nat)
    requires Match(line) == Some((a, b, v)) && Fits(line, a, b, v)
    ensures Reads(line, line[..a], line[v..])
  {
    var key, blank, more, value := line[..a], line[a..b], line[b + 1..v], line[v..];
    assert line == key + blank + ":" + more + value;
    assert forall i :: 0 <= i < |key| ==> IsKeyChar(key[i]);
    assert value != "" ==> value[0] == line[v];
  }

  lemma ReadsFits(line: string, key: string, value: string)
    requires Reads(line, key, value)
    ensures exists a: nat, b: nat, v: nat :: Fits(line, a, b, v)
  {
    var blank, more :|
      && line == key + blank + ":" + more + value
      && key != ""
      && (forall i :: 0 <= i < |key| ==> 'a' <= key[i] <= 'z' || '0' <= key[i] <= '9' || key[i] == '.')
      && IsBlank(blank) && more != "" && IsBlank(more)
      && NoBreak(value) && (value != "" ==> !IsSpace(value[0]));
    var a, b := |key|, |key| + |blank|;
    var v := b + 1 + |more|;
    FitsParts(line, key, blank, more, value);
  }

  lemma FitsParts(line: string, key: string, blank: string, more: string, value: string)
    requires line == key + blank + ":" + more + value && IsKey(key) && IsBlank(blank)
    requires more != "" && IsBlank(more) && NoBreak(value)
    ensures var a, b := |key|, |key| + |blank|; Fits(line, a, b, b + 1 + |more|)
  {
    var a, b := |key|, |key| + |blank|;
    var v := b + 1 + |more|;
    assert line[..a] == key && line[a..b] == blank && line[b] == ':';
    assert line[b + 1..v] == more && line[v..] == value;
  }

  // ---------- all lines ----------

  function Collect(m: Pairs, lines: seq<string>): Pairs
    decreases |lines|
  {
    if lines == [] then m
    else Collect(Emplace(m, ParseLine(lines[0]).0, ParseLine(lines[0]).1), lines[1..])
  }

  /** The map the whole output is turned into. */
  function ParseOutput(text: string): Pairs {
    Collect([], Lines(text))
  }

  /** The value on the first line that carries the key. */
  function FirstValue(lines: seq<string>, key: string): (r: Option<string>)
    ensures r.Some? ==> exists i ::
              && 0 <= i < |lines| && ParseLine(lines[i]) == (key, r.value)
              && forall j :: 0 <= j < i ==> ParseLine(lines[j]).0 != key
    ensures r.None? ==> forall i :: 0 <= i < |lines| ==> ParseLine(lines[i]).0 != key
  {
    if lines == [] then None
    else if ParseLine(lines[0]).0 == key then Some(ParseLine(lines[0]).1)
    else FirstValue(lines[1..], key)
  }

  lemma {:induction false} CollectGet(m: Pairs, lines: seq<string>, key: string)
    requires Sorted(m)
    ensures Sorted(Collect(m, lines))
    ensures Get(Collect(m, lines), key) == if Get(m, key).Some? then Get(m, key) else FirstValue(lines, key)
    decreases |lines|
  {
    if lines != [] {
      var (k, v) := ParseLine(lines[0]);
      EmplaceSorted(m, k, v);
      EmplaceGet(m, k, v, key);
      CollectGet(Emplace(m, k, v), lines[1..], key);
    }
  }

  /** The map holds for each key the value of the first line that carries it, in key order. */
  lemma ParseOutputFirst(text: string, key: string)
    ensures Sorted(ParseOutput(text)) && Get(ParseOutput(text), key) == FirstValue(Lines(text), key)
  {
    CollectGet([], Lines(text), key);
  }

  // ---------- printing and reading back ----------

  function PrintLine(p: (string, string)): string {
    p.0 + ": " + p.1
  }

  function PrintLines(m: Pairs): seq<string> {
    seq(|m|, i requires 0 <= i < |m| => PrintLine(m[i]))
  }

  function Print(m: Pairs): string {
    Unlines(PrintLines(m))
  }

  ghost predicate Printable(p: (string, string)) {
    IsKey(p.0) && NoBreak(p.1) && (p.1 != "" ==> !IsSpace(p.1[0]))
  }

  lemma PrintedLine(p: (string, string))
    requires Printable(p)
    ensures ParseLine(PrintLine(p)) == p && '\n' !in PrintLine(p)
  {
    var line, a := PrintLine(p), |p.0|;
    assert line == p.0 + ": " + p.1;
    assert line[..a] == p.0 && line[a..a] == "" && line[a] == ':' && line[a + 1..a + 2] == " " && line[a + 2..] == p.1;
    assert Fits(line, a, a, a + 2);
    MatchExact(line);
    var v := Match(line).value.2;
    SlicePoints(line, a, a, v);
    assert p.1 != "" ==> line[a + 2] == p.1[0];
    forall i | 0 <= i < a ensures p.0[i] != '\n' {
      assert IsKeyChar(p.0[i]);
    }
  }

  /** Printing a map and parsing the text gives the map back. */
  lemma PrintParse(m: Pairs)
    requires Sorted(m) && forall i :: 0 <= i < |m| ==> Printable(m[i])
    ensures ParseOutput(Print(m)) == m
  {
    var ls := PrintLines(m);
    forall i | 0 <= i < |m| ensures ParseLine(ls[i]) == m[i] && '\n' !in ls[i] {
      PrintedLine(m[i]);
    }
    LinesUnlines(ls);
    CollectAppends(m, ls, 0);
    assert m[..0] == [] && ls[0..] == ls;
  }

  lemma {:induction false} CollectAppends(m: Pairs, ls: seq<string>, i: nat)
    requires Sorted(m) && |ls| == |m| && i <= |m|
    requires forall j :: 0 <= j < |m| ==> ParseLine(ls[j]) == m[j]
    ensures Collect(m[..i], ls[i..]) == m
    decreases |m| - i
  {
    if i == |m| {
      assert m[..i] == m;
    } else {
      CollectAppends(m, ls, i + 1);
      AppendsOne(m, ls, i);
    }
  }

  lemma AppendsOne(m: Pairs, ls: seq<string>, i: nat)
    requires Sorted(m) && |ls| == |m| && i < |m| && ParseLine(ls[i]) == m[i]
    ensures Collect(m[..i], ls[i..]) == Collect(m[..i + 1], ls[i + 1..])
  {
    EmplaceLast(m[..i], m[i].0, m[i].1);
    assert m[..i] + [m[i]] == m[..i + 1];
    assert ls[i..][0] == ls[i] && ls[i..][1..] == ls[i + 1..];
  }
}
