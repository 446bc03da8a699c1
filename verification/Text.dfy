/** Strings as the agent uses them: white space, lines, searching, order and decimal numbers. */
module Text {
  import opened Wrappers

  /** `isspace` in the default locale. */
  predicate IsSpace(c: char) {
    c == ' ' || c == '\t' || c == '\n' || c == '\r' || c as int == 11 || c as int == 12
  }

  predicate IsDigit(c: char) {
    '0' <= c <= '9'
  }

  /** One or more digits. */
  predicate IsNumeral(s: string) {
    s != "" && forall i :: 0 <= i < |s| ==> IsDigit(s[i])
  }

  /** What `.*` of a regular expression matches: neither line feeds nor carriage returns. */
  predicate NoBreak(s: string) {
    '\n' !in s && '\r' !in s
  }

  function TrimLeft(s: string): string {
    if s != "" && IsSpace(s[0]) then TrimLeft(s[1..]) else s
  }

  function TrimRight(s: string): string {
    if s != "" && IsSpace(s[|s| - 1]) then TrimRight(s[..|s| - 1]) else s
  }

  /** `fty::trimmed`. */
  function Trim(s: string): string {
    TrimRight(TrimLeft(s))
  }

  ghost predicate Blank(s: string) {
    forall i :: 0 <= i < |s| ==> IsSpace(s[i])
  }

  /** r is s without the white space at both ends. */
  ghost predicate IsTrimmed(s: string, r: string) {
    && (exists a, b :: Blank(a) && Blank(b) && s == a + r + b)
    && (r != "" ==> !IsSpace(r[0]) && !IsSpace(r[|r| - 1]))
  }

  lemma {:induction false} TrimLeftCuts(s: string) returns (a: string)
    ensures Blank(a) && s == a + TrimLeft(s) && (TrimLeft(s) != "" ==> !IsSpace(TrimLeft(s)[0]))
  {
    a := "";
    if s != "" && IsSpace(s[0]) {
      var b := TrimLeftCuts(s[1..]);
      a := [s[0]] + b;
      assert s == [s[0]] + s[1..];
    }
  }

  lemma {:induction false} TrimRightCuts(s: string) returns (b: string)
    ensures Blank(b) && s == TrimRight(s) + b && (TrimRight(s) != "" ==> !IsSpace(TrimRight(s)[|TrimRight(s)| - 1]))
  {
    b := "";
    if s != "" && IsSpace(s[|s| - 1]) {
      var c := TrimRightCuts(s[..|s| - 1]);
      b := c + [s[|s| - 1]];
      assert s == s[..|s| - 1] + [s[|s| - 1]];
    }
  }

  /** Trimming takes the white space off both ends, all of it and nothing else. */
  lemma TrimTrims(s: string)
    ensures IsTrimmed(s, Trim(s))
  {
    var t := TrimLeft(s);
    var a := TrimLeftCuts(s);
    var b := TrimRightCuts(t);
    assert s == a + Trim(s) + b;
    if Trim(s) != "" {
      assert Trim(s)[0] == t[0];
    }
  }

  /** There is one such text only. */
  lemma TrimmedUnique(s: string, r: string, q: string)
    requires IsTrimmed(s, r) && IsTrimmed(s, q)
    ensures r == q
  {
    var a, b :| Blank(a) && Blank(b) && s == a + r + b;
    var c, d :| Blank(c) && Blank(d) && s == c + q + d;
    if r == "" {
      NothingLeft(s, a, b, c, q, d);
    } else if q == "" {
      NothingLeft(s, c, d, a, r, b);
    } else {
      StartsAt(s, a, r + b, c, q + d);
      assert s[|a| + |r| - 1] == r[|r| - 1] && s[|c| + |q| - 1] == q[|q| - 1];
      EndsAt(s, |a| + |r|, b, |c| + |q|, d);
      assert r == s[|a|..|a| + |r|] && q == s[|c|..|c| + |q|];
    }
  }

  lemma NothingLeft(s: string, a: string, b: string, c: string, q: string, d: string)
    requires Blank(a) && Blank(b) && s == a + "" + b
    requires s == c + q + d && (q != "" ==> !IsSpace(q[0]))
    ensures q == ""
  {
    assert q != "" ==> s[|c|] == q[0] && !IsSpace(s[|c|]);
    assert Blank(s);
  }

  lemma StartsAt(s: string, a: string, x: string, c: string, y: string)
    requires Blank(a) && Blank(c) && s == a + x && s == c + y
    requires x != "" && y != "" && !IsSpace(x[0]) && !IsSpace(y[0])
    ensures |a| == |c|
  {
    assert s[|a|] == x[0] && s[|c|] == y[0];
    assert forall k :: 0 <= k < |a| ==> s[k] == a[k];
    assert forall k :: 0 <= k < |c| ==> s[k] == c[k];
  }

  lemma EndsAt(s: string, i: nat, b: string, j: nat, d: string)
    requires 0 < i <= |s| && 0 < j <= |s| && s[i..] == b && s[j..] == d && Blank(b) && Blank(d)
    requires !IsSpace(s[i - 1]) && !IsSpace(s[j - 1])
    ensures i == j
  {
    assert forall k :: i <= k < |s| ==> s[k] == b[k - i];
    assert forall k :: j <= k < |s| ==> s[k] == d[k - j];
  }

  /** The position of the first c, or the length of s. */
  function FirstOf(s: string, c: char): (i: nat)
    ensures i <= |s| && forall k :: 0 <= k < i ==> s[k] != c
    ensures i < |s| ==> s[i] == c
  {
    FirstFrom(s, c, 0)
  }

  function FirstFrom(s: string, c: char, from: nat): (i: nat)
    requires from <= |s|
    ensures from <= i <= |s| && forall k :: from <= k < i ==> s[k] != c
    ensures i < |s| ==> s[i] == c
    decreases |s| - from
  {
    if from == |s| || s[from] == c then from else FirstFrom(s, c, from + 1)
  }

  lemma FirstFromIs(s: string, c: char, from: nat, i: nat)
    requires from <= i <= |s| && (forall k :: from <= k < i ==> s[k] != c) && (i < |s| ==> s[i] == c)
    ensures FirstFrom(s, c, from) == i
  {}

  lemma FirstOfIs(s: string, c: char, i: nat)
    requires i <= |s| && (forall k :: 0 <= k < i ==> s[k] != c) && (i < |s| ==> s[i] == c)
    ensures FirstOf(s, c) == i
  {}

  /** `std::string::find`: the first position at which pat occurs. */
  function Find(s: string, pat: string): (r: Option<nat>)
    ensures r.Some? ==> r.value + |pat| <= |s| && s[r.value..r.value + |pat|] == pat
    ensures r.Some? ==> forall i :: 0 <= i < r.value ==> !(pat <= s[i..])
    ensures r.None? ==> forall i :: 0 <= i <= |s| ==> !(pat <= s[i..])
  {
    if pat <= s then
      assert s[0..|pat|] == pat;
      Some(0)
    else if s == "" then None
    else
      var r := Find(s[1..], pat);
      assert forall i :: 1 <= i <= |s| ==> s[i..] == s[1..][i - 1..];
      match r case None => None case Some(i) => Some(i + 1)
  }

  // ---------- lines ----------

  /** What repeated `std::getline` yields. */
  function Lines(s: string): seq<string>
    decreases |s|
  {
    var i := FirstOf(s, '\n');
    if s == "" then [] else if i == |s| then [s] else [s[..i]] + Lines(s[i + 1..])
  }

  /** Every line with its newline. */
  function Unlines(ls: seq<string>): string {
    if ls == [] then "" else ls[0] + "\n" + Unlines(ls[1..])
  }

  ghost predicate LineFree(ls: seq<string>) {
    forall i :: 0 <= i < |ls| ==> '\n' !in ls[i]
  }

  lemma {:induction false} LinesAreLineFree(s: string)
    ensures LineFree(Lines(s))
    decreases |s|
  {
    var i := FirstOf(s, '\n');
    if i < |s| {
      LinesAreLineFree(s[i + 1..]);
    }
  }

  lemma {:induction false} LinesUnlines(ls: seq<string>)
    requires LineFree(ls)
    ensures Lines(Unlines(ls)) == ls
  {
    if ls != [] {
      var s, l := Unlines(ls), ls[0];
      assert s == l + ("\n" + Unlines(ls[1..]));
      assert s[..|l|] == l && s[|l|] == '\n';
      FirstOfIs(s, '\n', |l|);
      assert s[|l| + 1..] == Unlines(ls[1..]);
      LinesUnlines(ls[1..]);
    }
  }

  lemma {:induction false} UnlinesSnoc(ls: seq<string>, l: string)
    ensures Unlines(ls + [l]) == Unlines(ls) + l + "\n"
  {
    if ls == [] {
      assert ls + [l] == [l] && [l][1..] == [];
      assert Unlines([l]) == l + "\n" + "";
    } else {
      assert (ls + [l])[0] == ls[0] && (ls + [l])[1..] == ls[1..] + [l];
      UnlinesSnoc(ls[1..], l);
    }
  }

  /** The lines of a text make it up again; only whether the last one had its newline is not seen. */
  lemma {:induction false} UnlinesLines(s: string)
    ensures Unlines(Lines(s)) == if s == "" || s[|s| - 1] == '\n' then s else s + "\n"
    decreases |s|
  {
    var i := FirstOf(s, '\n');
    if s != "" {
      if i == |s| {
        assert s[|s| - 1] != '\n';
        UnlinesOne(s);
      } else {
        var rest := s[i + 1..];
        UnlinesLines(rest);
        assert ([s[..i]] + Lines(rest))[1..] == Lines(rest);
        assert s == s[..i] + "\n" + rest;
        assert rest != "" ==> rest[|rest| - 1] == s[|s| - 1];
      }
    }
  }

  lemma UnlinesOne(l: string)
    ensures Unlines([l]) == l + "\n"
  {
    assert [l][1..] == [];
    assert Unlines([l]) == l + "\n" + "";
  }

  // ---------- decimal numbers ----------

  function Digit(d: nat): char
    requires d < 10
  {
    '0' + d as char
  }

  /** `std::to_string` of a number that is not negative. */
  function Decimal(n: nat): (s: string)
    ensures IsNumeral(s)
  {
    if n < 10 then [Digit(n)] else Decimal(n / 10) + [Digit(n % 10)]
  }

  lemma {:induction false} DecimalInjective(m: nat, n: nat)
    requires Decimal(m) == Decimal(n)
    ensures m == n
  {
    var s, t := Decimal(m), Decimal(n);
    assert s[|s| - 1] == Digit(m % 10) && t[|t| - 1] == Digit(n % 10);
    if m >= 10 && n >= 10 {
      assert Decimal(m / 10) == s[..|s| - 1] && Decimal(n / 10) == t[..|t| - 1];
      DecimalInjective(m / 10, n / 10);
    }
  }

  /** The number that decimal digits stand for. */
  function ValueOf(s: string): int {
    if s == "" then 0 else 10 * ValueOf(s[..|s| - 1]) + (s[|s| - 1] as int - '0' as int)
  }

  /** The rendered number is n, without leading zeros. */
  lemma {:induction false} DecimalMeans(n: nat)
    ensures ValueOf(Decimal(n)) == n && (Decimal(n)[0] == '0' <==> n == 0)
  {
    if n < 10 {
      assert Decimal(n)[..0] == "";
    } else {
      DecimalMeans(n / 10);
      var s := Decimal(n);
      assert s[..|s| - 1] == Decimal(n / 10) && s[0] == Decimal(n / 10)[0];
    }
  }
}
