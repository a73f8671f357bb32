/** Decimal numbers in texts, as `%d` prints them and `strconv.ParseUint` reads them, and dash-separated texts. */
module Texts {

  predicate IsDigit(c: char) { '0' <= c <= '9' }

  predicate AllDigits(s: string)
  {
    forall i :: 0 <= i < |s| ==> IsDigit(s[i])
  }

  function DecimalValue(s: string): (v: nat)
    requires AllDigits(s)
  {
    if |s| == 0 then 0 else 10 * DecimalValue(s[..|s| - 1]) + (s[|s| - 1] as int - '0' as int)
  }

  function Digit(d: nat): (c: char)
    requires d < 10
    ensures IsDigit(c) && c as int - '0' as int == d
  {
    ('0' as int + d) as char
  }

  /** `%d` of a natural number. */
  function Decimal(n: nat): string
  {
    if n < 10 then [Digit(n)] else Decimal(n / 10) + [Digit(n % 10)]
  }

  /** Reading back what `%d` printed. */
  lemma {:induction false} DecimalRoundTrip(n: nat)
    ensures |Decimal(n)| > 0 && AllDigits(Decimal(n)) && DecimalValue(Decimal(n)) == n
  {
    if n < 10 {
      assert [Digit(n)][..0] == [];
    } else {
      DecimalRoundTrip(n / 10);
      assert Decimal(n)[..|Decimal(n)| - 1] == Decimal(n / 10);
    }
  }

  ghost predicate DashFree(s: string)
  {
    forall i :: 0 <= i < |s| ==> s[i] != '-'
  }

  /** Position of the first dash, or the length without one. */
  ghost function FirstDash(s: string): (i: nat)
  {
    if |s| == 0 || s[0] == '-' then 0 else 1 + FirstDash(s[1..])
  }

  /** Length of the dash-free tail. */
  ghost function AfterLastDash(s: string): (i: nat)
  {
    if |s| == 0 || s[|s| - 1] == '-' then 0 else 1 + AfterLastDash(s[..|s| - 1])
  }

  lemma {:induction false} FirstDashIs(a: string, s: string)
    requires DashFree(a)
    ensures FirstDash(a + "-" + s) == |a|
  {
    if |a| > 0 {
      assert (a + "-" + s)[1..] == a[1..] + "-" + s;
      FirstDashIs(a[1..], s);
    }
  }

  lemma {:induction false} LastDashIs(a: string, s: string)
    requires DashFree(s)
    ensures AfterLastDash(a + "-" + s) == |s|
  {
    if |s| > 0 {
      assert (a + "-" + s)[..|a| + |s|] == a + "-" + s[..|s| - 1];
      LastDashIs(a, s[..|s| - 1]);
    }
  }

  /** Reading up to the first dash recovers a dash-free head. */
  lemma HeadUnique(a: string, s: string, b: string, t: string)
    requires DashFree(a) && DashFree(b) && a + "-" + s == b + "-" + t
    ensures a == b && s == t
  {
    FirstDashIs(a, s);
    FirstDashIs(b, t);
    CutUnique(a, s, b, t);
  }

  /** Reading from the last dash recovers a dash-free tail. */
  lemma TailUnique(a: string, s: string, b: string, t: string)
    requires DashFree(s) && DashFree(t) && a + "-" + s == b + "-" + t
    ensures a == b && s == t
  {
    LastDashIs(a, s);
    LastDashIs(b, t);
    assert |a + "-" + s| == |a| + 1 + |s| && |b + "-" + t| == |b| + 1 + |t|;
    CutUnique(a, s, b, t);
  }

  lemma CutUnique(a: string, s: string, b: string, t: string)
    requires |a| == |b| && a + "-" + s == b + "-" + t
    ensures a == b && s == t
  {
    assert (a + "-" + s)[..|a|] == a && (b + "-" + t)[..|b|] == b;
    assert (a + "-" + s)[|a| + 1..] == s && (b + "-" + t)[|b| + 1..] == t;
  }

  lemma DigitsAreDashFree(s: string)
    requires AllDigits(s)
    ensures DashFree(s)
  {
    forall i | 0 <= i < |s| ensures s[i] != '-' {
      assert IsDigit(s[i]);
    }
  }

  ghost function Join(r: seq<string>): string
    requires |r| > 0
  {
    if |r| == 1 then r[0] else r[0] + "-" + Join(r[1..])
  }

  /** `strings.Split(s, "-")`. */
  function SplitAtDashes(s: string): (r: seq<string>)
    ensures |r| == 1 + Dashes(s) && Join(r) == s && forall i :: 0 <= i < |r| ==> DashFree(r[i])
  {
    if |s| == 0 then [""]
    else if s[0] == '-' then
      var r := SplitAtDashes(s[1..]);
      assert ([""] + r)[1..] == r && s == "" + "-" + s[1..];
      [""] + r
    else
      var r := SplitAtDashes(s[1..]);
      var t := [[s[0]] + r[0]] + r[1..];
      assert t[1..] == r[1..] && s == [s[0]] + s[1..];
      assert |r| > 1 ==> [s[0]] + (r[0] + "-" + Join(r[1..])) == ([s[0]] + r[0]) + "-" + Join(r[1..]);
      t
  }

  ghost function Dashes(s: string): nat
  {
    if |s| == 0 then 0 else (if s[0] == '-' then 1 else 0) + Dashes(s[1..])
  }

  lemma {:induction false} DashesAround(a: string, b: string)
    requires DashFree(a) && DashFree(b)
    ensures Dashes(b) == 0 && Dashes(a + "-" + b) == 1
    decreases |a| + |b|
  {
    if |b| > 0 {
      DashesAround("", b[1..]);
    }
    if |a| > 0 {
      DashesAround(a[1..], b);
      assert (a + "-" + b)[1..] == a[1..] + "-" + b;
    } else {
      assert (a + "-" + b)[1..] == b;
    }
  }

  /** Exactly one dash cuts the text in two. */
  lemma SplitInTwo(a: string, b: string)
    requires DashFree(a) && DashFree(b)
    ensures SplitAtDashes(a + "-" + b) == [a, b]
  {
    var r := SplitAtDashes(a + "-" + b);
    DashesAround(a, b);
    HeadUnique(a, b, r[0], Join(r[1..]));
  }
}
