/** String helpers with Python's meaning: substring test, slicing prefix,
    decimal rendering of integers (`str(n)`), code-point ordering of strings
    and `sorted(set(xs))`. */
module Text {

  /** `needle in hay` for two strings. */
  predicate Contains(hay: string, needle: string)
    decreases |hay|
  {
    StartsWith(hay, needle) || (|hay| > 0 && Contains(hay[1..], needle))
  }

  predicate StartsWith(s: string, prefix: string)
  {
    |prefix| <= |s| && s[..|prefix|] == prefix
  }

  /** `s[:n]`: at most the first `n` characters. */
  function Take(s: string, n: nat): (t: string)
    ensures |t| == if |s| <= n then |s| else n
    ensures t == s[..|t|]
  {
    if |s| <= n then s else s[..n]
  }

  // ---------------------------------------------------------------------
  // Decimal rendering

  const DIGITS := "0123456789"

  function DigitChar(d: nat): (c: char)
    requires d < 10
    ensures '0' <= c <= '9'
  {
    DIGITS[d]
  }

  function DigitValue(c: char): nat
  {
    if '0' <= c <= '9' then (c - '0') as nat else 0
  }

  predicate IsDigits(s: string)
  {
    forall i :: 0 <= i < |s| ==> '0' <= s[i] <= '9'
  }

  /** `str(n)` for a non-negative integer. */
  function NatString(n: nat): (s: string)
    ensures |s| > 0 && IsDigits(s)
    ensures s[0] == '0' ==> n == 0
    decreases n
  {
    if n < 10 then [DigitChar(n)] else NatString(n / 10) + [DigitChar(n % 10)]
  }

  /** `str(i)` for any integer. */
  function IntString(i: int): string
  {
    if i < 0 then "-" + NatString(-i) else NatString(i)
  }

  /** The value of a string of decimal digits. */
  function ParseNat(s: string): nat
    decreases |s|
  {
    if |s| == 0 then 0 else ParseNat(s[..|s| - 1]) * 10 + DigitValue(s[|s| - 1])
  }

  /** Reading back a rendered number gives the number. */
  lemma {:induction false} ParseNatString(n: nat)
    ensures ParseNat(NatString(n)) == n
    decreases n
  {
    var s := NatString(n);
    if n < 10 {
      assert s[..0] == [];
      assert DigitValue(DIGITS[n]) == n;
    } else {
      ParseNatString(n / 10);
      assert s[..|s| - 1] == NatString(n / 10);
      assert DigitValue(DIGITS[n % 10]) == n % 10;
    }
  }

  /** Distinct numbers render differently. */
  lemma NatStringInjective(m: nat, n: nat)
    requires NatString(m) == NatString(n)
    ensures m == n
  {
    ParseNatString(m);
    ParseNatString(n);
  }

  // ---------------------------------------------------------------------
  // Python's ordering of strings: by code point, a proper prefix first

  predicate Less(a: string, b: string)
    decreases |a|
  {
    if |a| == 0 then |b| > 0
    else if |b| == 0 then false
    else if a[0] != b[0] then a[0] < b[0]
    else Less(a[1..], b[1..])
  }

  lemma {:induction false} LessIrreflexive(a: string)
    ensures !Less(a, a)
    decreases |a|
  {
    if |a| > 0 {
      LessIrreflexive(a[1..]);
    }
  }

  lemma {:induction false} LessTransitive(a: string, b: string, c: string)
    requires Less(a, b) && Less(b, c)
    ensures Less(a, c)
    decreases |a|
  {
    if |a| > 0 && a[0] == b[0] && b[0] == c[0] {
      LessTransitive(a[1..], b[1..], c[1..]);
    }
  }

  lemma {:induction false} LessTotal(a: string, b: string)
    requires a != b
    ensures Less(a, b) || Less(b, a)
    decreases |a|
  {
    if |a| > 0 && |b| > 0 && a[0] == b[0] {
      assert a == [a[0]] + a[1..] && b == [b[0]] + b[1..];
      LessTotal(a[1..], b[1..]);
    }
  }

  lemma {:induction false} LessAsymmetric(a: string, b: string)
    requires Less(a, b)
    ensures !Less(b, a)
    decreases |a|
  {
    if |a| > 0 && a[0] == b[0] {
      LessAsymmetric(a[1..], b[1..]);
    }
  }

  ghost predicate StrictlySorted(xs: seq<string>)
  {
    forall i, j :: 0 <= i < j < |xs| ==> Less(xs[i], xs[j])
  }

  /** Adds `x` to a strictly sorted list, keeping it strictly sorted. */
  function Insert(x: string, ys: seq<string>): (zs: seq<string>)
    requires StrictlySorted(ys)
    ensures StrictlySorted(zs)
    ensures forall s :: s in zs <==> s == x || s in ys
    decreases |ys|
  {
    if |ys| == 0 then [x]
    else if x == ys[0] then ys
    else if Less(x, ys[0]) then
      assert forall j :: 0 <= j < |ys| ==> Less(x, ys[j]) by {
        forall j | 0 < j < |ys| {
          LessTransitive(x, ys[0], ys[j]);
        }
      }
      [x] + ys
    else
      LessTotal(x, ys[0]);
      var rest := Insert(x, ys[1..]);
      assert forall s :: s in rest ==> Less(ys[0], s);
      [ys[0]] + rest
  }

  /** `sorted(set(xs))`. */
  function SortedSet(xs: seq<string>): (ys: seq<string>)
    ensures StrictlySorted(ys)
    ensures forall s :: s in ys <==> s in xs
    decreases |xs|
  {
    if |xs| == 0 then []
    else Insert(xs[|xs| - 1], SortedSet(xs[..|xs| - 1]))
  }

  lemma SameElementsBothEmpty(xs: seq<string>, ys: seq<string>)
    requires forall s :: s in xs <==> s in ys
    ensures |xs| == 0 <==> |ys| == 0
  {
    if |xs| > 0 {
      assert xs[0] in xs;
    }
    if |ys| > 0 {
      assert ys[0] in ys;
    }
  }

  /** A strictly sorted list is determined by its elements, so `SortedSet`
      agrees with any other way of computing `sorted(set(xs))`. */
  lemma {:induction false} StrictlySortedUnique(xs: seq<string>, ys: seq<string>)
    requires StrictlySorted(xs) && StrictlySorted(ys)
    requires forall s :: s in xs <==> s in ys
    ensures xs == ys
    decreases |xs|
  {
    SameElementsBothEmpty(xs, ys);
    if |xs| > 0 && |ys| > 0 {
      assert xs[0] in ys && ys[0] in xs;
      if xs[0] != ys[0] {
        var j :| 0 <= j < |ys| && ys[j] == xs[0];
        var k :| 0 <= k < |xs| && xs[k] == ys[0];
        assert j > 0 && k > 0;
        LessAsymmetric(ys[0], ys[j]);
        assert false;
      }
      forall s
        ensures s in xs[1..] <==> s in ys[1..]
      {
        if s in xs[1..] {
          var i :| 1 <= i < |xs| && xs[i] == s;
          LessIrreflexive(xs[0]);
          assert xs[i] in xs;
          var j :| 0 <= j < |ys| && ys[j] == s;
          assert j != 0;
          assert ys[1..][j - 1] == s;
        }
        if s in ys[1..] {
          var i :| 1 <= i < |ys| && ys[i] == s;
          LessIrreflexive(ys[0]);
          assert ys[i] in ys;
          var j :| 0 <= j < |xs| && xs[j] == s;
          assert j != 0;
          assert xs[1..][j - 1] == s;
        }
      }
      StrictlySortedUnique(xs[1..], ys[1..]);
      assert xs == [xs[0]] + xs[1..] && ys == [ys[0]] + ys[1..];
    }
  }
}
