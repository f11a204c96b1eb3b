/** Text as the scripts handle it: decimal numerals, joined labels, byte order. */
module Text {

  /** Decimal numeral of `n` without leading zeros, as `str(n)` prints it. */
  function Dec(n: nat): (r: string)
    ensures r != [] && forall c :: c in r ==> '0' <= c <= '9'
  {
    if n < 10 then [Digit(n)] else Dec(n / 10) + [Digit(n % 10)]
  }

  function Digit(d: nat): char
    requires d < 10
  {
    '0' + d as char
  }

  /** The number a text of digits stands for. */
  function Value(s: string): nat
    requires forall i :: 0 <= i < |s| ==> '0' <= s[i] <= '9'
  {
    if s == [] then 0 else 10 * Value(s[..|s| - 1]) + (s[|s| - 1] as int - '0' as int)
  }

  lemma DecDigits(n: nat)
    ensures forall i :: 0 <= i < |Dec(n)| ==> '0' <= Dec(n)[i] <= '9'
  {
    var d := Dec(n);
    assert forall i :: 0 <= i < |d| ==> d[i] in d;
  }

  /** The numeral stands for its number and has no leading zero. */
  lemma {:induction false} DecMeans(n: nat)
    ensures forall i :: 0 <= i < |Dec(n)| ==> '0' <= Dec(n)[i] <= '9'
    ensures Value(Dec(n)) == n
    ensures |Dec(n)| > 1 ==> Dec(n)[0] != '0'
    ensures n > 0 ==> Dec(n)[0] != '0'
  {
    var d := Dec(n);
    DecDigits(n);
    assert d[|d| - 1] == Digit(n % 10);
    if n >= 10 {
      assert d[..|d| - 1] == Dec(n / 10);
      DecMeans(n / 10);
    } else {
      assert d[..|d| - 1] == "";
    }
  }

  lemma {:induction false} DecInjective(m: nat, n: nat)
    requires Dec(m) == Dec(n)
    ensures m == n
  {
    assert Dec(m)[|Dec(m)| - 1] == Digit(m % 10);
    assert Dec(n)[|Dec(n)| - 1] == Digit(n % 10);
    if m >= 10 && n >= 10 {
      assert Dec(m)[..|Dec(m)| - 1] == Dec(m / 10);
      assert Dec(n)[..|Dec(n)| - 1] == Dec(n / 10);
      DecInjective(m / 10, n / 10);
    }
  }

  /** `sep.join(parts)` for a one-character separator. */
  function Join(parts: seq<string>, sep: char): string {
    if parts == [] then []
    else if |parts| == 1 then parts[0]
    else parts[0] + [sep] + Join(parts[1..], sep)
  }

  lemma {:induction false} JoinAppend(a: seq<string>, b: seq<string>, sep: char)
    requires a != [] && b != []
    ensures Join(a + b, sep) == Join(a, sep) + [sep] + Join(b, sep)
  {
    if |a| == 1 {
      assert (a + b)[1..] == b;
    } else {
      assert (a + b)[1..] == a[1..] + b;
      JoinAppend(a[1..], b, sep);
      assert Join(a + b, sep) == a[0] + [sep] + (Join(a[1..], sep) + [sep] + Join(b, sep));
    }
  }

  ghost predicate Free(part: string, sep: char) { sep !in part }

  /** Two parts free of `sep`, each followed by `sep` or by the end, agree once the texts do. */
  lemma {:induction false} HeadUnique(a: string, b: string, u: string, v: string, sep: char)
    requires Free(a, sep) && Free(b, sep)
    requires u == [] || u[0] == sep
    requires v == [] || v[0] == sep
    requires a + u == b + v
    ensures a == b && u == v
  {
    if a != [] && b != [] {
      assert (a + u)[0] == a[0] && (b + v)[0] == b[0];
      assert (a + u)[1..] == a[1..] + u && (b + v)[1..] == b[1..] + v;
      HeadUnique(a[1..], b[1..], u, v, sep);
      assert a == [a[0]] + a[1..] && b == [b[0]] + b[1..];
    } else {
      assert a == [] ==> a + u == u;
      assert b == [] ==> b + v == v;
    }
  }

  lemma {:induction false} JoinInjective(a: seq<string>, b: seq<string>, sep: char)
    requires a != [] && b != []
    requires forall p :: p in a || p in b ==> Free(p, sep)
    requires Join(a, sep) == Join(b, sep)
    ensures a == b
  {
    var u := if |a| == 1 then [] else [sep] + Join(a[1..], sep);
    var v := if |b| == 1 then [] else [sep] + Join(b[1..], sep);
    assert Join(a, sep) == a[0] + u && Join(b, sep) == b[0] + v;
    HeadUnique(a[0], b[0], u, v, sep);
    if |a| > 1 && |b| > 1 {
      assert u[1..] == Join(a[1..], sep) && v[1..] == Join(b[1..], sep);
      JoinInjective(a[1..], b[1..], sep);
      assert a == [a[0]] + a[1..] && b == [b[0]] + b[1..];
    } else {
      assert a == [a[0]] && b == [b[0]];
    }
  }

  lemma {:induction false} JoinChars(parts: seq<string>, sep: char, c: char)
    requires forall p :: p in parts ==> Free(p, c)
    requires c != sep
    ensures Free(Join(parts, sep), c)
  {
    if |parts| > 1 {
      JoinChars(parts[1..], sep, c);
      assert Free(parts[0], c) && Free([sep], c);
    } else if |parts| == 1 {
      assert Free(parts[0], c);
    }
  }

  /** Byte order on lines, as `sort` in the C locale and Python string comparison use it. */
  predicate Less(s: string, t: string) {
    t != [] && (s == [] || s[0] < t[0] || (s[0] == t[0] && Less(s[1..], t[1..])))
  }

  lemma {:induction false} LessTotal(s: string, t: string)
    ensures s == t || Less(s, t) || Less(t, s)
    ensures !(Less(s, t) && Less(t, s))
    ensures !Less(s, s)
  {
    if s != [] && t != [] {
      LessTotal(s[1..], t[1..]);
      assert s == [s[0]] + s[1..] && t == [t[0]] + t[1..];
    }
    LessIrreflexive(s);
  }

  lemma {:induction false} LessIrreflexive(s: string)
    ensures !Less(s, s)
  {
    if s != [] {
      LessIrreflexive(s[1..]);
    }
  }

  lemma {:induction false} LessTransitive(s: string, t: string, u: string)
    requires Less(s, t) && Less(t, u)
    ensures Less(s, u)
  {
    if s != [] && s[0] == t[0] && t[0] == u[0] {
      LessTransitive(s[1..], t[1..], u[1..]);
    }
  }

  /** A common prefix does not matter to the order. */
  lemma {:induction false} LessAfter(p: string, s: string, t: string)
    ensures Less(p + s, p + t) == Less(s, t)
  {
    if p == [] {
      assert p + s == s && p + t == t;
    } else {
      assert (p + s)[1..] == p[1..] + s && (p + t)[1..] == p[1..] + t;
      LessAfter(p[1..], s, t);
    }
  }
}
