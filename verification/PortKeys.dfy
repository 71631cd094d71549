/** The decimal "src-dst" keys of the per-pair tables. */
module PortKeys {
  import opened Machine
  import opened Odometer

  function Digit(n: int): char
    requires 0 <= n < 10
  {
    "0123456789"[n]
  }

  function Decimal(n: nat): (s: string)
    ensures |s| > 0 && forall ch :: ch in s ==> '0' <= ch <= '9'
  {
    if n < 10 then [Digit(n)] else Decimal(n / 10) + [Digit(n % 10)]
  }

  lemma {:induction false} DecimalInjective(a: nat, b: nat)
    requires Decimal(a) == Decimal(b)
    ensures a == b
  {
    var s := Decimal(a);
    assert s[|s| - 1] == Digit(a % 10) && s[|s| - 1] == Digit(b % 10);
    if a >= 10 && b >= 10 {
      assert s[..|s| - 1] == Decimal(a / 10) && s[..|s| - 1] == Decimal(b / 10);
      DecimalInjective(a / 10, b / 10);
    }
  }

  /** The number a decimal text stands for, digit by digit. */
  function Read(s: string): (n: int) {
    if s == [] then 0 else 10 * Read(s[..|s| - 1]) + (s[|s| - 1] as int - '0' as int)
  }

  /** Reading the text back gives the number; there are no leading zeros. */
  lemma {:induction false} ReadDecimal(n: nat)
    ensures Read(Decimal(n)) == n
    ensures (forall ch :: ch in Decimal(n) ==> '0' <= ch <= '9') && (n > 0 ==> Decimal(n)[0] != '0')
  {
    if n >= 10 {
      ReadDecimal(n / 10);
      assert Decimal(n)[..|Decimal(n)| - 1] == Decimal(n / 10);
    } else {
      assert Decimal(n) == [Digit(n)] && Decimal(n)[..0] == [];
    }
  }

  function Key(p: Pair): string {
    Decimal(p.src) + "-" + Decimal(p.dst)
  }

  function FirstIndex(s: string, sep: char): (i: nat) {
    if s == [] || s[0] == sep then 0 else 1 + FirstIndex(s[1..], sep)
  }

  lemma {:induction false} FirstIndexBehind(a: string, b: string, sep: char)
    requires sep !in a
    ensures FirstIndex(a + [sep] + b, sep) == |a|
  {
    var s := a + [sep] + b;
    if a != [] {
      assert s[1..] == a[1..] + [sep] + b;
      FirstIndexBehind(a[1..], b, sep);
    }
  }

  /** The parts of a text between separators. */
  function Fields(s: string, sep: char): (fields: seq<string>)
    decreases |s|
  {
    var i := FirstIndex(s, sep);
    if i < |s| then [s[..i]] + Fields(s[i + 1..], sep) else [s]
  }

  lemma FieldsFirst(a: string, b: string, sep: char)
    requires sep !in a
    ensures Fields(a + [sep] + b, sep) == [a] + Fields(b, sep)
  {
    var s := a + [sep] + b;
    FirstIndexBehind(a, b, sep);
    assert s[..|a|] == a && s[|a| + 1..] == b;
  }

  lemma FieldsLast(a: string, sep: char)
    requires sep !in a
    ensures Fields(a, sep) == [a]
  {
    NoIndex(a, sep);
  }

  lemma {:induction false} NoIndex(a: string, sep: char)
    requires sep !in a
    ensures FirstIndex(a, sep) == |a|
  {
    if a != [] { NoIndex(a[1..], sep); }
  }

  /** What stands before the first separator determines both parts. */
  lemma SplitUnique(a: string, b: string, c: string, d: string, sep: char)
    requires a + [sep] + b == c + [sep] + d && sep !in a && sep !in c
    ensures a == c && b == d
  {
    var s := a + [sep] + b;
    FirstIndexBehind(a, b, sep);
    FirstIndexBehind(c, d, sep);
    assert a == s[..|a|] && c == s[..|c|] && b == s[|a| + 1..] && d == s[|c| + 1..];
  }

  /** A key is the source port in decimal, a dash, and the destination port in decimal. */
  lemma ReadKey(p: Pair)
    ensures var key := Key(p); var i := FirstIndex(key, '-');
      i < |key| && Read(key[..i]) == p.src && Read(key[i + 1..]) == p.dst
  {
    var a, b := Decimal(p.src), Decimal(p.dst);
    ReadDecimal(p.src);
    ReadDecimal(p.dst);
    FirstIndexBehind(a, b, '-');
    assert Key(p) == a + ['-'] + b;
    assert Key(p)[..|a|] == a && Key(p)[|a| + 1..] == b;
  }

  /** No two pairs share a table entry. */
  lemma KeyInjective(p: Pair, q: Pair)
    requires Key(p) == Key(q)
    ensures p == q
  {
    SplitUnique(Decimal(p.src), Decimal(p.dst), Decimal(q.src), Decimal(q.dst), '-');
    DecimalInjective(p.src, q.src);
    DecimalInjective(p.dst, q.dst);
  }

  function CountAt(m: map<string, nat>, key: string): nat {
    if key in m then m[key] else 0
  }

  ghost function Total(m: map<string, nat>): nat
    decreases |m|
  {
    if m == map[] then 0 else
      var k :| k in m;
      m[k] + Total(m - {k})
  }

  /** The total does not depend on the order of addition. */
  lemma {:induction false} TotalSplit(m: map<string, nat>, k: string)
    requires k in m
    ensures Total(m) == m[k] + Total(m - {k})
    decreases |m|
  {
    var j :| j in m && Total(m) == m[j] + Total(m - {j});
    if j != k {
      TotalSplit(m - {j}, k);
      TotalSplit(m - {k}, j);
      assert m - {j} - {k} == m - {k} - {j};
    }
  }

  lemma TotalIncrement(m: map<string, nat>, k: string)
    ensures Total(m[k := CountAt(m, k) + 1]) == Total(m) + 1
  {
    var m' := m[k := CountAt(m, k) + 1];
    TotalSplit(m', k);
    assert m' - {k} == m - {k};
    if k in m {
      TotalSplit(m, k);
    } else {
      assert m - {k} == m;
    }
  }
}
