/**
 * The pieces of C++ stream formatting the address and host printers rely on:
 * unpadded decimal and lower-case hexadecimal numerals (`std::dec`/`std::hex`),
 * `std::setw` padding with a fill character, joining fields with a separator,
 * and `std::string::compare`.
 */
module Text {

  /** A digit character as the standard streams print it: '0'..'9', then 'a'..'f'. */
  predicate IsDigitChar(c: char) {
    '0' <= c <= '9' || 'a' <= c <= 'f'
  }

  predicate AllDigits(s: string) {
    forall i :: 0 <= i < |s| ==> IsDigitChar(s[i])
  }

  /** The text is empty or its last character is a digit. */
  predicate EndsInDigit(s: string) {
    s == [] || IsDigitChar(s[|s| - 1])
  }

  /** The character for a digit value below 16 (lower case, as `std::hex` prints). */
  function DigitChar(d: nat): (c: char)
    requires d < 16
    ensures IsDigitChar(c)
  {
    if d < 10 then (48 + d) as char else (87 + d) as char
  }

  /** The value of a digit character; the inverse of DigitChar. */
  function DigitValue(c: char): (d: nat)
    requires IsDigitChar(c)
    ensures d < 16 && DigitChar(d) == c
  {
    if c <= '9' then c as int - 48 else c as int - 87
  }

  /** DigitChar is one-to-one and keeps the order of digit values. */
  lemma DigitCharInjective(d: nat, e: nat)
    requires d < 16 && e < 16
    ensures DigitValue(DigitChar(d)) == d
    ensures DigitChar(d) == DigitChar(e) <==> d == e
    ensures d < e <==> DigitChar(d) < DigitChar(e)
  {
  }

  /** The numeral of `n` in `base` with no leading zeros, as `ss << n` prints it. */
  function Digits(n: nat, base: nat): (s: string)
    requires 2 <= base <= 16
    ensures 1 <= |s|
    ensures AllDigits(s)
    decreases n
  {
    if n < base then [DigitChar(n)]
    else
      var t, c := Digits(n / base, base), DigitChar(n % base);
      AllDigitsSnoc(t, c);
      t + [c]
  }

  lemma AllDigitsSnoc(t: string, c: char)
    requires AllDigits(t) && IsDigitChar(c)
    ensures AllDigits(t + [c])
  {
    assert forall i :: 0 <= i < |t| ==> (t + [c])[i] == t[i];
  }

  /** The number a numeral denotes: the reference reading of Digits. */
  function Value(s: string, base: nat): nat
    requires AllDigits(s)
  {
    if s == [] then 0 else Value(s[..|s| - 1], base) * base + DigitValue(s[|s| - 1])
  }

  lemma ValueSnoc(t: string, c: char, base: nat)
    requires AllDigits(t) && IsDigitChar(c)
    ensures AllDigits(t + [c])
    ensures Value(t + [c], base) == Value(t, base) * base + DigitValue(c)
  {
    assert (t + [c])[..|t|] == t;
  }

  /** Reading back a printed numeral gives the number printed. */
  lemma {:induction false} DigitsRoundTrip(n: nat, base: nat)
    requires 2 <= base <= 16
    ensures Value(Digits(n, base), base) == n
    decreases n
  {
    if n < base {
      DigitsSingle(n, base);
    } else {
      DigitsRoundTrip(n / base, base);
      DigitsStep(n, base);
    }
  }

  lemma DigitsSingle(n: nat, base: nat)
    requires 2 <= base <= 16 && n < base
    ensures Value(Digits(n, base), base) == n
  {
    var c := DigitChar(n);
    assert Digits(n, base) == [c];
    assert [c][..0] == [];
    DigitCharInjective(n, 0);
    assert Value([c], base) == DigitValue(c);
  }

  /** One step of the round trip: the last digit carries n % base, the rest n / base. */
  lemma DigitsStep(n: nat, base: nat)
    requires 2 <= base <= 16 && base <= n
    requires Value(Digits(n / base, base), base) == n / base
    ensures Value(Digits(n, base), base) == n
  {
    var q, r := n / base, n % base;
    var t := Digits(q, base);
    assert Digits(n, base) == t + [DigitChar(r)];
    ValueSnoc(t, DigitChar(r), base);
    DigitCharInjective(r, 0);
    assert Value(t + [DigitChar(r)], base) == q * base + r;
    DivMod(n, base);
  }

  lemma DivMod(n: nat, b: nat)
    requires 0 < b
    ensures n == b * (n / b) + n % b
  {
  }

  /** Numerals are unpadded: only zero itself is written with a leading '0'. */
  lemma {:induction false} DigitsUnpadded(n: nat, base: nat)
    requires 2 <= base <= 16
    ensures Digits(n, base)[0] == '0' <==> n == 0
    decreases n
  {
    if n >= base {
      DigitsUnpadded(n / base, base);
      DigitsHead(n, base);
    } else {
      DigitsSmall(n, base);
    }
  }

  lemma DigitsSmall(n: nat, base: nat)
    requires 2 <= base <= 16 && n < base
    ensures Digits(n, base) == [DigitChar(n)]
    ensures Digits(n, base)[0] == '0' <==> n == 0
  {
    DigitCharInjective(n, 0);
  }

  lemma DigitsHead(n: nat, base: nat)
    requires 2 <= base <= 16 && base <= n
    ensures Digits(n, base)[0] == Digits(n / base, base)[0]
    ensures n / base != 0 && n != 0
  {
  }

  lemma DigitsInjective(m: nat, n: nat, base: nat)
    requires 2 <= base <= 16
    ensures Digits(m, base) == Digits(n, base) ==> m == n
  {
    DigitsRoundTrip(m, base);
    DigitsRoundTrip(n, base);
  }

  /** Only the characters '0'..'9', as `std::dec` prints. */
  predicate DecimalDigits(s: string) {
    forall i :: 0 <= i < |s| ==> '0' <= s[i] <= '9'
  }

  /** A numeral written without leading zeros: "0" itself, or a first digit other than '0'. */
  predicate Unpadded(s: string) {
    |s| >= 1 && (s == "0" || s[0] != '0')
  }

  /** Base-10 numerals use decimal digits only. */
  lemma {:induction false} DigitsDecimal(n: nat)
    ensures DecimalDigits(Digits(n, 10))
    decreases n
  {
    if n >= 10 {
      DigitsDecimal(n / 10);
      var s := Digits(n, 10);
      assert s == Digits(n / 10, 10) + [DigitChar(n % 10)];
    }
  }

  /** What a reader of a printed numeral can rely on: no padding, and its value is n. */
  lemma DigitsReadBack(n: nat, base: nat)
    requires 2 <= base <= 16
    ensures Unpadded(Digits(n, base))
    ensures Value(Digits(n, base), base) == n
  {
    DigitsUnpadded(n, base);
    DigitsRoundTrip(n, base);
    if n == 0 {
      DigitsSmall(0, base);
    }
  }

  function Pow(b: nat, k: nat): nat
  {
    if k == 0 then 1 else b * Pow(b, k - 1)
  }

  /** A number below base^k needs at most k digits. */
  lemma {:induction false} DigitsLength(n: nat, base: nat, k: nat)
    requires 2 <= base <= 16 && 1 <= k
    requires n < Pow(base, k)
    ensures |Digits(n, base)| <= k
    decreases k
  {
    if n >= base {
      assert Pow(base, k) == base * Pow(base, k - 1);
      assert k != 1;
      DivBelow(n, base, Pow(base, k - 1));
      DigitsLength(n / base, base, k - 1);
    }
  }

  lemma DivBelow(n: nat, b: nat, m: nat)
    requires 0 < b && n < b * m
    ensures n / b < m
  {
    var q := n / b;
    assert b * q <= n;
    if q >= m {
      MulMonotone(b, m, q);
    }
  }

  lemma MulMonotone(b: nat, x: nat, y: nat)
    requires x <= y
    ensures b * x <= b * y
  {
  }

  /** `count` copies of `c`. */
  function Repeat(c: char, count: nat): (s: string)
    ensures |s| == count
    ensures forall i :: 0 <= i < count ==> s[i] == c
  {
    if count == 0 then "" else [c] + Repeat(c, count - 1)
  }

  /** `std::setw(width)` with `std::right` and fill `fill`: never truncates. */
  function PadLeft(s: string, width: nat, fill: char): (r: string)
    ensures |r| == if |s| < width then width else |s|
    ensures r[|r| - |s|..] == s
    ensures forall i :: 0 <= i < |r| - |s| ==> r[i] == fill
  {
    if |s| < width then Repeat(fill, width - |s|) + s else s
  }

  /** `std::setw(width)` with `std::left` and fill `' '`: never truncates. */
  function PadRight(s: string, width: nat): (r: string)
    ensures |r| == if |s| < width then width else |s|
    ensures r[..|s|] == s
    ensures forall i :: |s| <= i < |r| ==> r[i] == ' '
  {
    if |s| < width then s + Repeat(' ', width - |s|) else s
  }

  /** Drops trailing spaces: the reading of a left-justified, space-filled field. */
  function TrimRight(s: string): (r: string)
    ensures |r| <= |s| && r == s[..|r|]
    ensures r == [] || r[|r| - 1] != ' '
    ensures forall i :: |r| <= i < |s| ==> s[i] == ' '
  {
    if s == [] || s[|s| - 1] != ' ' then s else TrimRight(s[..|s| - 1])
  }

  /** Trimming a padded field gives the field back when it does not end in a space. */
  lemma {:induction false} TrimPadded(s: string, width: nat)
    requires s == [] || s[|s| - 1] != ' '
    ensures TrimRight(PadRight(s, width)) == s
  {
    var p := PadRight(s, width);
    var r := TrimRight(p);
    assert |r| == |s|;
  }

  /** The fields joined with one `sep` between each two, as the printers' `if (i > 0) ss << sep` loops do. */
  function Join(parts: seq<string>, sep: char): string
  {
    if |parts| == 0 then ""
    else if |parts| == 1 then parts[0]
    else parts[0] + [sep] + Join(parts[1..], sep)
  }

  function TotalLength(parts: seq<string>): nat
  {
    if |parts| == 0 then 0 else |parts[0]| + TotalLength(parts[1..])
  }

  lemma {:induction false} JoinLength(parts: seq<string>, sep: char)
    requires 1 <= |parts|
    ensures |Join(parts, sep)| == TotalLength(parts) + |parts| - 1
  {
    if |parts| > 1 {
      JoinLength(parts[1..], sep);
    }
  }

  lemma {:induction false} TotalLengthBounds(parts: seq<string>, lo: nat, hi: nat)
    requires forall i :: 0 <= i < |parts| ==> lo <= |parts[i]| <= hi
    ensures |parts| * lo <= TotalLength(parts) <= |parts| * hi
  {
    if |parts| > 0 {
      TotalLengthBounds(parts[1..], lo, hi);
    }
  }

  /** The separator after a separator-free prefix is the first one. */
  lemma FirstSeparator(x: string, y: string, sep: char)
    requires sep !in x
    ensures (x + [sep] + y)[|x|] == sep
    ensures forall i :: 0 <= i < |x| ==> (x + [sep] + y)[i] != sep
  {
    assert forall i :: 0 <= i < |x| ==> (x + [sep] + y)[i] == x[i];
  }

  /** Splitting at the first separator: the part before it cannot be chosen two ways. */
  lemma SplitFirst(x: string, y: string, x': string, y': string, sep: char)
    requires sep !in x && sep !in x'
    requires x + [sep] + y == x' + [sep] + y'
    ensures x == x' && y == y'
  {
    var s := x + [sep] + y;
    FirstSeparator(x, y, sep);
    FirstSeparator(x', y', sep);
    assert |x| == |x'|;
    assert x == s[..|x|] == x';
    assert y == s[|x| + 1..] == y';
  }

  /** Fields free of the separator can be recovered from their join. */
  lemma {:induction false} JoinInjective(ps: seq<string>, qs: seq<string>, sep: char)
    requires |ps| == |qs|
    requires forall i :: 0 <= i < |ps| ==> sep !in ps[i] && sep !in qs[i]
    requires Join(ps, sep) == Join(qs, sep)
    ensures ps == qs
  {
    if |ps| > 1 {
      SplitFirst(ps[0], Join(ps[1..], sep), qs[0], Join(qs[1..], sep), sep);
      JoinInjective(ps[1..], qs[1..], sep);
      assert ps == [ps[0]] + ps[1..];
      assert qs == [qs[0]] + qs[1..];
    }
  }

  /** A join ends where its last field ends. */
  lemma {:induction false} JoinLast(parts: seq<string>, sep: char)
    requires 1 <= |parts| && parts[|parts| - 1] != []
    ensures var s := Join(parts, sep); var l := parts[|parts| - 1];
      s != [] && s[|s| - 1] == l[|l| - 1]
  {
    if |parts| > 1 {
      JoinLast(parts[1..], sep);
    }
  }

  lemma {:induction false} JoinFixedLength(ps: seq<string>, sep: char, width: nat)
    requires 1 <= |ps|
    requires forall i :: 0 <= i < |ps| ==> |ps[i]| == width
    ensures |Join(ps, sep)| + 1 == |ps| * (width + 1)
  {
    if |ps| > 1 {
      JoinFixedLength(ps[1..], sep, width);
    }
  }

  /** Fields of one fixed width sit at fixed columns of their join, `step` = width + 1 apart. */
  lemma {:induction false} JoinFixedWidth(ps: seq<string>, sep: char, width: nat, step: nat, k: nat)
    requires step == width + 1 && k < |ps|
    requires forall i :: 0 <= i < |ps| ==> |ps[i]| == width
    ensures k * step + width <= |Join(ps, sep)|
    ensures k + 1 < |ps| ==> k * step + width < |Join(ps, sep)|
    ensures Join(ps, sep)[k * step..k * step + width] == ps[k]
    ensures k + 1 < |ps| ==> Join(ps, sep)[k * step + width] == sep
  {
    var s := Join(ps, sep);
    if |ps| > 1 {
      var head, rest := ps[0] + [sep], Join(ps[1..], sep);
      assert s == head + rest && |head| == step;
      if k > 0 {
        JoinFixedWidth(ps[1..], sep, width, step, k - 1);
        var o := (k - 1) * step;
        assert k * step == step + o;
        SliceAfter(head, rest, o, o + width);
      }
    }
  }

  /** A slice beyond a prefix is a slice of the rest. */
  lemma SliceAfter(a: string, b: string, i: nat, j: nat)
    requires i <= j <= |b|
    ensures (a + b)[|a| + i..|a| + j] == b[i..j]
    ensures j < |b| ==> (a + b)[|a| + j] == b[j]
  {
  }

  /**
   * Splitting text at every `sep`: the reading a consumer of the printed text
   * applies. There is one field more than there are separators.
   */
  function Fields(s: string, sep: char): (fs: seq<string>)
    ensures |fs| >= 1
    ensures forall i :: 0 <= i < |fs| ==> sep !in fs[i]
  {
    if s == [] then [""]
    else
      var rest := Fields(s[1..], sep);
      if s[0] == sep then [""] + rest
      else [[s[0]] + rest[0]] + rest[1..]
  }

  /** Joining the fields of any text gives the text back. */
  lemma {:induction false} JoinFields(s: string, sep: char)
    ensures Join(Fields(s, sep), sep) == s
  {
    if s != [] {
      var rest := Fields(s[1..], sep);
      JoinFields(s[1..], sep);
      if s[0] == sep {
        assert ([""] + rest)[1..] == rest;
      } else {
        JoinConsHead(s[0], rest, sep);
      }
      assert s == [s[0]] + s[1..];
    }
  }

  lemma JoinConsHead(c: char, parts: seq<string>, sep: char)
    requires |parts| >= 1
    ensures Join([[c] + parts[0]] + parts[1..], sep) == [c] + Join(parts, sep)
  {
    var ps := [[c] + parts[0]] + parts[1..];
    assert ps[1..] == parts[1..];
  }

  /** Fields free of the separator are read back from their join, one for one. */
  lemma {:induction false} FieldsJoin(parts: seq<string>, sep: char)
    requires |parts| >= 1
    requires forall i :: 0 <= i < |parts| ==> sep !in parts[i]
    ensures Fields(Join(parts, sep), sep) == parts
  {
    if |parts| == 1 {
      FieldsPrefix(parts[0], "", sep);
      assert parts[0] + "" == parts[0];
    } else {
      var rest := Join(parts[1..], sep);
      FieldsJoin(parts[1..], sep);
      var tail := [sep] + rest;
      assert tail[1..] == rest;
      var f := Fields(tail, sep);
      assert f == [""] + parts[1..];
      assert f[0] == "" && f[1..] == parts[1..];
      FieldsPrefix(parts[0], tail, sep);
      assert parts[0] + [sep] + rest == parts[0] + tail;
      assert parts[0] + f[0] == parts[0];
      assert parts == [parts[0]] + parts[1..];
    }
  }

  /** A separator-free prefix becomes the start of the first field. */
  lemma {:induction false} FieldsPrefix(x: string, y: string, sep: char)
    requires sep !in x
    ensures Fields(x + y, sep) == [x + Fields(y, sep)[0]] + Fields(y, sep)[1..]
  {
    if x != [] {
      FieldsPrefix(x[1..], y, sep);
      assert (x + y)[1..] == x[1..] + y;
      assert [x[0]] + (x[1..] + Fields(y, sep)[0]) == x + Fields(y, sep)[0];
    } else {
      var f := Fields(y, sep);
      assert x + y == y;
      assert x + f[0] == f[0];
      assert f == [f[0]] + f[1..];
    }
  }

  /**
   * `std::string::compare` reduced to its sign: -1, 0 or 1 as `a` is
   * lexicographically before, equal to or after `b` (a proper prefix comes first).
   */
  function Compare(a: string, b: string): int
  {
    if a == [] then (if b == [] then 0 else -1)
    else if b == [] then 1
    else if a[0] < b[0] then -1
    else if a[0] > b[0] then 1
    else Compare(a[1..], b[1..])
  }

  lemma {:induction false} CompareProperties(a: string, b: string)
    ensures -1 <= Compare(a, b) <= 1
    ensures Compare(a, b) == 0 <==> a == b
    ensures Compare(b, a) == -Compare(a, b)
  {
    if a != [] && b != [] && a[0] == b[0] {
      CompareProperties(a[1..], b[1..]);
      assert a == [a[0]] + a[1..];
      assert b == [b[0]] + b[1..];
    }
  }

  lemma {:induction false} CompareTransitive(a: string, b: string, c: string)
    requires Compare(a, b) < 0 && Compare(b, c) < 0
    ensures Compare(a, c) < 0
  {
    if a != [] && b != [] && c != [] && a[0] == b[0] == c[0] {
      CompareTransitive(a[1..], b[1..], c[1..]);
    }
  }

  /** Comparing two strings that start with equally long pieces decides on those pieces first. */
  lemma {:induction false} CompareConcat(p: string, s: string, q: string, t: string)
    requires |p| == |q|
    ensures Compare(p + s, q + t) == if p != q then Compare(p, q) else Compare(s, t)
  {
    if p != [] {
      assert (p + s)[1..] == p[1..] + s;
      assert (q + t)[1..] == q[1..] + t;
      if p[0] == q[0] {
        CompareConcat(p[1..], s, q[1..], t);
        assert p == [p[0]] + p[1..];
        assert q == [q[0]] + q[1..];
      }
    } else {
      assert p + s == s && q + t == t;
    }
  }
}
