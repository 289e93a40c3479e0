/**
 * The string operations the JavaScript source relies on: `toLowerCase`,
 * `toUpperCase`, `trim`, `includes`, `join`, `split(' ')` and the decimal
 * rendering of a count.  Case mapping covers ASCII letters only; `trim`
 * removes exactly the characters ECMAScript counts as white space or line
 * terminators.
 */
module Text {

  // ---------------------------------------------------------------- case

  function LowerChar(c: char): char {
    if 'A' <= c <= 'Z' then (c as int + 32) as char else c
  }

  function UpperChar(c: char): char {
    if 'a' <= c <= 'z' then (c as int - 32) as char else c
  }

  /** `s.toLowerCase()` over ASCII. */
  function Lower(s: string): string {
    if s == [] then [] else [LowerChar(s[0])] + Lower(s[1..])
  }

  /** `s.toUpperCase()` over ASCII. */
  function Upper(s: string): string {
    if s == [] then [] else [UpperChar(s[0])] + Upper(s[1..])
  }

  /** Case mapping keeps the length and maps each character on its own. */
  lemma {:induction false} LowerSpec(s: string)
    ensures |Lower(s)| == |s|
    ensures forall i :: 0 <= i < |s| ==> Lower(s)[i] == LowerChar(s[i])
  {
    if s != [] {
      LowerSpec(s[1..]);
    }
  }

  lemma {:induction false} UpperSpec(s: string)
    ensures |Upper(s)| == |s|
    ensures forall i :: 0 <= i < |s| ==> Upper(s)[i] == UpperChar(s[i])
  {
    if s != [] {
      UpperSpec(s[1..]);
    }
  }

  /** Lower-casing forgets the case a string was written in: upper-casing first
      changes nothing, and lower-casing twice is lower-casing once. */
  lemma {:induction false} LowerForgetsCase(s: string)
    ensures Lower(Upper(s)) == Lower(s)
    ensures Lower(Lower(s)) == Lower(s)
  {
    if s != [] {
      LowerForgetsCase(s[1..]);
      assert Upper(s)[1..] == Upper(s[1..]);
      assert Lower(s)[1..] == Lower(s[1..]);
    }
  }

  // ---------------------------------------------------------------- trim

  /** ECMAScript WhiteSpace and LineTerminator code points (what `trim` strips). */
  predicate IsSpace(c: char) {
    var n := c as int;
    n == 0x09 || n == 0x0A || n == 0x0B || n == 0x0C || n == 0x0D || n == 0x20
    || n == 0xA0 || n == 0x1680 || (0x2000 <= n <= 0x200A) || n == 0x2028 || n == 0x2029
    || n == 0x202F || n == 0x205F || n == 0x3000 || n == 0xFEFF
  }

  function TrimStart(s: string): string {
    if s != [] && IsSpace(s[0]) then TrimStart(s[1..]) else s
  }

  function TrimEnd(s: string): string {
    if s != [] && IsSpace(s[|s| - 1]) then TrimEnd(s[..|s| - 1]) else s
  }

  /** `trimStart` removes a prefix of white space and stops at the first other character. */
  lemma {:induction false} TrimStartSpec(s: string)
    ensures var r := TrimStart(s);
            |r| <= |s| && r == s[|s| - |r|..]
            && (r != [] ==> !IsSpace(r[0]))
            && forall i :: 0 <= i < |s| - |r| ==> IsSpace(s[i])
  {
    if s != [] && IsSpace(s[0]) {
      TrimStartSpec(s[1..]);
    }
  }

  /** `trimEnd` removes a suffix of white space and stops at the last other character. */
  lemma {:induction false} TrimEndSpec(s: string)
    ensures var r := TrimEnd(s);
            |r| <= |s| && r == s[..|r|]
            && (r != [] ==> !IsSpace(r[|r| - 1]))
            && forall i :: |r| <= i < |s| ==> IsSpace(s[i])
  {
    if s != [] && IsSpace(s[|s| - 1]) {
      TrimEndSpec(s[..|s| - 1]);
    }
  }

  /** `s.trim()`. */
  function Trim(s: string): string {
    TrimEnd(TrimStart(s))
  }

  /** A string trims to nothing exactly when every character of it is white space. */
  lemma TrimEmptyIffAllSpace(s: string)
    ensures Trim(s) == "" <==> forall i :: 0 <= i < |s| ==> IsSpace(s[i])
  {
    var t := TrimStart(s);
    TrimStartSpec(s);
    TrimEndSpec(t);
    if Trim(s) == "" {
      assert t == [];
    } else {
      var r := Trim(s);
      assert r == t[..|r|];
      assert !IsSpace(r[0]);
      assert s[|s| - |t|] == t[0] == r[0];
    }
  }

  /** `s.toLowerCase().trim()`: the normal form the matchers compare. */
  function Norm(s: string): string {
    Trim(Lower(s))
  }

  // ---------------------------------------------------------------- includes

  /** `s.includes(t)`: `t` occurs in `s` as a contiguous block. */
  function Contains(s: string, t: string): bool
    decreases |s|
  {
    |t| <= |s| && (s[..|t|] == t || Contains(s[1..], t))
  }

  /** `t` occurs in `s` starting at position `i`. */
  ghost predicate OccursAt(s: string, t: string, i: int) {
    0 <= i && i + |t| <= |s| && s[i..i + |t|] == t
  }

  /** `Contains` agrees with the textbook definition by a starting position. */
  lemma {:induction false} ContainsAt(s: string, t: string)
    ensures Contains(s, t) <==> exists i :: OccursAt(s, t, i)
    decreases |s|
  {
    if |t| <= |s| {
      if s[..|t|] != t {
        ContainsAt(s[1..], t);
        forall i | OccursAt(s[1..], t, i) ensures OccursAt(s, t, i + 1) {
          assert s[i + 1..i + 1 + |t|] == s[1..][i..i + |t|];
        }
        forall i | OccursAt(s, t, i) ensures OccursAt(s[1..], t, i - 1) {
          assert s[0..0 + |t|] == s[..|t|];
          assert s[1..][i - 1..i - 1 + |t|] == s[i..i + |t|];
        }
      } else {
        assert s[0..0 + |t|] == t;
        assert OccursAt(s, t, 0);
      }
    }
  }

  /** The empty string occurs in every string (why a blank domain matches everything). */
  lemma ContainsEmpty(s: string)
    ensures Contains(s, "")
  {
    assert s[..0] == "";
  }

  lemma ContainsPrefix(a: string, b: string)
    ensures Contains(a + b, a)
  {
    assert (a + b)[..|a|] == a;
  }

  lemma {:induction false} ContainsExtendLeft(p: string, s: string, t: string)
    requires Contains(s, t)
    ensures Contains(p + s, t)
    decreases |p|
  {
    if p == [] {
      assert p + s == s;
    } else {
      ContainsExtendLeft(p[1..], s, t);
      assert (p + s)[1..] == p[1..] + s;
      assert Contains((p + s)[1..], t);
      assert |t| <= |s|;
    }
  }

  lemma {:induction false} ContainsExtendRight(s: string, t: string, q: string)
    requires Contains(s, t)
    ensures Contains(s + q, t)
    decreases |s|
  {
    if s[..|t|] == t {
      assert (s + q)[..|t|] == t;
    } else {
      ContainsExtendRight(s[1..], t, q);
      assert (s + q)[1..] == s[1..] + q;
    }
  }

  // ---------------------------------------------------------------- join / split

  /** `xs.join(sep)`. */
  function Join(xs: seq<string>, sep: string): string {
    if |xs| == 0 then "" else if |xs| == 1 then xs[0] else xs[0] + sep + Join(xs[1..], sep)
  }

  /** Every joined element can be found in the joined text. */
  lemma {:induction false} JoinContainsEach(xs: seq<string>, sep: string, k: nat)
    requires k < |xs|
    ensures Contains(Join(xs, sep), xs[k])
  {
    if |xs| == 1 {
      ContainsPrefix(xs[0], "");
      assert xs[0] + "" == xs[0];
    } else if k == 0 {
      ContainsPrefix(xs[0], sep + Join(xs[1..], sep));
      assert xs[0] + sep + Join(xs[1..], sep) == xs[0] + (sep + Join(xs[1..], sep));
    } else {
      JoinContainsEach(xs[1..], sep, k - 1);
      ContainsExtendLeft(xs[0] + sep, Join(xs[1..], sep), xs[k]);
    }
  }

  /** `s.split(c)` for a one-character separator: always at least one piece. */
  function Split(s: string, c: char): (r: seq<string>)
    ensures |r| >= 1
  {
    if s == [] then [""]
    else
      var rest := Split(s[1..], c);
      if s[0] == c then [""] + rest else [[s[0]] + rest[0]] + rest[1..]
  }

  /** Splitting loses nothing: joining the pieces back with the separator gives `s`,
      and no piece contains the separator. */
  lemma {:induction false} SplitJoin(s: string, c: char)
    ensures Join(Split(s, c), [c]) == s
    ensures forall k :: 0 <= k < |Split(s, c)| ==> c !in Split(s, c)[k]
  {
    if s != [] {
      var rest := Split(s[1..], c);
      SplitJoin(s[1..], c);
      if s[0] == c {
        assert Split(s, c) == [""] + rest;
        assert (["" ] + rest)[1..] == rest;
      } else {
        var r := Split(s, c);
        assert r == [[s[0]] + rest[0]] + rest[1..];
        if |rest| == 1 {
          assert Join(r, [c]) == [s[0]] + rest[0];
        } else {
          assert r[1..] == rest[1..];
          assert Join(rest, [c]) == rest[0] + [c] + Join(rest[1..], [c]);
        }
        assert s == [s[0]] + s[1..];
        forall k | 0 <= k < |r| ensures c !in r[k] {
          if k > 0 { assert r[k] == rest[k]; }
        }
      }
    }
  }

  /** A text without the separator is a single piece. */
  lemma {:induction false} SplitWithoutSeparator(a: string, c: char)
    requires c !in a
    ensures Split(a, c) == [a]
  {
    if a != [] {
      SplitWithoutSeparator(a[1..], c);
      assert [a[0]] + a[1..] == a;
    }
  }

  /** Splitting at the first separator: the text before it is the first piece. */
  lemma {:induction false} SplitAtFirst(a: string, b: string, c: char)
    requires c !in a
    ensures Split(a + [c] + b, c) == [a] + Split(b, c)
  {
    if a == [] {
      assert (a + [c] + b)[1..] == b;
    } else {
      SplitAtFirst(a[1..], b, c);
      assert (a + [c] + b)[1..] == a[1..] + [c] + b;
      assert [a[0]] + a[1..] == a;
    }
  }

  // ---------------------------------------------------------------- digits

  predicate IsDigit(c: char) {
    '0' <= c <= '9'
  }

  /** The regular expression `^[0-9]{10}$`. */
  predicate IsTenDigits(s: string) {
    |s| == 10 && forall i :: 0 <= i < |s| ==> IsDigit(s[i])
  }

  function DigitChar(d: nat): char
    requires d < 10
  {
    ('0' as int + d) as char
  }

  /** `String(n)` for a natural number: its decimal digits, without leading zeros. */
  function Decimal(n: nat): (r: string)
    ensures |r| >= 1 && forall i :: 0 <= i < |r| ==> IsDigit(r[i])
    ensures n > 0 ==> r[0] != '0'
  {
    if n < 10 then [DigitChar(n)] else Decimal(n / 10) + [DigitChar(n % 10)]
  }

  /** Reading a run of decimal digits back as a number. */
  function ParseDecimal(s: string): int
    requires forall i :: 0 <= i < |s| ==> IsDigit(s[i])
  {
    if s == [] then 0 else 10 * ParseDecimal(s[..|s| - 1]) + (s[|s| - 1] as int - '0' as int)
  }

  /** The decimal rendering of a count reads back as that count. */
  lemma {:induction false} DecimalRoundTrip(n: nat)
    ensures ParseDecimal(Decimal(n)) == n
  {
    if n >= 10 {
      DecimalRoundTrip(n / 10);
      var r := Decimal(n);
      assert r[..|r| - 1] == Decimal(n / 10);
    }
  }
}
