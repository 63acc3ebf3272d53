/**
 * The few pieces of Python string behaviour and SQLite text comparison that
 * the application relies on: `str.isspace`, `str.strip`, `str.split` on one
 * character, `int()` on a date field, and the BINARY collation that
 * `ORDER BY` and `BETWEEN` use on TEXT columns.
 */
module Text {
  import opened Wrappers
  import Decimal

  /** Python's `str.isspace()` for one character. */
  predicate IsSpace(c: char) {
    || ('\t' <= c <= '\r')                // tab, line feed, vertical tab, form feed, carriage return
    || ('\U{1c}' <= c <= '\U{1f}')        // file, group, record and unit separators
    || c == ' ' || c == '\U{85}' || c == '\U{a0}' || c == '\U{1680}'
    || ('\U{2000}' <= c <= '\U{200a}')
    || c == '\U{2028}' || c == '\U{2029}' || c == '\U{202f}' || c == '\U{205f}' || c == '\U{3000}'
  }

  predicate AllSpace(s: string) {
    forall i :: 0 <= i < |s| ==> IsSpace(s[i])
  }

  /** Python's `str.lstrip()`: drops leading white space. */
  function TrimLeft(s: string): (r: string)
    ensures |r| <= |s|
  {
    if s != [] && IsSpace(s[0]) then TrimLeft(s[1..]) else s
  }

  /** Python's `str.rstrip()`: drops trailing white space. */
  function TrimRight(s: string): (r: string)
    ensures |r| <= |s|
  {
    if s != [] && IsSpace(s[|s| - 1]) then TrimRight(s[..|s| - 1]) else s
  }

  /** `lstrip` keeps a suffix, removes only white space, and stops at the first other character. */
  lemma {:induction false} TrimLeftSpec(s: string)
    ensures var r := TrimLeft(s);
      && r == s[|s| - |r|..]
      && AllSpace(s[..|s| - |r|])
      && (r == [] || !IsSpace(r[0]))
  {
    if s != [] && IsSpace(s[0]) {
      TrimLeftSpec(s[1..]);
      var r := TrimLeft(s);
      assert s[..|s| - |r|] == [s[0]] + s[1..][..|s| - 1 - |r|];
    }
  }

  /** `rstrip` keeps a prefix, removes only white space, and stops at the last other character. */
  lemma {:induction false} TrimRightSpec(s: string)
    ensures var r := TrimRight(s);
      && r == s[..|r|]
      && AllSpace(s[|r|..])
      && (r == [] || !IsSpace(r[|r| - 1]))
  {
    if s != [] && IsSpace(s[|s| - 1]) {
      TrimRightSpec(s[..|s| - 1]);
      var r := TrimRight(s);
      assert s[|r|..] == s[..|s| - 1][|r|..] + [s[|s| - 1]];
    }
  }

  /** Python's `str.strip()` with no argument. */
  function Strip(s: string): (r: string)
  {
    TrimRight(TrimLeft(s))
  }

  /** Where the text that `strip` keeps starts in its input. */
  function StripStart(s: string): nat
  {
    |s| - |TrimLeft(s)|
  }

  /**
   * What `strip` keeps: one contiguous slice of the input, everything around
   * it is white space, and the slice neither starts nor ends with white space.
   */
  lemma StripSlice(s: string)
    ensures StripStart(s) + |Strip(s)| <= |s|
    ensures Strip(s) == s[StripStart(s)..StripStart(s) + |Strip(s)|]
    ensures AllSpace(s[..StripStart(s)]) && AllSpace(s[StripStart(s) + |Strip(s)|..])
    ensures Strip(s) == [] || (!IsSpace(Strip(s)[0]) && !IsSpace(Strip(s)[|Strip(s)| - 1]))
  {
    var l := TrimLeft(s);
    var r := TrimRight(l);
    var i := |s| - |l|;
    TrimLeftSpec(s);
    TrimRightSpec(l);
    assert l == s[i..];
    assert r == l[..|r|];
    assert r == s[i..i + |r|];
    assert s[i + |r|..] == l[|r|..];
    if r != [] {
      assert r[0] == l[0];
    }
  }

  /** The stripped text is empty exactly when the input is all white space. */
  lemma StripEmptyIff(s: string)
    ensures Strip(s) == [] <==> AllSpace(s)
  {
    var l := TrimLeft(s);
    TrimLeftSpec(s);
    TrimRightSpec(l);
    if AllSpace(s) {
      assert AllSpace(l);
    } else {
      var k :| 0 <= k < |s| && !IsSpace(s[k]);
      assert k >= |s| - |l|;
      assert l != [] && !IsSpace(l[0]);
    }
  }

  /** Stripping twice is stripping once. */
  lemma StripIdempotent(s: string)
    ensures Strip(Strip(s)) == Strip(s)
  {
    var r := Strip(s);
    StripSlice(s);
    if r != [] {
      assert TrimLeft(r) == r;
      TrimLeftSpec(r);
      assert TrimRight(r) == r;
    }
  }

  // ---------------------------------------------------------------------
  // str.split(sep) on a single separator character

  function IndexOf(s: string, c: char): (k: nat)
    requires c in s
    ensures k < |s| && s[k] == c && c !in s[..k]
  {
    if s[0] == c then 0 else 1 + IndexOf(s[1..], c)
  }

  /** Python's `s.split(sep)`: the pieces between separators, empty pieces included. */
  function Split(s: string, sep: char): (parts: seq<string>)
    ensures |parts| >= 1
    ensures forall i :: 0 <= i < |parts| ==> sep !in parts[i]
    decreases |s|
  {
    if sep !in s then [s]
    else
      var k := IndexOf(s, sep);
      [s[..k]] + Split(s[k + 1..], sep)
  }

  /** `sep.join(parts)`, the inverse of `Split`. */
  function Join(parts: seq<string>, sep: char): string
    requires |parts| >= 1
  {
    if |parts| == 1 then parts[0] else parts[0] + [sep] + Join(parts[1..], sep)
  }

  lemma {:induction false} SplitJoin(s: string, sep: char)
    ensures Join(Split(s, sep), sep) == s
    decreases |s|
  {
    if sep in s {
      var k := IndexOf(s, sep);
      SplitJoin(s[k + 1..], sep);
      assert s == s[..k] + [sep] + s[k + 1..];
    }
  }

  lemma {:induction false} IndexOfAfter(a: string, b: string, sep: char)
    requires sep !in a
    ensures IndexOf(a + [sep] + b, sep) == |a|
  {
    if a != [] {
      assert (a + [sep] + b)[1..] == a[1..] + [sep] + b;
      IndexOfAfter(a[1..], b, sep);
    }
  }

  lemma {:induction false} JoinSplit(parts: seq<string>, sep: char)
    requires |parts| >= 1
    requires forall i :: 0 <= i < |parts| ==> sep !in parts[i]
    ensures Split(Join(parts, sep), sep) == parts
  {
    if |parts| > 1 {
      var rest := Join(parts[1..], sep);
      var s := parts[0] + [sep] + rest;
      assert sep !in parts[0];
      assert s[|parts[0]|] == sep;
      IndexOfAfter(parts[0], rest, sep);
      assert s[..|parts[0]|] == parts[0];
      assert s[|parts[0]| + 1..] == rest;
      JoinSplit(parts[1..], sep);
      assert Split(s, sep) == [parts[0]] + Split(rest, sep);
      assert parts == [parts[0]] + parts[1..];
    }
  }

  // ---------------------------------------------------------------------
  // Python's int() on a piece of a date string

  /**
   * Python's `int(s)` in base 10, restricted to what can reach it after a
   * split on '-': surrounding white space, an optional '+', then ASCII digits.
   * `None` stands for the `ValueError` the source catches.
   */
  function ParseInt(s: string): (r: Option<nat>)
    ensures r.Some? ==> Strip(s) != []
  {
    var t := Strip(s);
    var u := if t != [] && t[0] == '+' then t[1..] else t;
    if u != [] && Decimal.AllDigits(u) then Some(Decimal.ValueOf(u)) else None
  }

  lemma ParsePadded(n: nat, w: nat)
    requires n < Decimal.Pow10(w) && w >= 1
    ensures ParseInt(Decimal.Padded(n, w)) == Some(n)
  {
    var s := Decimal.Padded(n, w);
    assert TrimLeft(s) == s by { assert !IsSpace(s[0]); }
    assert TrimRight(s) == s by { assert !IsSpace(s[|s| - 1]); }
    Decimal.PaddedValue(n, w);
  }

  /** `int(str(n))` gives `n` back for every `n >= 0`. */
  lemma ParseNatString(n: nat)
    ensures ParseInt(Decimal.NatToString(n)) == Some(n)
  {
    var s := Decimal.NatToString(n);
    Decimal.NatToStringValue(n);
    assert TrimLeft(s) == s by { assert !IsSpace(s[0]); }
    assert TrimRight(s) == s by { assert !IsSpace(s[|s| - 1]); }
  }

  // ---------------------------------------------------------------------
  // SQLite BINARY collation: code-point-wise lexicographic order

  /** `a <= b` under SQLite's BINARY collation (UTF-8 byte order is code point order). */
  predicate StrLe(a: string, b: string) {
    if a == [] then true
    else if b == [] then false
    else if a[0] != b[0] then a[0] < b[0]
    else StrLe(a[1..], b[1..])
  }

  lemma StrLeRefl(a: string)
    ensures StrLe(a, a)
  {
  }

  lemma {:induction false} StrLeTotal(a: string, b: string)
    ensures StrLe(a, b) || StrLe(b, a)
  {
    if a != [] && b != [] && a[0] == b[0] {
      StrLeTotal(a[1..], b[1..]);
    }
  }

  lemma {:induction false} StrLeAntisym(a: string, b: string)
    requires StrLe(a, b) && StrLe(b, a)
    ensures a == b
  {
    if a != [] && b != [] {
      StrLeAntisym(a[1..], b[1..]);
      assert a == [a[0]] + a[1..] && b == [b[0]] + b[1..];
    }
  }

  lemma {:induction false} StrLeTrans(a: string, b: string, c: string)
    requires StrLe(a, b) && StrLe(b, c)
    ensures StrLe(a, c)
  {
    if a != [] && b != [] && c != [] && a[0] == b[0] && b[0] == c[0] {
      StrLeTrans(a[1..], b[1..], c[1..]);
    }
  }

  /** Comparing two concatenations whose first parts have the same length. */
  lemma {:induction false} StrLeConcat(a1: string, a2: string, b1: string, b2: string)
    requires |a1| == |b1|
    ensures StrLe(a1 + a2, b1 + b2) <==> (a1 != b1 && StrLe(a1, b1)) || (a1 == b1 && StrLe(a2, b2))
  {
    if a1 == [] {
      assert a1 + a2 == a2 && b1 + b2 == b2;
    } else {
      var x, y := a1 + a2, b1 + b2;
      assert x[0] == a1[0] && y[0] == b1[0];
      if a1[0] != b1[0] {
        assert a1 != b1;
        assert StrLe(x, y) <==> a1[0] < b1[0];
      } else {
        assert x[1..] == a1[1..] + a2 && y[1..] == b1[1..] + b2;
        StrLeConcat(a1[1..], a2, b1[1..], b2);
        assert StrLe(a1, b1) <==> StrLe(a1[1..], b1[1..]);
        assert StrLe(x, y) <==> StrLe(x[1..], y[1..]);
        assert a1 == b1 <==> a1[1..] == b1[1..] by {
          assert a1 == [a1[0]] + a1[1..] && b1 == [b1[0]] + b1[1..];
        }
      }
    }
  }

  /** Fixed-width zero-padded numbers compare as text exactly as they compare as numbers. */
  lemma {:induction false} PaddedOrder(x: nat, y: nat, w: nat)
    requires x < Decimal.Pow10(w) && y < Decimal.Pow10(w)
    ensures StrLe(Decimal.Padded(x, w), Decimal.Padded(y, w)) <==> x <= y
  {
    if w > 0 {
      var hx, hy := Decimal.Padded(x / 10, w - 1), Decimal.Padded(y / 10, w - 1);
      var dx, dy := Decimal.DigitChar(x % 10), Decimal.DigitChar(y % 10);
      assert x / 10 < Decimal.Pow10(w - 1) && y / 10 < Decimal.Pow10(w - 1);
      PaddedOrder(x / 10, y / 10, w - 1);
      Decimal.PaddedInjective(x / 10, y / 10, w - 1);
      StrLeConcat(hx, [dx], hy, [dy]);
      assert StrLe([dx], [dy]) <==> x % 10 <= y % 10 by {
        assert [dx][1..] == [] && [dy][1..] == [];
      }
    }
  }
}
