/** The string operations the tools rely on: `str(n)` of a non-negative
    integer, Python's string ordering, `str.split(',')`, the substring test
    `v in label`, and the interaction labels built with `'{}{}'.format`. */
module Text {
  import Sorting

  // ---------------------------------------------------------------- decimals

  function DigitChar(d: nat): (c: char)
    requires d < 10
    ensures '0' <= c <= '9'
  {
    "0123456789"[d]
  }

  predicate IsDigit(c: char) {
    '0' <= c <= '9'
  }

  function DigitValue(c: char): nat
    requires IsDigit(c)
  {
    (c as int - '0' as int) as nat
  }

  /** `str(n)` for a non-negative integer. */
  function NatToString(n: nat): (s: string)
    ensures |s| >= 1
    ensures forall i | 0 <= i < |s| :: IsDigit(s[i])
  {
    if n < 10 then [DigitChar(n)] else NatToString(n / 10) + [DigitChar(n % 10)]
  }

  /** `int(s)` for a string of decimal digits. */
  function ParseNat(s: string): nat
    requires forall i | 0 <= i < |s| :: IsDigit(s[i])
  {
    if s == [] then 0 else ParseNat(s[..|s| - 1]) * 10 + DigitValue(s[|s| - 1])
  }

  lemma {:induction false} ParseNatToString(n: nat)
    ensures ParseNat(NatToString(n)) == n
  {
    var s := NatToString(n);
    if n < 10 {
      assert s[..0] == [];
    } else {
      assert s[..|s| - 1] == NatToString(n / 10);
      ParseNatToString(n / 10);
    }
  }

  lemma NatToStringInjective(m: nat, n: nat)
    requires NatToString(m) == NatToString(n)
    ensures m == n
  {
    ParseNatToString(m);
    ParseNatToString(n);
  }

  // ------------------------------------------------------- interaction labels

  /** `'{}{}{}'.format(prefix, id, '_cross' if cross else '')`. */
  function Label(prefix: string, id: nat, cross: bool): (s: string)
    ensures |s| > |prefix| && s[..|prefix|] == prefix
  {
    prefix + NatToString(id) + (if cross then "_cross" else "")
  }

  /** Two groups get the same label only if they are the same group, so a
      label never names two registered interactions. */
  lemma LabelInjective(prefix: string, id1: nat, cross1: bool, id2: nat, cross2: bool)
    requires Label(prefix, id1, cross1) == Label(prefix, id2, cross2)
    ensures id1 == id2 && cross1 == cross2
  {
    var s := Label(prefix, id1, cross1);
    var d1, d2 := NatToString(id1), NatToString(id2);
    assert s[|s| - 1] == (if cross1 then 's' else d1[|d1| - 1]);
    assert s[|s| - 1] == (if cross2 then 's' else d2[|d2| - 1]);
    assert cross1 == cross2;
    var k := if cross1 then 6 else 0;
    assert d1 == s[|prefix|..|s| - k];
    assert d2 == s[|prefix|..|s| - k];
    NatToStringInjective(id1, id2);
  }

  // ----------------------------------------------------- Python string order

  /** Python's `a < b` on strings: lexicographic by character, a proper
      prefix first. */
  predicate StrLess(a: string, b: string) {
    if |a| == 0 then |b| > 0
    else if |b| == 0 then false
    else if a[0] != b[0] then a[0] < b[0]
    else StrLess(a[1..], b[1..])
  }

  lemma {:induction false} StrLessIrreflexive(a: string)
    ensures !StrLess(a, a)
  {
    if |a| > 0 {
      StrLessIrreflexive(a[1..]);
    }
  }

  lemma {:induction false} StrLessTransitive(a: string, b: string, c: string)
    requires StrLess(a, b) && StrLess(b, c)
    ensures StrLess(a, c)
  {
    if |a| > 0 && a[0] == b[0] && b[0] == c[0] {
      StrLessTransitive(a[1..], b[1..], c[1..]);
    }
  }

  lemma {:induction false} StrLessTotal(a: string, b: string)
    ensures a == b || StrLess(a, b) || StrLess(b, a)
  {
    if |a| > 0 && |b| > 0 && a[0] == b[0] {
      StrLessTotal(a[1..], b[1..]);
      if a[1..] == b[1..] {
        assert a == [a[0]] + a[1..] && b == [b[0]] + b[1..];
      }
    }
  }

  lemma StrLessAsymmetric(a: string, b: string)
    requires StrLess(a, b)
    ensures !StrLess(b, a)
  {
    if StrLess(b, a) {
      StrLessTransitive(a, b, a);
      StrLessIrreflexive(a);
    }
  }

  lemma StrLessStrictTotal(s: set<string>)
    ensures Sorting.StrictTotalOn(StrLess, s)
  {
    forall a | a in s ensures !StrLess(a, a) {
      StrLessIrreflexive(a);
    }
    forall a, b, c | a in s && b in s && c in s && StrLess(a, b) && StrLess(b, c)
      ensures StrLess(a, c)
    {
      StrLessTransitive(a, b, c);
    }
    forall a, b | a in s && b in s ensures a == b || StrLess(a, b) || StrLess(b, a) {
      StrLessTotal(a, b);
    }
  }

  // ---------------------------------------------------------- split and join

  /** `s.split(sep)` with an explicit one-character separator. */
  function Split(s: string, sep: char): (r: seq<string>)
    ensures |r| >= 1
    ensures forall k | 0 <= k < |r| :: sep !in r[k]
    ensures Join(r, sep) == s
  {
    if s == [] then [""]
    else if s[0] == sep then
      var rest := Split(s[1..], sep);
      assert [s[0]] + Join(rest, sep) == s;
      [""] + rest
    else
      var rest := Split(s[1..], sep);
      var r := [[s[0]] + rest[0]] + rest[1..];
      JoinHead(rest, sep);
      JoinHead(r, sep);
      assert s == [s[0]] + s[1..];
      r
  }

  /** `sep.join(parts)`. */
  function Join(parts: seq<string>, sep: char): string
    requires |parts| >= 1
  {
    if |parts| == 1 then parts[0] else parts[0] + [sep] + Join(parts[1..], sep)
  }

  lemma JoinHead(parts: seq<string>, sep: char)
    requires |parts| >= 1
    ensures Join(parts, sep) == parts[0] + (if |parts| == 1 then "" else [sep] + Join(parts[1..], sep))
  {
  }

  /** Splitting the joined parts gives the parts back when no part holds
      the separator. */
  lemma {:induction false} SplitJoin(parts: seq<string>, sep: char)
    requires |parts| >= 1
    requires forall k | 0 <= k < |parts| :: sep !in parts[k]
    ensures Split(Join(parts, sep), sep) == parts
    decreases |parts|, |parts[0]|
  {
    var s := Join(parts, sep);
    if parts[0] == [] {
      if |parts| == 1 {
      } else {
        assert s == [sep] + Join(parts[1..], sep);
        assert s[1..] == Join(parts[1..], sep);
        SplitJoin(parts[1..], sep);
        assert parts == [""] + parts[1..];
      }
    } else {
      var c := parts[0][0];
      var shorter := [parts[0][1..]] + parts[1..];
      assert c != sep;
      assert forall k | 0 <= k < |shorter| :: sep !in shorter[k] by {
        forall k | 0 <= k < |shorter| ensures sep !in shorter[k] {
          if k == 0 {
            assert forall x | x in parts[0][1..] :: x in parts[0];
          } else {
            assert shorter[k] == parts[k];
          }
        }
      }
      assert Join(shorter, sep) == s[1..] by {
        if |parts| == 1 {
        } else {
          assert Join(shorter, sep) == parts[0][1..] + [sep] + Join(parts[1..], sep);
        }
      }
      assert s[0] == c;
      SplitJoin(shorter, sep);
      var rest := Split(s[1..], sep);
      assert rest == shorter;
      assert [c] + parts[0][1..] == parts[0];
      assert [[c] + rest[0]] + rest[1..] == parts;
    }
  }

  // ---------------------------------------------------------------- substring

  /** `v` occurs in `s` starting at position `i`. */
  predicate OccursAt(v: string, s: string, i: nat) {
    i + |v| <= |s| && s[i..i + |v|] == v
  }

  /** Python's `v in s` for strings. */
  predicate IsSubstring(v: string, s: string) {
    exists i: nat | i <= |s| :: OccursAt(v, s, i)
  }

  lemma EmptyIsSubstring(s: string)
    ensures IsSubstring("", s)
  {
    assert OccursAt("", s, 0);
  }
}
