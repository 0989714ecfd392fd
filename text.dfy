/** The string operations the pipeline relies on, with Python's semantics:
    the ordering of `str` (code point by code point), `sorted`, `' or '.join`,
    `str.replace(pat, '')`, `str(int)` and `re.split(r"[:;] ", s)`. */
module Text {
  import opened Wrappers
  import opened Seqs

  // ---------------------------------------------------------------------------
  // Python's ordering of str
  // ---------------------------------------------------------------------------

  /** `a <= b` on Python strings: lexicographic by code point, a proper prefix first. */
  predicate LessEq(a: string, b: string)
    decreases |a|
  {
    |a| == 0 || (|b| > 0 && (a[0] < b[0] || (a[0] == b[0] && LessEq(a[1..], b[1..]))))
  }

  lemma {:induction false} LessEqReflexive(a: string)
    ensures LessEq(a, a)
    decreases |a|
  {
    if |a| > 0 {
      LessEqReflexive(a[1..]);
    }
  }

  lemma {:induction false} LessEqAntisymmetric(a: string, b: string)
    requires LessEq(a, b) && LessEq(b, a)
    ensures a == b
    decreases |a|
  {
    if |a| > 0 {
      LessEqAntisymmetric(a[1..], b[1..]);
      assert a == [a[0]] + a[1..] && b == [b[0]] + b[1..];
    }
  }

  lemma {:induction false} LessEqTransitive(a: string, b: string, c: string)
    requires LessEq(a, b) && LessEq(b, c)
    ensures LessEq(a, c)
    decreases |a|
  {
    if |a| > 0 && a[0] == b[0] && b[0] == c[0] {
      LessEqTransitive(a[1..], b[1..], c[1..]);
    }
  }

  lemma {:induction false} LessEqTotal(a: string, b: string)
    ensures LessEq(a, b) || LessEq(b, a)
    decreases |a|
  {
    if |a| > 0 && |b| > 0 && a[0] == b[0] {
      LessEqTotal(a[1..], b[1..]);
    }
  }

  /** The four laws together: `LessEq` is a total order on strings. */
  lemma LessEqIsTotalOrder()
    ensures forall a :: LessEq(a, a)
    ensures forall a, b :: LessEq(a, b) && LessEq(b, a) ==> a == b
    ensures forall a, b, c :: LessEq(a, b) && LessEq(b, c) ==> LessEq(a, c)
    ensures forall a, b :: LessEq(a, b) || LessEq(b, a)
  {
    forall a { LessEqReflexive(a); }
    forall a, b | LessEq(a, b) && LessEq(b, a) { LessEqAntisymmetric(a, b); }
    forall a, b, c | LessEq(a, b) && LessEq(b, c) { LessEqTransitive(a, b, c); }
    forall a, b { LessEqTotal(a, b); }
  }

  ghost predicate Sorted(s: seq<string>) {
    forall i, j :: 0 <= i < j < |s| ==> LessEq(s[i], s[j])
  }

  // ---------------------------------------------------------------------------
  // sorted(...)
  // ---------------------------------------------------------------------------

  function Insert(x: string, s: seq<string>): (r: seq<string>)
    ensures Elems(r) == Elems(s) + {x}
    ensures NoDups(s) && x !in s ==> NoDups(r)
  {
    if |s| == 0 then [x]
    else if LessEq(x, s[0]) then [x] + s
    else
      assert s == [s[0]] + s[1..];
      var t := Insert(x, s[1..]);
      assert Elems(s) == {s[0]} + Elems(s[1..]);
      assert Elems([s[0]] + t) == {s[0]} + Elems(t);
      assert NoDups(s) && x !in s ==> NoDups([s[0]] + t) by {
        if NoDups(s) && x !in s {
          assert s[0] !in Elems(s[1..]);
          forall i, j | 0 <= i < j < |t| + 1 ensures ([s[0]] + t)[i] != ([s[0]] + t)[j] {
            if i == 0 { assert t[j - 1] in Elems(t); }
          }
        }
      }
      [s[0]] + t
  }

  lemma {:induction false} InsertSorted(x: string, s: seq<string>)
    requires Sorted(s)
    ensures Sorted(Insert(x, s))
  {
    if |s| > 0 {
      if LessEq(x, s[0]) {
        forall j | 0 < j < |s| ensures LessEq(x, s[j]) {
          LessEqTransitive(x, s[0], s[j]);
        }
      } else {
        LessEqTotal(x, s[0]);
        InsertSorted(x, s[1..]);
        var t := Insert(x, s[1..]);
        forall j | 0 <= j < |t| ensures LessEq(s[0], t[j]) {
          assert t[j] in Elems(t);
          if t[j] != x {
            var k :| 0 <= k < |s[1..]| && s[1..][k] == t[j];
            assert s[k + 1] == t[j];
          }
        }
      }
    }
  }

  /** Python's `sorted` on a list of str. */
  function Sort(s: seq<string>): (r: seq<string>)
    ensures Elems(r) == Elems(s)
    ensures NoDups(s) ==> NoDups(r)
  {
    if |s| == 0 then []
    else
      assert s == [s[0]] + s[1..];
      var t := Sort(s[1..]);
      assert NoDups(s) ==> NoDups(s[1..]) && s[0] !in Elems(t);
      Insert(s[0], t)
  }

  /** The result of sorting is in ascending order. */
  lemma {:induction false} SortSorts(s: seq<string>)
    ensures Sorted(Sort(s))
  {
    if |s| > 0 {
      SortSorts(s[1..]);
      InsertSorted(s[0], Sort(s[1..]));
    }
  }

  /** Inserting adds exactly one occurrence of `x`. */
  lemma {:induction false} InsertPermutes(x: string, s: seq<string>)
    ensures multiset(Insert(x, s)) == multiset(s) + multiset{x}
  {
    if |s| > 0 && !LessEq(x, s[0]) {
      assert s == [s[0]] + s[1..];
      InsertPermutes(x, s[1..]);
    }
  }

  /** Sorting neither adds, drops nor repeats an element: the result is a permutation. */
  lemma {:induction false} SortPermutes(s: seq<string>)
    ensures multiset(Sort(s)) == multiset(s)
  {
    if |s| > 0 {
      assert s == [s[0]] + s[1..];
      SortPermutes(s[1..]);
      InsertPermutes(s[0], Sort(s[1..]));
    }
  }

  /** Dropping later repeats keeps a sorted sequence sorted. */
  lemma {:induction false} DistinctKeepsSorted(s: seq<string>)
    requires Sorted(s)
    ensures Sorted(Distinct(s))
  {
    if |s| > 0 {
      var p, x := s[..|s| - 1], s[|s| - 1];
      DistinctKeepsSorted(p);
      var d := Distinct(p);
      if x !in d {
        forall i | 0 <= i < |d|
          ensures LessEq(d[i], x)
        {
          assert d[i] in Elems(p);
          var k :| 0 <= k < |p| && p[k] == d[i];
          assert s[k] == p[k];
        }
      }
    }
  }

  /** A set of strings has exactly one sorted, duplicate-free listing. */
  lemma {:induction false} SortedUnique(a: seq<string>, b: seq<string>)
    requires Sorted(a) && NoDups(a)
    requires Sorted(b) && NoDups(b)
    requires Elems(a) == Elems(b)
    ensures a == b
    decreases |a|
  {
    if |a| == 0 {
      NoDupsCardinality(a);
      NoDupsCardinality(b);
    } else {
      assert a[0] in Elems(b);
      assert |b| > 0;
      assert b[0] in Elems(a);
      var ka :| 0 <= ka < |a| && a[ka] == b[0];
      var kb :| 0 <= kb < |b| && b[kb] == a[0];
      if ka > 0 { assert LessEq(a[0], b[0]); } else { LessEqReflexive(a[0]); }
      if kb > 0 { assert LessEq(b[0], a[0]); } else { LessEqReflexive(b[0]); }
      LessEqAntisymmetric(a[0], b[0]);
      assert a == [a[0]] + a[1..] && b == [b[0]] + b[1..];
      assert Elems(a) == {a[0]} + Elems(a[1..]) && a[0] !in Elems(a[1..]);
      assert Elems(b) == {b[0]} + Elems(b[1..]) && b[0] !in Elems(b[1..]);
      SortedUnique(a[1..], b[1..]);
    }
  }

  // ---------------------------------------------------------------------------
  // sep.join(parts)
  // ---------------------------------------------------------------------------

  /** Python's `sep.join(parts)`. */
  function Join(parts: seq<string>, sep: string): string {
    if |parts| == 0 then ""
    else if |parts| == 1 then parts[0]
    else parts[0] + sep + Join(parts[1..], sep)
  }

  // ---------------------------------------------------------------------------
  // s.replace(pat, '')
  // ---------------------------------------------------------------------------

  predicate Contains(s: string, pat: string) {
    exists i :: 0 <= i <= |s| && pat <= s[i..]
  }

  /** `s.replace(pat, '')`: every non-overlapping occurrence, scanned left to right, removed. */
  function RemoveAll(s: string, pat: string): string
    requires |pat| > 0
    decreases |s|
  {
    if |s| == 0 then ""
    else if pat <= s then RemoveAll(s[|pat|..], pat)
    else [s[0]] + RemoveAll(s[1..], pat)
  }

  /** A string without the pattern is left unchanged. */
  lemma {:induction false} RemoveAllAbsent(s: string, pat: string)
    requires |pat| > 0 && !Contains(s, pat)
    ensures RemoveAll(s, pat) == s
    decreases |s|
  {
    if |s| > 0 {
      assert s[0..] == s;
      assert !Contains(s[1..], pat) by {
        forall i | 0 <= i <= |s[1..]|
          ensures !(pat <= s[1..][i..])
        {
          assert s[1..][i..] == s[i + 1..];
        }
      }
      RemoveAllAbsent(s[1..], pat);
      assert s == [s[0]] + s[1..];
    }
  }

  /** No proper suffix of `pat` is also a prefix of it, so two occurrences never overlap. */
  predicate Unbordered(pat: string) {
    forall k :: 0 < k < |pat| ==> pat[k..] != pat[..|pat| - k]
  }

  /** Removing an unbordered pattern from `x + pat`, where `x` does not contain it, gives back `x`. */
  lemma {:induction false} RemoveAllSuffix(x: string, pat: string)
    requires |pat| > 0 && Unbordered(pat) && !Contains(x, pat)
    ensures RemoveAll(x + pat, pat) == x
    decreases |x|
  {
    var s := x + pat;
    if |x| == 0 {
      assert s == pat;
      assert s[|pat|..] == "";
    } else {
      if |x| >= |pat| {
        assert x[0..] == x;
        assert s[..|pat|] == x[..|pat|];
      } else {
        var k := |x|;
        assert pat[k..] != pat[..|pat| - k];
        var i :| 0 <= i < |pat| - k && pat[k..][i] != pat[..|pat| - k][i];
        assert s[k + i] == pat[i];
      }
      assert !(pat <= s);
      assert s[1..] == x[1..] + pat;
      assert !Contains(x[1..], pat) by {
        forall i | 0 <= i <= |x[1..]|
          ensures !(pat <= x[1..][i..])
        {
          assert x[1..][i..] == x[i + 1..];
        }
      }
      RemoveAllSuffix(x[1..], pat);
      assert x == [x[0]] + x[1..];
    }
  }

  // ---------------------------------------------------------------------------
  // str(n) for an int, and its inverse
  // ---------------------------------------------------------------------------

  predicate IsDigit(c: char) {
    '0' <= c <= '9'
  }

  predicate AllDigits(s: string) {
    forall i :: 0 <= i < |s| ==> IsDigit(s[i])
  }

  function DigitChar(d: nat): (c: char)
    requires d < 10
    ensures IsDigit(c)
  {
    (d + '0' as int) as char
  }

  /** Decimal digits of a natural number, most significant first, no leading zeros. */
  function NatToDecimal(n: nat): (s: string)
    ensures |s| > 0 && AllDigits(s)
    decreases n
  {
    if n < 10 then [DigitChar(n)] else NatToDecimal(n / 10) + [DigitChar(n % 10)]
  }

  /** Python's `str(n)` for an int. */
  function IntToDecimal(n: int): (s: string)
    ensures |s| > 0
    ensures forall i :: 0 <= i < |s| ==> IsDigit(s[i]) || (i == 0 && s[i] == '-')
  {
    if n < 0 then "-" + NatToDecimal(-n) else NatToDecimal(n)
  }

  function DecimalValue(s: string): nat
    requires AllDigits(s)
  {
    if |s| == 0 then 0
    else DecimalValue(s[..|s| - 1]) * 10 + (s[|s| - 1] as int - '0' as int)
  }

  /** Reads an optionally negative decimal integer; `None` when `s` is not one. */
  function ParseInt(s: string): Option<int> {
    if |s| > 1 && s[0] == '-' && AllDigits(s[1..]) then Some(0 - DecimalValue(s[1..]) as int)
    else if |s| > 0 && AllDigits(s) then Some(DecimalValue(s))
    else None
  }

  lemma {:induction false} NatToDecimalRoundTrip(n: nat)
    ensures DecimalValue(NatToDecimal(n)) == n
    decreases n
  {
    if n >= 10 {
      NatToDecimalRoundTrip(n / 10);
      var s := NatToDecimal(n);
      assert s[..|s| - 1] == NatToDecimal(n / 10);
    }
  }

  /** `int(str(n)) == n`. */
  lemma IntToDecimalRoundTrip(n: int)
    ensures ParseInt(IntToDecimal(n)) == Some(n)
  {
    var s := IntToDecimal(n);
    if n < 0 {
      var digits := NatToDecimal(-n);
      assert s == "-" + digits && s[1..] == digits;
      NatToDecimalRoundTrip(-n);
      assert ParseInt(s) == Some(0 - DecimalValue(digits) as int);
    } else {
      assert IsDigit(s[0]);
      NatToDecimalRoundTrip(n);
      assert ParseInt(s) == Some(DecimalValue(s));
    }
  }

  // ---------------------------------------------------------------------------
  // re.split(r"[:;] ", s)
  // ---------------------------------------------------------------------------

  /** A separator of the regular expression `[:;] ` starts at index `i` of `s`. */
  predicate SeparatorAt(s: string, i: int) {
    0 <= i && i + 1 < |s| && (s[i] == ':' || s[i] == ';') && s[i + 1] == ' '
  }

  predicate NoSeparator(s: string) {
    forall i :: 0 <= i < |s| ==> !SeparatorAt(s, i)
  }

  /** `re.split(r"[:;] ", s)`: the pieces between non-overlapping separators, scanned left to right. */
  function SplitAnnotation(s: string): (parts: seq<string>)
    ensures |parts| >= 1
    ensures parts[0] <= s
    ensures forall p :: p in parts ==> NoSeparator(p)
    decreases |s|
  {
    if SeparatorAt(s, 0) then [""] + SplitAnnotation(s[2..])
    else if |s| == 0 then [""]
    else
      var rest := SplitAnnotation(s[1..]);
      var first := [s[0]] + rest[0];
      assert NoSeparator(first) by {
        forall i ensures !SeparatorAt(first, i) {
          if i > 0 {
            assert rest[0] in rest;
            assert !SeparatorAt(rest[0], i - 1);
          } else if |rest[0]| > 0 {
            assert first[1] == s[1];
          }
        }
      }
      [first] + rest[1..]
  }

  /** A piece without separators is not split. */
  lemma {:induction false} SplitPlain(z: string)
    requires NoSeparator(z)
    ensures SplitAnnotation(z) == [z]
    decreases |z|
  {
    if |z| > 0 {
      assert NoSeparator(z[1..]) by {
        forall i ensures !SeparatorAt(z[1..], i) {
          assert !SeparatorAt(z, i + 1);
        }
      }
      SplitPlain(z[1..]);
      assert z == [z[0]] + z[1..];
    }
  }

  /** The first separator after a separator-free piece ends that piece. */
  lemma {:induction false} SplitAfter(x: string, c: char, rest: string)
    requires NoSeparator(x) && (c == ':' || c == ';')
    ensures SplitAnnotation(x + [c, ' '] + rest) == [x] + SplitAnnotation(rest)
    decreases |x|
  {
    var s := x + [c, ' '] + rest;
    if |x| == 0 {
      assert SeparatorAt(s, 0);
      assert s[2..] == rest;
    } else {
      assert !SeparatorAt(s, 0) by {
        if |x| > 1 {
          assert !SeparatorAt(x, 0);
        }
      }
      assert NoSeparator(x[1..]) by {
        forall i ensures !SeparatorAt(x[1..], i) {
          assert !SeparatorAt(x, i + 1);
        }
      }
      assert s[1..] == x[1..] + [c, ' '] + rest;
      SplitAfter(x[1..], c, rest);
      assert x == [x[0]] + x[1..];
    }
  }
}
