/** Small pieces every other module uses: optional values, decimal text, and sequence facts. */
module Common {
  datatype Option<+T> = None | Some(value: T)

  datatype Result<+T, +E> = Ok(value: T) | Err(error: E)

  function Min(a: int, b: int): int {
    if a <= b then a else b
  }

  function Max(a: int, b: int): int {
    if a >= b then a else b
  }

  /** The decimal text of a number, as `String(n)` or `str(n)` writes it. */
  function Digits(n: nat): (r: string)
    ensures r != ""
  {
    if n < 10 then [("0123456789")[n]] else Digits(n / 10) + [("0123456789")[n % 10]]
  }

  function Decimal(n: int): string {
    if n < 0 then "-" + Digits(-n) else Digits(n)
  }

  /** The number that decimal digits write. */
  function ValueOf(digits: string): int {
    if digits == "" then 0
    else 10 * ValueOf(digits[..|digits| - 1]) + (digits[|digits| - 1] as int - '0' as int)
  }

  /** The digits write the number, without a leading zero. */
  lemma {:induction false} DigitsWriteNumber(n: nat)
    ensures ValueOf(Digits(n)) == n
    ensures forall i :: 0 <= i < |Digits(n)| ==> '0' <= Digits(n)[i] <= '9'
    ensures n > 0 ==> Digits(n)[0] != '0'
  {
    if n >= 10 {
      DigitsWriteNumber(n / 10);
    }
    var last := ("0123456789")[n % 10];
    assert last as int - '0' as int == n % 10;
    var rest := if n < 10 then "" else Digits(n / 10);
    assert Digits(n) == rest + [last];
    assert (rest + [last])[..|rest|] == rest;
  }

  /** The characters Python's `str.strip()` and `str.isspace()` treat as blank. */
  predicate IsSpace(c: char) {
    var n := c as int;
    || 9 <= n <= 13 || 28 <= n <= 32 || n == 0x85 || n == 0xA0 || n == 0x1680 || 0x2000 <= n <= 0x200A
    || n == 0x2028 || n == 0x2029 || n == 0x202F || n == 0x205F || n == 0x3000
  }

  predicate Blank(s: string) {
    forall i :: 0 <= i < |s| ==> IsSpace(s[i])
  }

  /** `str.strip()`. */
  function Strip(s: string): string {
    if s == "" then ""
    else if IsSpace(s[0]) then Strip(s[1..])
    else StripRight(s)
  }

  /** `str.rstrip()`. */
  function StripRight(s: string): string {
    if s == "" then "" else if IsSpace(s[|s| - 1]) then StripRight(s[..|s| - 1]) else s
  }

  lemma {:induction false} StripRightCuts(s: string) returns (j: nat)
    ensures j <= |s| && StripRight(s) == s[..j] && Blank(s[j..]) && (j > 0 ==> !IsSpace(s[j - 1]))
  {
    j := |s|;
    if s != "" && IsSpace(s[|s| - 1]) {
      j := StripRightCuts(s[..|s| - 1]);
      assert forall i :: j <= i < |s| - 1 ==> s[..|s| - 1][j..][i - j] == s[i];
    }
  }

  /** Stripping cuts blanks at both ends, and all of them. */
  lemma {:induction false} StripCuts(s: string) returns (i: nat, j: nat)
    ensures i <= j <= |s| && Strip(s) == s[i..j] && Blank(s[..i]) && Blank(s[j..])
    ensures i < j ==> !IsSpace(s[i]) && !IsSpace(s[j - 1])
  {
    if s == "" {
      i, j := 0, 0;
    } else if IsSpace(s[0]) {
      i, j := StripCuts(s[1..]);
      i, j := i + 1, j + 1;
    } else {
      i := 0;
      j := StripRightCuts(s);
    }
  }

  lemma {:induction false} StripsToNothing(s: string)
    ensures Strip(s) == "" <==> Blank(s)
  {
    if s != "" && IsSpace(s[0]) {
      StripsToNothing(s[1..]);
      assert forall i :: 1 <= i < |s| ==> s[1..][i - 1] == s[i];
    } else if s != "" {
      var j := StripRightCuts(s);
      assert s[j..] == s[..] || j > 0;
    }
  }

  predicate OccursAt(piece: string, text: string, i: nat) {
    i + |piece| <= |text| && text[i..i + |piece|] == piece
  }

  predicate Occurs(piece: string, text: string) {
    exists i :: 0 <= i <= |text| && OccursAt(piece, text, i)
  }

  predicate AllDistinct<T(==)>(s: seq<T>) {
    forall i, j :: 0 <= i < j < |s| ==> s[i] != s[j]
  }

  function Elements<T(!new, ==)>(s: seq<T>): (r: set<T>)
    ensures forall x :: x in r <==> x in s
  {
    set x | x in s
  }

  /** `len(xs) == len(set(xs))` is the code's test for "no repeats". */
  lemma {:induction false} DistinctIffSameSize<T(!new)>(s: seq<T>)
    ensures |Elements(s)| <= |s|
    ensures |Elements(s)| == |s| <==> AllDistinct(s)
  {
    if s == [] {
      assert Elements(s) == {};
    } else {
      var n := |s| - 1;
      var front := s[..n];
      DistinctIffSameSize(front);
      assert s == front + [s[n]];
      assert Elements(s) == Elements(front) + {s[n]};
      if s[n] in front {
        assert Elements(s) == Elements(front);
        var i :| 0 <= i < n && front[i] == s[n];
        assert s[i] == s[n];
      } else {
        assert forall i :: 0 <= i < n ==> s[i] == front[i];
        if AllDistinct(front) {
          assert AllDistinct(s);
        } else {
          var i, j :| 0 <= i < j < n && front[i] == front[j];
          assert s[i] == s[j];
        }
      }
    }
  }

  /** More positions than values: some value is repeated. */
  lemma Pigeonhole<T(!new)>(p: seq<T>, pool: set<T>)
    requires |p| > |pool|
    requires forall i :: 0 <= i < |p| ==> p[i] in pool
    ensures exists i, j :: 0 <= i < j < |p| && p[i] == p[j]
  {
    DistinctIffSameSize(p);
    assert Elements(p) <= pool;
    SubsetSize(Elements(p), pool);
  }

  lemma SubsetSize<T>(a: set<T>, b: set<T>)
    requires a <= b
    ensures |a| <= |b|
    ensures |a| == |b| ==> a == b
  {
    assert b == a + (b - a);
  }

  function Filter<T(!new)>(s: seq<T>, keep: T -> bool): (r: seq<T>)
    ensures forall x :: x in r <==> x in s && keep(x)
    ensures |r| <= |s|
  {
    if s == [] then [] else (if keep(s[0]) then [s[0]] else []) + Filter(s[1..], keep)
  }

  lemma {:induction false} FilterAppend<T(!new)>(a: seq<T>, b: seq<T>, keep: T -> bool)
    ensures Filter(a + b, keep) == Filter(a, keep) + Filter(b, keep)
  {
    if a == [] {
      assert a + b == b;
    } else {
      assert (a + b)[1..] == a[1..] + b;
      FilterAppend(a[1..], b, keep);
    }
  }

  lemma {:induction false} FilterKeepsDistinct<T(!new)>(s: seq<T>, keep: T -> bool)
    requires AllDistinct(s)
    ensures AllDistinct(Filter(s, keep))
  {
    if s != [] {
      FilterKeepsDistinct(s[1..], keep);
    }
  }

  /** The first occurrences, in order: `list(dict.fromkeys(xs))` and `[...new Set(xs)]`. */
  function Dedupe<T(!new, ==)>(xs: seq<T>): (r: seq<T>)
    ensures AllDistinct(r) && forall x :: x in r <==> x in xs
  {
    if xs == [] then [] else
      var front, last := Dedupe(xs[..|xs| - 1]), xs[|xs| - 1];
      assert xs == xs[..|xs| - 1] + [last];
      if last in front then front else front + [last]
  }

  /** The first place of x, or the length. */
  function Place<T(==)>(xs: seq<T>, x: T): (k: nat)
    ensures k <= |xs| && (k < |xs| <==> x in xs)
    ensures k < |xs| ==> xs[k] == x
  {
    if xs == [] then 0
    else if xs[0] == x then 0
    else 1 + Place(xs[1..], x)
  }

  /** Place finds the first occurrence. */
  lemma {:induction false} PlaceIsFirst<T>(xs: seq<T>, x: T, i: nat)
    requires i < |xs| && xs[i] == x
    ensures Place(xs, x) <= i
  {
    if xs[0] != x {
      PlaceIsFirst(xs[1..], x, i - 1);
    }
  }

  lemma {:induction false} PlaceInLonger<T>(xs: seq<T>, more: seq<T>, x: T)
    requires x in xs
    ensures Place(xs + more, x) == Place(xs, x)
  {
    assert (xs + more)[0] == xs[0];
    if xs[0] != x {
      assert (xs + more)[1..] == xs[1..] + more;
      PlaceInLonger(xs[1..], more, x);
    }
  }

  lemma {:induction false} PlaceOfNew<T>(xs: seq<T>, x: T)
    requires x !in xs
    ensures Place(xs, x) == |xs| == Place(xs + [x], x)
  {
    if xs != [] {
      assert (xs + [x])[1..] == xs[1..] + [x];
      PlaceOfNew(xs[1..], x);
    }
  }

  /** Dedupe lists the values by their first occurrences. */
  lemma {:induction false} DedupeInOrder<T(!new)>(xs: seq<T>)
    ensures forall i, j :: 0 <= i < j < |Dedupe(xs)| ==> Place(xs, Dedupe(xs)[i]) < Place(xs, Dedupe(xs)[j])
  {
    if xs != [] {
      var front, last := xs[..|xs| - 1], xs[|xs| - 1];
      assert xs == front + [last];
      DedupeInOrder(front);
      forall x | x in Dedupe(front) ensures Place(xs, x) == Place(front, x) {
        PlaceInLonger(front, [last], x);
      }
      if last !in front {
        PlaceOfNew(front, last);
      }
    }
  }

  lemma Pick<T>(s: set<T>) returns (x: T)
    requires s != {}
    ensures x in s
  {
    x :| x in s;
  }

  lemma {:induction false} HasMaximum(s: set<int>) returns (m: int)
    requires s != {}
    ensures m in s && forall x :: x in s ==> x <= m
  {
    m := Pick(s);
    if s != {m} {
      var rest := s - {m};
      assert s == rest + {m};
      var n := HasMaximum(rest);
      if m < n { m := n; }
    }
  }

  lemma HasMinimum(s: set<int>) returns (m: int)
    requires s != {}
    ensures m in s && forall x :: x in s ==> m <= x
  {
    var negated := set x | x in s :: -x;
    var w := Pick(s);
    assert -w in negated;
    var n := HasMaximum(negated);
    m := -n;
    forall x | x in s ensures m <= x {
      assert -x in negated;
    }
  }
}
