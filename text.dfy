/** The few java.lang.String and java.util operations the modelled code relies on:
    indexOf, decimal printing of an int, String.compareTo and Collections.sort. */
module Text {

  /** s.indexOf(c): the index of the first c in s, or -1 when there is none. */
  function IndexOf(s: string, c: char): (r: int)
    ensures r == -1 <==> c !in s
    ensures r != -1 ==> 0 <= r < |s| && s[r] == c && c !in s[..r]
  {
    if s == [] then -1
    else if s[0] == c then 0
    else
      var k := IndexOf(s[1..], c);
      assert s[1..][..(if k == -1 then 0 else k)] == s[1..(if k == -1 then 1 else k + 1)];
      if k == -1 then -1 else k + 1
  }

  /** n repetitions of the four-space indentation unit. */
  function Indent(n: nat): (r: string)
    ensures |r| == 4 * n && forall k :: 0 <= k < |r| ==> r[k] == ' '
  {
    if n == 0 then "" else "    " + Indent(n - 1)
  }

  // ---------------------------------------------------------------------------
  // Decimal notation of a count, as string concatenation prints an int
  // ---------------------------------------------------------------------------

  function Digit(d: nat): char
    requires d < 10
  {
    "0123456789"[d]
  }

  predicate IsDigit(c: char) {
    '0' <= c <= '9'
  }

  /** The decimal notation of n, without leading zeros. */
  function Decimal(n: nat): (r: string)
    decreases n
  {
    if n < 10 then [Digit(n)] else Decimal(n / 10) + [Digit(n % 10)]
  }

  /** The value of a string of decimal digits. */
  function DecimalValue(s: string): nat
    requires forall k :: 0 <= k < |s| ==> IsDigit(s[k])
    decreases |s|
  {
    if s == [] then 0
    else
      assert IsDigit(s[|s| - 1]);
      10 * DecimalValue(s[..|s| - 1]) + (s[|s| - 1] as int - '0' as int)
  }

  /** Decimal prints digits only, starts with a non-zero digit unless n is 0, and
      reads back as n. */
  lemma {:induction false} DecimalRoundTrip(n: nat)
    ensures var s := Decimal(n);
      && |s| > 0 && (forall k :: 0 <= k < |s| ==> IsDigit(s[k]))
      && (n > 0 ==> s[0] != '0')
      && DecimalValue(s) == n
    decreases n
  {
    if n < 10 {
      DigitValue(n);
    } else {
      DecimalRoundTrip(n / 10);
      DigitValue(n % 10);
      var front, s := Decimal(n / 10), Decimal(n);
      assert s == front + [Digit(n % 10)];
      assert s[..|s| - 1] == front;
      assert s[0] == front[0];
      assert forall k :: 0 <= k < |s| ==> IsDigit(s[k]) by {
        forall k | 0 <= k < |s| ensures IsDigit(s[k]) {
          if k < |front| { assert s[k] == front[k]; }
        }
      }
      assert DecimalValue(s) == 10 * DecimalValue(front) + n % 10;
    }
  }

  /** Digit d is the character of d's value. */
  lemma DigitValue(d: nat)
    requires d < 10
    ensures IsDigit(Digit(d)) && Digit(d) as int - '0' as int == d
  {
    assert "0123456789"[d] as int == '0' as int + d;
  }

  // ---------------------------------------------------------------------------
  // String.compareTo and Collections.sort
  // ---------------------------------------------------------------------------

  /** a.compareTo(b) < 0: at the first position where they differ a has the smaller
      character, or a is a proper prefix of b. */
  predicate Below(a: string, b: string)
    decreases |a|
  {
    if a == [] then b != []
    else if b == [] then false
    else if a[0] != b[0] then a[0] < b[0]
    else Below(a[1..], b[1..])
  }

  lemma {:induction false} BelowIrreflexive(a: string)
    ensures !Below(a, a)
    decreases |a|
  {
    if a != [] {
      BelowIrreflexive(a[1..]);
    }
  }

  lemma {:induction false} BelowTransitive(a: string, b: string, c: string)
    requires Below(a, b) && Below(b, c)
    ensures Below(a, c)
    decreases |a|
  {
    if a != [] && b != [] && c != [] && a[0] == b[0] && b[0] == c[0] {
      BelowTransitive(a[1..], b[1..], c[1..]);
    }
  }

  lemma {:induction false} BelowTotal(a: string, b: string)
    ensures a == b || Below(a, b) || Below(b, a)
    decreases |a|
  {
    if a != [] && b != [] && a[0] == b[0] {
      BelowTotal(a[1..], b[1..]);
      if a[1..] == b[1..] {
        assert a == [a[0]] + a[1..] && b == [b[0]] + b[1..];
      }
    }
  }

  /** Ascending in String.compareTo order. */
  ghost predicate Sorted(s: seq<string>) {
    forall i, j :: 0 <= i < j < |s| ==> !Below(s[j], s[i])
  }

  /** x inserted before the first element not below it. */
  function Insert(x: string, s: seq<string>): (r: seq<string>)
    ensures multiset(r) == multiset(s) + multiset{x}
    decreases |s|
  {
    if s == [] then [x]
    else
      assert s == [s[0]] + s[1..];
      if Below(s[0], x) then [s[0]] + Insert(x, s[1..]) else [x] + s
  }

  lemma {:induction false} InsertSorted(x: string, s: seq<string>)
    requires Sorted(s)
    ensures Sorted(Insert(x, s))
    decreases |s|
  {
    if s != [] && Below(s[0], x) {
      InsertSorted(x, s[1..]);
      var r := Insert(x, s);
      forall j | 0 < j < |r| ensures !Below(r[j], r[0]) {
        assert r[j] in multiset(Insert(x, s[1..]));
        assert r[j] in multiset(s[1..]) + multiset{x};
        if r[j] == x {
          BelowIrreflexive(s[0]);
          if Below(x, s[0]) { BelowTransitive(x, s[0], x); BelowIrreflexive(x); }
        } else {
          assert r[j] in s[1..];
          var k :| 0 <= k < |s[1..]| && s[1..][k] == r[j];
          assert s[k + 1] == r[j];
        }
      }
    }
    if s != [] && !Below(s[0], x) {
      var r := Insert(x, s);
      forall j | 0 < j < |r| ensures !Below(r[j], x) {
        assert r[j] == s[j - 1];
        if Below(s[j - 1], x) {
          if j - 1 > 0 {
            assert !Below(s[j - 1], s[0]);
            BelowTotal(s[j - 1], s[0]);
            if s[j - 1] != s[0] { BelowTransitive(s[0], s[j - 1], x); }
          }
        }
      }
    }
  }

  /** Collections.sort on the names: an insertion sort, ascending in compareTo order. */
  function Sort(s: seq<string>): (r: seq<string>)
    ensures multiset(r) == multiset(s)
    decreases |s|
  {
    if s == [] then []
    else
      assert s == [s[0]] + s[1..];
      Insert(s[0], Sort(s[1..]))
  }

  /** The sorted list is in ascending order and is a permutation of the input. */
  lemma {:induction false} SortSorted(s: seq<string>)
    ensures Sorted(Sort(s)) && multiset(Sort(s)) == multiset(s)
    decreases |s|
  {
    if s != [] {
      SortSorted(s[1..]);
      InsertSorted(s[0], Sort(s[1..]));
      assert s == [s[0]] + s[1..];
    }
  }

  lemma SortedTail(s: seq<string>)
    requires Sorted(s) && s != []
    ensures Sorted(s[1..])
  {
    forall i, j | 0 <= i < j < |s| - 1 ensures !Below(s[1..][j], s[1..][i]) {
      assert s[1..][j] == s[j + 1] && s[1..][i] == s[i + 1];
    }
  }

  /** The first element of an ascending list is below or equal to every element. */
  lemma SortedFirstLeast(s: seq<string>, x: string)
    requires Sorted(s) && x in s
    ensures !Below(x, s[0])
  {
    var i :| 0 <= i < |s| && s[i] == x;
    if i == 0 { BelowIrreflexive(x); }
  }

  lemma SortedSameHead(a: seq<string>, b: seq<string>)
    requires Sorted(a) && Sorted(b) && multiset(a) == multiset(b) && a != []
    ensures b != [] && a[0] == b[0]
  {
    assert a[0] in multiset(b);
    assert b[0] in multiset(a);
    SortedFirstLeast(b, a[0]);
    SortedFirstLeast(a, b[0]);
    BelowTotal(a[0], b[0]);
  }

  /** Two ascending lists with the same elements are the same list: the order in which
      a set of names is handed to the sort does not matter. */
  lemma {:induction false} SortedUnique(a: seq<string>, b: seq<string>)
    requires Sorted(a) && Sorted(b) && multiset(a) == multiset(b)
    ensures a == b
    decreases |a|
  {
    if a == [] {
      assert |b| == |multiset(b)| == 0;
    } else {
      SortedSameHead(a, b);
      assert a == [a[0]] + a[1..] && b == [b[0]] + b[1..];
      assert multiset(a[1..]) == multiset(a) - multiset{a[0]};
      assert multiset(b[1..]) == multiset(b) - multiset{b[0]};
      SortedTail(a);
      SortedTail(b);
      SortedUnique(a[1..], b[1..]);
    }
  }

  /** Sorting gives the same list whatever order the names come in. */
  lemma SortIndependentOfOrder(s: seq<string>, s': seq<string>)
    requires multiset(s) == multiset(s')
    ensures Sort(s) == Sort(s')
  {
    SortSorted(s);
    SortSorted(s');
    SortedUnique(Sort(s), Sort(s'));
  }
}
