/** The small part of Python's `str` that the archive code relies on: ASCII
    lower-casing, single-character replacement, prefix and substring tests,
    `find`, and the code-point order that `sorted` uses. */
module Strings {

  /** `c.lower()` on ASCII letters; every other character is unchanged. */
  function LowerChar(c: char): (r: char)
    ensures 'A' <= c <= 'Z' ==> r as int == c as int + 32
    ensures !('A' <= c <= 'Z') ==> r == c
  {
    if 'A' <= c <= 'Z' then (c as int + 32) as char else c
  }

  function Lower(s: string): (r: string)
    ensures |r| == |s| && forall i :: 0 <= i < |s| ==> r[i] == LowerChar(s[i])
  {
    seq(|s|, i requires 0 <= i < |s| => LowerChar(s[i]))
  }

  predicate IsLower(s: string) {
    forall i :: 0 <= i < |s| ==> !('A' <= s[i] <= 'Z')
  }

  lemma LowerIsLower(s: string)
    ensures IsLower(Lower(s)) && Lower(Lower(s)) == Lower(s)
  {
  }

  lemma LowerOfLower(s: string)
    requires IsLower(s)
    ensures Lower(s) == s
  {
  }

  lemma LowerConcat(a: string, b: string)
    ensures Lower(a + b) == Lower(a) + Lower(b)
  {
  }

  /** `s.replace(a, b)` for single characters `a` and `b`. */
  function ReplaceChar(s: string, a: char, b: char): (r: string)
    ensures |r| == |s|
    ensures forall i :: 0 <= i < |s| ==> r[i] == (if s[i] == a then b else s[i])
  {
    seq(|s|, i requires 0 <= i < |s| => if s[i] == a then b else s[i])
  }

  /** `q` occurs in `s` starting at position `i`. */
  predicate OccursAt(q: string, s: string, i: int) {
    0 <= i <= |s| - |q| && s[i..i + |q|] == q
  }

  /** `q in s` for strings: `q` occurs at some position of `s`. */
  predicate Occurs(q: string, s: string) {
    exists i :: 0 <= i <= |s| && OccursAt(q, s, i)
  }

  /** `s.find(q)`: the first position where `q` occurs, or -1. */
  function Find(s: string, q: string): (r: int)
    ensures r == -1 || OccursAt(q, s, r)
    ensures forall j :: OccursAt(q, s, j) ==> r != -1 && r <= j
    decreases |s|
  {
    if |q| > |s| then -1
    else if q <= s then 0
    else
      var k := Find(s[1..], q);
      FindStep(s, q, k);
      if k == -1 then -1 else k + 1
  }

  /** A search from the second position gives the search from the first,
      when the pattern does not start the string. */
  lemma FindStep(s: string, q: string, k: int)
    requires |q| <= |s| && !(q <= s)
    requires k == -1 || OccursAt(q, s[1..], k)
    requires forall j :: OccursAt(q, s[1..], j) ==> k != -1 && k <= j
    ensures var r := if k == -1 then -1 else k + 1;
            (r == -1 || OccursAt(q, s, r)) && forall j :: OccursAt(q, s, j) ==> r != -1 && r <= j
  {
    assert !OccursAt(q, s, 0);
    forall j | OccursAt(q, s, j) && j > 0 ensures OccursAt(q, s[1..], j - 1) {
      assert s[1..][j - 1..j - 1 + |q|] == s[j..j + |q|];
    }
    if k != -1 {
      assert s[1..][k..k + |q|] == s[k + 1..k + 1 + |q|];
    }
  }

  lemma FindOccurs(s: string, q: string)
    ensures Find(s, q) >= 0 <==> Occurs(q, s)
  {
    if Find(s, q) >= 0 {
      assert OccursAt(q, s, Find(s, q));
    }
  }

  /** Python's `a <= b` on strings: lexicographic by code point. */
  predicate Le(a: string, b: string)
    decreases |a|
  {
    if |a| == 0 then true
    else if |b| == 0 then false
    else if a[0] != b[0] then a[0] < b[0]
    else Le(a[1..], b[1..])
  }

  lemma {:induction false} LeTotal(a: string, b: string)
    ensures Le(a, b) || Le(b, a)
    decreases |a|
  {
    if |a| > 0 && |b| > 0 && a[0] == b[0] {
      LeTotal(a[1..], b[1..]);
    }
  }

  lemma {:induction false} LeAntisymmetric(a: string, b: string)
    requires Le(a, b) && Le(b, a)
    ensures a == b
    decreases |a|
  {
    if |a| > 0 && |b| > 0 {
      LeAntisymmetric(a[1..], b[1..]);
      assert a == [a[0]] + a[1..] && b == [b[0]] + b[1..];
    }
  }

  lemma {:induction false} LeTransitive(a: string, b: string, c: string)
    requires Le(a, b) && Le(b, c)
    ensures Le(a, c)
    decreases |a|
  {
    if |a| > 0 && |b| > 0 && |c| > 0 && a[0] == b[0] && b[0] == c[0] {
      LeTransitive(a[1..], b[1..], c[1..]);
    }
  }

  predicate Sorted(s: seq<string>) {
    forall i :: 0 < i < |s| ==> Le(s[i - 1], s[i])
  }

  function Insert(x: string, s: seq<string>): (r: seq<string>)
    requires Sorted(s)
    ensures Sorted(r) && multiset(r) == multiset(s) + multiset{x}
    ensures |r| == |s| + 1 && (r[0] == x || (|s| > 0 && r[0] == s[0]))
  {
    if s == [] then [x]
    else if Le(x, s[0]) then [x] + s
    else
      LeTotal(x, s[0]);
      var t := Insert(x, s[1..]);
      assert s == [s[0]] + s[1..];
      [s[0]] + t
  }

  /** `sorted(xs)` for a list of strings. */
  function Sort(xs: seq<string>): (r: seq<string>)
    ensures Sorted(r) && multiset(r) == multiset(xs)
  {
    if xs == [] then []
    else
      assert xs == [xs[0]] + xs[1..];
      Insert(xs[0], Sort(xs[1..]))
  }

  /** In a sorted sequence every earlier element is at most every later one. */
  lemma {:induction false} SortedPairs(s: seq<string>, i: nat, j: nat)
    requires Sorted(s) && i <= j < |s|
    ensures Le(s[i], s[j])
    decreases j - i
  {
    if i == j {
      LeReflexive(s[i]);
    } else {
      SortedPairs(s, i, j - 1);
      LeTransitive(s[i], s[j - 1], s[j]);
    }
  }

  lemma {:induction false} LeReflexive(a: string)
    ensures Le(a, a)
    decreases |a|
  {
    if |a| > 0 {
      LeReflexive(a[1..]);
    }
  }

  /** A sorted sequence is determined by its elements, so the result of
      `sorted(...)` is unique. */
  lemma {:induction false} SortedUnique(s: seq<string>, t: seq<string>)
    requires Sorted(s) && Sorted(t) && multiset(s) == multiset(t)
    ensures s == t
    decreases |s|
  {
    assert |t| == |multiset(t)| == |multiset(s)| == |s|;
    if |s| > 0 {
      SortedSameHead(s, t);
      SameTail(s, t);
      assert Sorted(s[1..]) && Sorted(t[1..]) by {
        assert forall i :: 0 <= i < |s| - 1 ==> s[1..][i] == s[i + 1];
        assert forall i :: 0 <= i < |t| - 1 ==> t[1..][i] == t[i + 1];
      }
      hide Sorted;
      SortedUnique(s[1..], t[1..]);
      assert s == [s[0]] + s[1..] && t == [t[0]] + t[1..];
    }
  }

  /** Removing the same first element from equal multisets. */
  lemma SameTail(s: seq<string>, t: seq<string>)
    requires |s| > 0 && |t| > 0 && s[0] == t[0] && multiset(s) == multiset(t)
    ensures multiset(s[1..]) == multiset(t[1..])
  {
    assert s == [s[0]] + s[1..] && t == [t[0]] + t[1..];
    assert multiset(s[1..]) == multiset(s) - multiset{s[0]};
    assert multiset(t[1..]) == multiset(t) - multiset{t[0]};
  }

  /** Two sorted orderings of the same elements start alike. */
  lemma SortedSameHead(s: seq<string>, t: seq<string>)
    requires Sorted(s) && Sorted(t) && multiset(s) == multiset(t) && |s| > 0 && |t| > 0
    ensures s[0] == t[0]
  {
    assert s[0] in multiset(t) && t[0] in multiset(s);
    var i :| 0 <= i < |t| && t[i] == s[0];
    var j :| 0 <= j < |s| && s[j] == t[0];
    SortedPairs(t, 0, i);
    SortedPairs(s, 0, j);
    LeAntisymmetric(s[0], t[0]);
  }

  /** Sorted with no element twice, as `sorted(set(...))` yields. */
  predicate StrictlySorted(s: seq<string>) {
    forall i :: 0 < i < |s| ==> Le(s[i - 1], s[i]) && s[i - 1] != s[i]
  }

  lemma {:induction false} StrictlySortedDistinct(s: seq<string>, i: nat, j: nat)
    requires StrictlySorted(s) && i < j < |s|
    ensures Le(s[i], s[j]) && s[i] != s[j]
    decreases j - i
  {
    if i + 1 < j {
      StrictlySortedDistinct(s, i, j - 1);
      LeTransitive(s[i], s[j - 1], s[j]);
      if s[i] == s[j] {
        LeAntisymmetric(s[j - 1], s[j]);
      }
    }
  }

  function InsertNew(x: string, s: seq<string>): (r: seq<string>)
    requires StrictlySorted(s) && x !in s
    ensures StrictlySorted(r) && |r| == |s| + 1
    ensures forall y :: y in r <==> y == x || y in s
    ensures r[0] == x || (|s| > 0 && r[0] == s[0])
  {
    if s == [] then [x]
    else if Le(x, s[0]) then [x] + s
    else
      LeTotal(x, s[0]);
      assert s == [s[0]] + s[1..];
      [s[0]] + InsertNew(x, s[1..])
  }

  /** `sorted(set(xs))` */
  function SortedSet(xs: seq<string>): (r: seq<string>)
    ensures StrictlySorted(r) && forall y :: y in r <==> y in xs
  {
    if xs == [] then []
    else
      assert xs == [xs[0]] + xs[1..];
      var t := SortedSet(xs[1..]);
      if xs[0] in t then t else InsertNew(xs[0], t)
  }

  /** No element twice. */
  predicate NoRepeats(s: seq<string>) {
    forall i, j :: 0 <= i < j < |s| ==> s[i] != s[j]
  }

  lemma {:induction false} NoRepeatsOnce(s: seq<string>, x: string)
    requires NoRepeats(s)
    ensures multiset(s)[x] <= 1
  {
    if s != [] {
      assert s == [s[0]] + s[1..];
      assert NoRepeats(s[1..]) by {
        forall i, j | 0 <= i < j < |s[1..]| ensures s[1..][i] != s[1..][j] {
          assert s[1..][i] == s[i + 1] && s[1..][j] == s[j + 1];
        }
      }
      NoRepeatsOnce(s[1..], x);
      if s[0] == x {
        assert x !in s[1..] by {
          forall k | 0 <= k < |s[1..]| ensures s[1..][k] != x {
            assert s[1..][k] == s[k + 1];
          }
        }
      }
    }
  }

  /** A sorted arrangement of keys that are all different is strictly
      ascending and loses none of them. */
  lemma SortedOfNoRepeats(r: seq<string>, xs: seq<string>)
    requires Sorted(r) && multiset(r) == multiset(xs) && NoRepeats(xs)
    ensures StrictlySorted(r) && |r| == |xs|
  {
    assert |r| == |multiset(r)| == |multiset(xs)| == |xs|;
    forall i | 0 < i < |r| ensures r[i - 1] != r[i] {
      if r[i - 1] == r[i] {
        var x := r[i];
        assert r == r[..i - 1] + [x, x] + r[i + 1..];
        assert multiset(r) == multiset(r[..i - 1]) + multiset{x, x} + multiset(r[i + 1..]);
        NoRepeatsOnce(xs, x);
        assert false;
      }
    }
  }

  lemma SortNoRepeats(xs: seq<string>)
    requires NoRepeats(xs)
    ensures StrictlySorted(Sort(xs)) && |Sort(xs)| == |xs|
  {
    SortedOfNoRepeats(Sort(xs), xs);
  }

  /** `s.rfind(c)`: the position of the last `c` in `s`, or -1. */
  function RFind(s: string, c: char): (r: int)
    ensures -1 <= r < |s|
    ensures r >= 0 ==> s[r] == c
    ensures forall j :: r < j < |s| ==> s[j] != c
  {
    if |s| == 0 then -1
    else if s[|s| - 1] == c then |s| - 1
    else RFind(s[..|s| - 1], c)
  }

  /** `os.path.splitext(p)[1]` with `/` as the separator: the last component
      from its last dot on, unless only dots come before that dot in the
      component (a hidden file such as `.profile` has no extension). */
  function Ext(p: string): (r: string)
    ensures |r| <= |p| && r == p[|p| - |r|..]
    ensures r != [] ==> r[0] == '.' && '/' !in r && '.' !in r[1..]
  {
    var sep := RFind(p, '/');
    var dot := RFind(p, '.');
    if dot > sep && exists k :: sep + 1 <= k < dot && p[k] != '.' then p[dot..] else []
  }

  predicate IsDigit(c: char) {
    '0' <= c <= '9'
  }

  /** `str(n)` for a natural number: decimal digits, no leading zero. */
  function NatToString(n: nat): (r: string)
    ensures |r| > 0 && forall i :: 0 <= i < |r| ==> IsDigit(r[i])
    ensures r[0] == '0' ==> n == 0
  {
    if n < 10 then [('0' as int + n) as char]
    else NatToString(n / 10) + [('0' as int + n % 10) as char]
  }

  /** `int(s)` on a string of decimal digits. */
  function ParseDigits(s: string): (n: nat)
    requires forall i :: 0 <= i < |s| ==> IsDigit(s[i])
  {
    if s == [] then 0
    else
      assert IsDigit(s[|s| - 1]);
      10 * ParseDigits(s[..|s| - 1]) + (s[|s| - 1] as int - '0' as int)
  }

  /** Reading the digits back gives the number. */
  lemma {:induction false} ParseNatToString(n: nat)
    ensures ParseDigits(NatToString(n)) == n
  {
    if n >= 10 {
      var s := NatToString(n);
      ParseNatToString(n / 10);
      assert s[..|s| - 1] == NatToString(n / 10);
    }
  }

  /** `str(i)` for any integer. */
  function IntToString(i: int): (r: string)
    ensures i < 0 ==> r == "-" + NatToString(-i)
    ensures i >= 0 ==> r == NatToString(i)
  {
    if i < 0 then "-" + NatToString(-i) else NatToString(i)
  }
}
