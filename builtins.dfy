/** The Python built-ins the scraper's helpers rely on, written out so that the
    modules modelling the repository's own code can use them with their exact
    semantics: list comprehensions with a filter, `sub in s` on strings,
    `str.lower`, `str.isspace`/`str.strip`, `str.split(sep)`, `sep.join(...)`,
    `str.isdigit`, `int(...)`, `str(n)` and `list(a_set)`.
    Character classes are ASCII, plus the full set of characters
    Python's `str.isspace` accepts. */
module Builtins {

  /** The exceptions the modelled code can raise. */
  datatype Exception =
    | ValueError(message: string)
    | TypeError(message: string)

  /** No element occurs twice. */
  predicate Distinct<T(==)>(s: seq<T>) {
    forall i, j | 0 <= i < j < |s| :: s[i] != s[j]
  }

  // ---------------------------------------------------------------------
  // Comprehensions

  /** `[x for x in s if p(x)]`: keeps the elements satisfying `p`, in order,
      with their repetitions. */
  function Filter<T>(p: T -> bool, s: seq<T>): (r: seq<T>)
    ensures |r| <= |s|
    ensures forall i | 0 <= i < |r| :: r[i] in s && p(r[i])
    ensures forall i | 0 <= i < |s| && p(s[i]) :: s[i] in r
  {
    if s == [] then []
    else (if p(s[0]) then [s[0]] else []) + Filter(p, s[1..])
  }

  /** Filtering keeps every wanted element as often as it occurs and drops
      every other one completely. */
  lemma {:induction false} FilterMultiset<T>(p: T -> bool, s: seq<T>, x: T)
    ensures multiset(Filter(p, s))[x] == if p(x) then multiset(s)[x] else 0
  {
    if s != [] {
      FilterMultiset(p, s[1..], x);
      assert s == [s[0]] + s[1..];
    }
  }

  /** Filtering distributes over concatenation (order is preserved). */
  lemma {:induction false} FilterAppend<T>(p: T -> bool, s: seq<T>, t: seq<T>)
    ensures Filter(p, s + t) == Filter(p, s) + Filter(p, t)
  {
    if s == [] {
      assert s + t == t;
    } else {
      assert (s + t)[1..] == s[1..] + t;
      FilterAppend(p, s[1..], t);
    }
  }

  /** Filtering a sequence all of whose elements pass changes nothing. */
  lemma {:induction false} FilterKeepsAll<T>(p: T -> bool, s: seq<T>)
    requires forall i | 0 <= i < |s| :: p(s[i])
    ensures Filter(p, s) == s
  {
    if s != [] {
      FilterKeepsAll(p, s[1..]);
      assert [s[0]] + s[1..] == s;
    }
  }

  /** `list(map(f, s))`. */
  function MapSeq<T, U>(f: T -> U, s: seq<T>): (r: seq<U>)
    ensures |r| == |s|
    ensures forall i | 0 <= i < |s| :: r[i] == f(s[i])
  {
    seq(|s|, i requires 0 <= i < |s| => f(s[i]))
  }

  /** `lst.index(x)`: the position of the first occurrence of `x`. */
  function IndexOf<T(==)>(lst: seq<T>, x: T): (k: nat)
    requires x in lst
    ensures k < |lst| && lst[k] == x
    ensures forall j | 0 <= j < k :: lst[j] != x
  {
    if lst[0] == x then 0 else 1 + IndexOf(lst[1..], x)
  }

  // ---------------------------------------------------------------------
  // Strings

  /** `sub` occurs in `s` starting at index `i`. */
  predicate OccursAt(s: string, sub: string, i: nat) {
    i + |sub| <= |s| && s[i..i + |sub|] == sub
  }

  /** Python's `sub in s` on strings: `sub` occurs in `s` as a contiguous
      substring. */
  function Contains(s: string, sub: string): (b: bool)
    ensures b <==> exists i: nat :: OccursAt(s, sub, i)
    decreases |s|
  {
    if sub <= s then
      assert OccursAt(s, sub, 0);
      true
    else if s == [] then
      false
    else
      var b := Contains(s[1..], sub);
      assert forall i: nat :: OccursAt(s[1..], sub, i) <==> OccursAt(s, sub, i + 1) by {
        forall i: nat ensures OccursAt(s[1..], sub, i) <==> OccursAt(s, sub, i + 1) {
          if i + 1 + |sub| <= |s| {
            assert s[1..][i..i + |sub|] == s[i + 1..i + 1 + |sub|];
          }
        }
      }
      assert !OccursAt(s, sub, 0);
      assert b ==> OccursAt(s, sub, 0) || exists i: nat :: OccursAt(s[1..], sub, i);
      assert (exists i: nat :: OccursAt(s, sub, i)) ==> exists i: nat :: OccursAt(s[1..], sub, i) by {
        if exists i: nat :: OccursAt(s, sub, i) {
          var i: nat :| OccursAt(s, sub, i);
          assert i > 0;
          assert OccursAt(s[1..], sub, i - 1);
        }
      }
      b
  }

  /** `str.lower` on one character (ASCII letters only). */
  function LowerChar(c: char): char {
    if 'A' <= c <= 'Z' then (c as int + 32) as char else c
  }

  /** `str.lower`, character by character. */
  function Lower(s: string): (r: string)
    ensures |r| == |s|
    ensures forall i | 0 <= i < |s| :: r[i] == LowerChar(s[i])
  {
    seq(|s|, i requires 0 <= i < |s| => LowerChar(s[i]))
  }

  predicate IsUpper(c: char) {
    'A' <= c <= 'Z'
  }

  /** A lower-cased string contains no upper-case letter. */
  lemma LowerHasNoUpper(s: string)
    ensures forall i | 0 <= i < |Lower(s)| :: !IsUpper(Lower(s)[i])
  {
  }

  /** The characters for which Python's `str.isspace` holds. */
  predicate IsSpace(c: char) {
    c == ' ' || ('\t' <= c <= '\r') || ('\U{001C}' <= c <= '\U{001F}')
    || c == '\U{0085}' || c == '\U{00A0}' || c == '\U{1680}'
    || ('\U{2000}' <= c <= '\U{200A}') || c == '\U{2028}' || c == '\U{2029}'
    || c == '\U{202F}' || c == '\U{205F}' || c == '\U{3000}'
  }

  /** `bool(s.strip())`: the string has a character that is not whitespace. */
  predicate NotBlank(s: string) {
    exists i :: 0 <= i < |s| && !IsSpace(s[i])
  }

  /** `s.split(sep)` with an explicit one-character separator: the pieces
      between separators, including empty ones; `"".split(sep) == [""]`. */
  function Split(s: string, sep: char): (parts: seq<string>)
    ensures |parts| >= 1
    ensures forall k | 0 <= k < |parts| :: sep !in parts[k]
  {
    if s == [] then [""]
    else
      var rest := Split(s[1..], sep);
      if s[0] == sep then [""] + rest
      else [[s[0]] + rest[0]] + rest[1..]
  }

  /** `sep.join(parts)`. */
  function Join(sep: string, parts: seq<string>): string {
    if parts == [] then ""
    else if |parts| == 1 then parts[0]
    else parts[0] + sep + Join(sep, parts[1..])
  }

  /** Joining the pieces of a split with the same separator gives the
      string back. */
  lemma {:induction false} JoinSplit(s: string, sep: char)
    ensures Join([sep], Split(s, sep)) == s
  {
    if s != [] {
      var rest := Split(s[1..], sep);
      JoinSplit(s[1..], sep);
      if s[0] == sep {
        assert Split(s, sep) == [""] + rest;
        assert ([""] + rest)[1..] == rest;
      } else {
        var parts := Split(s, sep);
        assert parts == [[s[0]] + rest[0]] + rest[1..];
        if |rest| == 1 {
          assert parts == [[s[0]] + rest[0]];
        } else {
          assert parts[1..] == rest[1..];
          assert Join([sep], rest) == rest[0] + [sep] + Join([sep], rest[1..]);
        }
      }
    }
  }

  /** Splitting a join of separator-free pieces gives the pieces back. */
  lemma {:induction false} SplitJoin(parts: seq<string>, sep: char)
    requires parts != []
    requires forall k | 0 <= k < |parts| :: sep !in parts[k]
    ensures Split(Join([sep], parts), sep) == parts
  {
    if |parts| == 1 {
      SplitNoSep(parts[0], sep);
    } else {
      SplitJoin(parts[1..], sep);
      SplitPrefix(parts[0], sep, Join([sep], parts[1..]));
      assert [parts[0]] + parts[1..] == parts;
    }
  }

  /** A string without the separator splits into itself. */
  lemma {:induction false} SplitNoSep(s: string, sep: char)
    requires sep !in s
    ensures Split(s, sep) == [s]
  {
    if s != [] {
      SplitNoSep(s[1..], sep);
      assert [s[0]] + s[1..] == s;
    }
  }

  /** Splitting `u + sep + t` where `u` has no separator puts `u` in front of
      the pieces of `t`. */
  lemma {:induction false} SplitPrefix(u: string, sep: char, t: string)
    requires sep !in u
    ensures Split(u + [sep] + t, sep) == [u] + Split(t, sep)
  {
    if u == [] {
      assert u + [sep] + t == [sep] + t;
      assert ([sep] + t)[1..] == t;
    } else {
      var w := u + [sep] + t;
      assert w[0] == u[0];
      assert w[1..] == u[1..] + [sep] + t;
      SplitPrefix(u[1..], sep, t);
      assert [u[0]] + u[1..] == u;
    }
  }

  /** `s.split('/')[-1]`: the part after the last `/` (all of `s` when it
      has none). */
  function LastSegment(s: string): string {
    var parts := Split(s, '/');
    parts[|parts| - 1]
  }

  /** The last segment is a suffix of the path without any `/`, and it is
      preceded by a `/` unless it is the whole path. */
  lemma {:induction false} LastSegmentIsSuffix(s: string)
    ensures var r := LastSegment(s);
      && '/' !in r
      && |r| <= |s|
      && r == s[|s| - |r|..]
      && (|r| < |s| ==> s[|s| - |r| - 1] == '/')
  {
    if s != [] {
      LastSegmentIsSuffix(s[1..]);
      var rest := Split(s[1..], '/');
      var t := LastSegment(s[1..]);
      if s[0] != '/' && |rest| == 1 {
        JoinSplit(s[1..], '/');
        assert LastSegment(s) == [s[0]] + rest[0];
        assert s == [s[0]] + s[1..];
      } else if s[0] == '/' {
        assert Split(s, '/') == [""] + rest;
        assert LastSegment(s) == t;
        if |t| < |s| - 1 {
          assert s[1..][|s| - 1 - |t| - 1] == '/';
        }
      } else {
        assert LastSegment(s) == t;
        if |t| == |s| - 1 {
          assert t == s[1..];
          SplitNoSep(s[1..], '/');
        }
        assert s[1..][|s| - 1 - |t| - 1] == '/';
      }
    }
  }

  // ---------------------------------------------------------------------
  // Digits

  predicate IsDigit(c: char) {
    '0' <= c <= '9'
  }

  /** `s.isdigit()`: non-empty and made of digits only. */
  predicate IsDigits(s: string) {
    |s| > 0 && forall i | 0 <= i < |s| :: IsDigit(s[i])
  }

  /** `int(s)` on a string of decimal digits. */
  function DecimalValue(s: string): nat
    requires forall i | 0 <= i < |s| :: IsDigit(s[i])
  {
    if s == [] then 0
    else
      assert IsDigit(s[|s| - 1]);
      10 * DecimalValue(s[..|s| - 1]) + (s[|s| - 1] as int - '0' as int)
  }

  /** `str(n)` for a non-negative integer. */
  function DecimalString(n: nat): string
  {
    if n < 10 then [('0' as int + n) as char]
    else DecimalString(n / 10) + [('0' as int + n % 10) as char]
  }

  /** `int(str(n)) == n`: the decimal text of a number reads back as that
      number and passes `isdigit`. */
  lemma {:induction false} DecimalRoundTrip(n: nat)
    ensures IsDigits(DecimalString(n))
    ensures DecimalValue(DecimalString(n)) == n
  {
    if n >= 10 {
      DecimalRoundTrip(n / 10);
      var s := DecimalString(n);
      assert s[..|s| - 1] == DecimalString(n / 10);
    }
  }

  // ---------------------------------------------------------------------
  // sorted() on a set of non-negative integers

  lemma HasMinimum(s: set<nat>)
    requires s != {}
    ensures exists m :: m in s && forall y | y in s :: m <= y
  {
    var x :| x in s;
    MinimumAtMost(s, x);
  }

  /** Descending from any element reaches a least one. */
  lemma {:induction false} MinimumAtMost(s: set<nat>, x: nat)
    requires x in s
    ensures exists m :: m in s && forall y | y in s :: m <= y
    decreases x
  {
    if y :| y in s && y < x {
      MinimumAtMost(s, y);
    } else {
      assert forall y | y in s :: x <= y;
    }
  }

  /** `min(s)`. */
  function Minimum(s: set<nat>): (m: nat)
    requires s != {}
    ensures m in s && forall y | y in s :: m <= y
  {
    HasMinimum(s);
    var m :| m in s && forall y | y in s :: m <= y;
    m
  }

  /** `sorted(s)`: the elements of `s` in ascending order. */
  function Sorted(s: set<nat>): (r: seq<nat>)
    ensures |r| == |s|
    ensures forall i, j | 0 <= i < j < |r| :: r[i] < r[j]
    ensures forall x :: x in r <==> x in s
    decreases s
  {
    if s == {} then []
    else
      var m := Minimum(s);
      [m] + Sorted(s - {m})
  }

  /** How many elements of `s` are smaller than `x`. */
  function Rank(s: set<nat>, x: nat): nat {
    |set y | y in s && y < x|
  }

  /** The element at position `k` of `sorted(s)` has exactly `k` smaller
      elements in `s`: the position of an element in the sorted order is its
      rank. */
  lemma {:induction false} SortedRank(s: set<nat>, k: nat)
    requires k < |s|
    ensures Rank(s, Sorted(s)[k]) == k
  {
    var m := Minimum(s);
    var rest := s - {m};
    assert Sorted(s) == [m] + Sorted(rest);
    if k == 0 {
      RankOfMinimum(s, m);
    } else {
      var x := Sorted(rest)[k - 1];
      SortedRank(rest, k - 1);
      RankAboveMinimum(s, m, x);
    }
  }

  lemma RankOfMinimum(s: set<nat>, m: nat)
    requires forall y | y in s :: m <= y
    ensures Rank(s, m) == 0
  {
    var below := set y | y in s && y < m;
    assert below == {};
  }

  lemma RankAboveMinimum(s: set<nat>, m: nat, x: nat)
    requires m in s && forall y | y in s :: m <= y
    requires x in s - {m}
    ensures Rank(s, x) == Rank(s - {m}, x) + 1
  {
    var below := set y | y in s && y < x;
    var belowRest := set y | y in s - {m} && y < x;
    assert below == belowRest + {m};
  }

  // ---------------------------------------------------------------------
  // Sets

  /** `list(a_set)`: the elements of the set, each once, in the order the set
      happens to be iterated (left unspecified). */
  method SetToList<T(==)>(s: set<T>) returns (r: seq<T>)
    ensures |r| == |s|
    ensures forall x :: x in r <==> x in s
    ensures Distinct(r)
  {
    r := [];
    var rest := s;
    while rest != {}
      invariant forall x :: x in s <==> x in r || x in rest
      invariant forall x | x in r :: x !in rest
      invariant Distinct(r)
      invariant |r| + |rest| == |s|
      decreases |rest|
    {
      var x :| x in rest;
      r := r + [x];
      rest := rest - {x};
    }
  }
}
