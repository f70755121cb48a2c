/** Small value types and the sequence and string operations of the Java
    standard library that the indexing core relies on. */
module Util {

  datatype Option<T> = None | Some(value: T)

  datatype Result<T, E> = Success(value: T) | Failure(error: E)

  /** A computation that either completes or throws an exception carrying a message. */
  datatype Outcome<E> = Pass | Fail(error: E)

  // ---------------------------------------------------------------------------
  // Sequences
  // ---------------------------------------------------------------------------

  /** The elements of `s` that satisfy `p`, in their original order and with
      their duplicates: what a Java stream `filter` or a loop that appends the
      matching elements produces. */
  function Filter<T>(s: seq<T>, p: T -> bool): (r: seq<T>)
    ensures |r| <= |s|
    ensures forall x :: x in r ==> x in s && p(x)
    ensures forall x :: x in s && p(x) ==> x in r
  {
    if s == [] then [] else (if p(s[0]) then [s[0]] else []) + Filter(s[1..], p)
  }

  /** Filtering a sequence extended by one element: the shape a loop that
      appends the matching elements follows. */
  lemma {:induction false} FilterSnoc<T>(s: seq<T>, x: T, p: T -> bool)
    ensures Filter(s + [x], p) == Filter(s, p) + (if p(x) then [x] else [])
  {
    if s == [] {
      assert s + [x] == [x];
    } else {
      assert (s + [x])[1..] == s[1..] + [x];
      FilterSnoc(s[1..], x, p);
    }
  }

  /** Filtering by a predicate and by its negation splits a sequence in two:
      every element goes to exactly one side. */
  lemma {:induction false} FilterPartition<T>(s: seq<T>, p: T -> bool, q: T -> bool)
    requires forall x :: q(x) == !p(x)
    ensures |Filter(s, p)| + |Filter(s, q)| == |s|
    ensures multiset(Filter(s, p)) + multiset(Filter(s, q)) == multiset(s)
  {
    if s != [] {
      FilterPartition(s[1..], p, q);
      assert s == [s[0]] + s[1..];
    }
  }

  /** No two elements share a key (a primary key, or the keys of a map built from `rows`). */
  predicate UniqueKeys<T, K(==)>(rows: seq<T>, key: T -> K) {
    forall i, j :: 0 <= i < j < |rows| ==> key(rows[i]) != key(rows[j])
  }

  /** Filtering keeps keys unique. */
  lemma {:induction false} FilterKeepsKeysUnique<T, K>(s: seq<T>, p: T -> bool, key: T -> K)
    requires UniqueKeys(s, key)
    ensures UniqueKeys(Filter(s, p), key)
  {
    if s != [] {
      FilterKeepsKeysUnique(s[1..], p, key);
      var r := Filter(s, p);
      if p(s[0]) {
        assert r == [s[0]] + Filter(s[1..], p);
        forall j | 0 < j < |r| ensures key(r[0]) != key(r[j]) {
          assert r[j] in s[1..];
          var k :| 0 <= k < |s[1..]| && s[1..][k] == r[j];
          assert s[k + 1] == r[j];
        }
        forall i, j | 0 < i < j < |r| ensures key(r[i]) != key(r[j]) {
          assert r[i] == Filter(s[1..], p)[i - 1] && r[j] == Filter(s[1..], p)[j - 1];
        }
      }
    }
  }

  /** `a` is obtained from `b` by deleting elements, keeping the order. */
  predicate IsSubsequence<T(==)>(a: seq<T>, b: seq<T>)
    decreases |b|
  {
    if a == [] then true
    else if b == [] then false
    else if a[0] == b[0] then IsSubsequence(a[1..], b[1..])
    else IsSubsequence(a, b[1..])
  }

  lemma {:induction false} SubsequenceOfSuffix<T>(a: seq<T>, b: seq<T>)
    requires b != [] && IsSubsequence(a, b[1..])
    ensures IsSubsequence(a, b)
    decreases |b|, 0
  {
    if a != [] && a[0] == b[0] {
      if |b| > 1 && a[1..] != [] {
        SubsequenceOfTail(a, b[1..]);
      }
    }
  }

  lemma {:induction false} SubsequenceOfTail<T>(a: seq<T>, b: seq<T>)
    requires a != [] && IsSubsequence(a, b)
    ensures IsSubsequence(a[1..], b)
    decreases |b|, 1
  {
    if a[0] == b[0] {
      if b[1..] != [] {
        SubsequenceOfSuffix(a[1..], b);
      } else {
        assert a[1..] == [];
      }
    } else {
      SubsequenceOfTail(a, b[1..]);
      SubsequenceOfSuffix(a[1..], b);
    }
  }

  /** A filter keeps the order of what it keeps. */
  lemma {:induction false} FilterIsSubsequence<T>(s: seq<T>, p: T -> bool)
    ensures IsSubsequence(Filter(s, p), s)
  {
    if s != [] {
      FilterIsSubsequence(s[1..], p);
      if p(s[0]) {
        assert Filter(s, p) == [s[0]] + Filter(s[1..], p);
        assert Filter(s, p)[1..] == Filter(s[1..], p);
      } else {
        assert Filter(s, p) == Filter(s[1..], p);
        if Filter(s, p) != [] {
          SubsequenceOfSuffix(Filter(s, p), s);
        }
      }
    }
  }

  // ---------------------------------------------------------------------------
  // Strings (java.lang.String)
  // ---------------------------------------------------------------------------

  /** `String.startsWith`. */
  predicate StartsWith(s: string, prefix: string) {
    |prefix| <= |s| && s[..|prefix|] == prefix
  }

  /** `sub` occurs in `s` at position `i`. */
  predicate OccursAt(s: string, sub: string, i: int) {
    0 <= i && i + |sub| <= |s| && s[i..i + |sub|] == sub
  }

  /** `String.contains`. */
  predicate Contains(s: string, sub: string) {
    exists i :: 0 <= i <= |s| - |sub| && OccursAt(s, sub, i)
  }

  /** The characters Java's regular-expression `.` does not match
      (`java.util.regex.Pattern` without the DOTALL or UNIX_LINES flag). */
  predicate IsLineTerminator(c: char) {
    c == '\n' || c == '\r' || c == '\U{0085}' || c == '\U{2028}' || c == '\U{2029}'
  }

  predicate HasLineTerminator(s: string) {
    exists i :: 0 <= i < |s| && IsLineTerminator(s[i])
  }

  /** The case folding of a regular expression compiled with `(?i)` and without
      UNICODE_CASE: only the ASCII letters A-Z fold. */
  function ToLowerAscii(c: char): char {
    if 'A' <= c <= 'Z' then (c as int + 32) as char else c
  }

  /** `s` ends with the lower-case ASCII word `suffix`, ignoring ASCII case. */
  predicate EndsWithIgnoreCase(s: string, suffix: string) {
    |suffix| <= |s| &&
    forall k :: 0 <= k < |suffix| ==> ToLowerAscii(s[|s| - |suffix| + k]) == suffix[k]
  }

  /** `String.indexOf(char)`: the first position of `c`, or -1. */
  function IndexOfChar(s: string, c: char): (r: int)
    ensures -1 <= r < |s|
    ensures r == -1 <==> c !in s
    ensures r >= 0 ==> s[r] == c && c !in s[..r]
  {
    if s == [] then -1
    else if s[0] == c then 0
    else
      var rest := IndexOfChar(s[1..], c);
      assert s[1..][..rest + 1] == s[1..rest + 2] by { }
      if rest == -1 then -1 else rest + 1
  }

  /** `s.replace(target, "")`: every non-overlapping occurrence of `target`,
      found left to right, is removed. An empty `target` leaves `s` as it is. */
  function RemoveAll(s: string, target: string): (r: string)
    ensures |r| <= |s|
    decreases |s|
  {
    if target == [] || |s| < |target| then s
    else if s[..|target|] == target then RemoveAll(s[|target|..], target)
    else [s[0]] + RemoveAll(s[1..], target)
  }

  /** Removing a target that does not occur changes nothing. */
  lemma {:induction false} RemoveAllAbsent(s: string, target: string)
    requires !Contains(s, target)
    ensures RemoveAll(s, target) == s
    decreases |s|
  {
    if target != [] && |s| >= |target| {
      assert s[..|target|] != target by {
        if s[..|target|] == target { assert OccursAt(s, target, 0); }
      }
      assert !Contains(s[1..], target) by {
        forall i | OccursAt(s[1..], target, i) ensures false {
          assert s[1..][i..i + |target|] == s[i + 1..i + 1 + |target|];
          assert OccursAt(s, target, i + 1);
        }
      }
      RemoveAllAbsent(s[1..], target);
      assert s == [s[0]] + s[1..];
    }
  }

  /** A leading occurrence of the target is removed, the rest is processed further. */
  lemma RemoveAllLeading(target: string, rest: string)
    requires target != []
    ensures RemoveAll(target + rest, target) == RemoveAll(rest, target)
  {
    assert (target + rest)[..|target|] == target;
    assert (target + rest)[|target|..] == rest;
  }
}
