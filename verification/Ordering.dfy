/** Strings in code-point order, and sequences sorted by a string key. */
module Ordering {
  predicate Less(a: string, b: string) {
    if b == [] then false
    else if a == [] then true
    else a[0] < b[0] || (a[0] == b[0] && Less(a[1..], b[1..]))
  }

  lemma {:induction false} LessIsStrict(a: string)
    ensures !Less(a, a)
  {
    if a != [] { LessIsStrict(a[1..]); }
  }

  lemma {:induction false} LessIsTransitive(a: string, b: string, c: string)
    requires Less(a, b) && Less(b, c)
    ensures Less(a, c)
  {
    if a != [] && a[0] == b[0] == c[0] { LessIsTransitive(a[1..], b[1..], c[1..]); }
  }

  lemma {:induction false} LessIsTotal(a: string, b: string)
    ensures a == b || Less(a, b) || Less(b, a)
  {
    if a != [] && b != [] && a[0] == b[0] {
      LessIsTotal(a[1..], b[1..]);
      if a[1..] == b[1..] { assert a == [a[0]] + a[1..] == b; }
    }
  }

  /** Keys do not decrease. */
  predicate SortedBy<T>(key: T -> string, s: seq<T>) {
    forall i, j :: 0 <= i < j < |s| ==> !Less(key(s[j]), key(s[i]))
  }

  /** Keys strictly increase, so no two are equal. */
  predicate StrictlySortedBy<T>(key: T -> string, s: seq<T>) {
    forall i, j :: 0 <= i < j < |s| ==> Less(key(s[i]), key(s[j]))
  }

  /** Insert before the first element with a larger key, so that equal keys keep their order. */
  function Insert<T>(key: T -> string, s: seq<T>, x: T): (r: seq<T>)
    ensures multiset(r) == multiset(s) + multiset{x}
    ensures |r| == |s| + 1
  {
    if s == [] then [x]
    else if Less(key(x), key(s[|s| - 1])) then
      var front := Insert(key, s[..|s| - 1], x);
      assert s == s[..|s| - 1] + [s[|s| - 1]];
      front + [s[|s| - 1]]
    else s + [x]
  }

  function SortBy<T>(key: T -> string, s: seq<T>): (r: seq<T>)
    ensures multiset(r) == multiset(s)
    ensures |r| == |s|
  {
    if s == [] then []
    else
      assert s == s[..|s| - 1] + [s[|s| - 1]];
      Insert(key, SortBy(key, s[..|s| - 1]), s[|s| - 1])
  }

  lemma {:induction false} InsertSorts<T>(key: T -> string, s: seq<T>, x: T)
    requires SortedBy(key, s)
    ensures SortedBy(key, Insert(key, s, x))
  {
    if s != [] {
      var front, last := s[..|s| - 1], s[|s| - 1];
      if Less(key(x), key(last)) {
        InsertSorts(key, front, x);
        var r := Insert(key, front, x);
        forall i | 0 <= i < |r| ensures !Less(key(last), key(r[i])) {
          assert r[i] in multiset(r);
          if r[i] == x {
            if Less(key(last), key(x)) { LessIsTransitive(key(x), key(last), key(x)); LessIsStrict(key(x)); }
          } else {
            assert r[i] in multiset(front);
          }
        }
      } else {
        forall i | 0 <= i < |s| ensures !Less(key(x), key(s[i])) {
          if Less(key(x), key(s[i])) {
            if i < |s| - 1 {
              LessIsTotal(key(s[i]), key(last));
              if Less(key(s[i]), key(last)) { LessIsTransitive(key(x), key(s[i]), key(last)); }
            }
          }
        }
      }
    }
  }

  lemma {:induction false} SortBySorts<T>(key: T -> string, s: seq<T>)
    ensures SortedBy(key, SortBy(key, s))
  {
    if s != [] {
      SortBySorts(key, s[..|s| - 1]);
      InsertSorts(key, SortBy(key, s[..|s| - 1]), s[|s| - 1]);
    }
  }

  /** In order by a first key, and by a second where the first is the same. */
  predicate SortedByBoth<T>(first: T -> string, second: T -> string, s: seq<T>) {
    forall i, j :: 0 <= i < j < |s| ==> InOrder(first, second, s[i], s[j])
  }

  predicate InOrder<T>(first: T -> string, second: T -> string, x: T, y: T) {
    Less(first(x), first(y)) || (first(x) == first(y) && !Less(second(y), second(x)))
  }

  lemma InOrderIsTransitive<T>(first: T -> string, second: T -> string, x: T, y: T, z: T)
    requires InOrder(first, second, x, y) && Less(first(y), first(z))
    ensures InOrder(first, second, x, z)
  {
    if Less(first(x), first(y)) { LessIsTransitive(first(x), first(y), first(z)); }
  }

  /** What an insertion yields is the new element and the old ones. */
  lemma InsertedIsEither<T>(key: T -> string, s: seq<T>, x: T, i: nat)
    requires i < |s| + 1
    ensures Insert(key, s, x)[i] == x || exists k :: 0 <= k < |s| && s[k] == Insert(key, s, x)[i]
  {
    var r := Insert(key, s, x);
    assert r[i] in multiset(r);
    if r[i] != x { assert r[i] in multiset(s); }
  }

  lemma {:induction false} InsertKeepsBoth<T>(first: T -> string, second: T -> string, s: seq<T>, x: T)
    requires SortedByBoth(first, second, s) && forall i :: 0 <= i < |s| ==> !Less(second(x), second(s[i]))
    ensures SortedByBoth(first, second, Insert(first, s, x))
  {
    if s != [] {
      hide Less;
      var front, last := s[..|s| - 1], s[|s| - 1];
      if Less(first(x), first(last)) {
        InsertKeepsBoth(first, second, front, x);
        var r := Insert(first, front, x);
        forall i | 0 <= i < |r| ensures InOrder(first, second, r[i], last) {
          InsertedIsEither(first, front, x, i);
          if k :| 0 <= k < |front| && front[k] == r[i] && r[i] != x {
            assert InOrder(first, second, s[k], s[|s| - 1]);
          }
        }
      } else {
        LessIsTotal(first(x), first(last));
        forall i | 0 <= i < |s| ensures InOrder(first, second, s[i], x) {
          if i < |s| - 1 {
            assert InOrder(first, second, s[i], last);
            if first(last) != first(x) { InOrderIsTransitive(first, second, s[i], last, x); }
          }
        }
      }
    }
  }

  /** Sorting is stable: what is in order by one key and then sorted by another is in order by both. */
  lemma {:induction false} SortKeepsBoth<T>(first: T -> string, second: T -> string, s: seq<T>)
    requires SortedBy(second, s)
    ensures SortedByBoth(first, second, SortBy(first, s))
  {
    if s != [] {
      var front, last := s[..|s| - 1], s[|s| - 1];
      SortKeepsBoth(first, second, front);
      var r := SortBy(first, front);
      forall i | 0 <= i < |r| ensures !Less(second(last), second(r[i])) {
        assert r[i] in multiset(r) && r[i] in multiset(front);
        var k :| 0 <= k < |front| && front[k] == r[i];
        assert s[k] == r[i];
      }
      InsertKeepsBoth(first, second, r, last);
    }
  }

  /** Sorting a sequence whose keys are all different sorts it strictly. */
  lemma SortByStrict<T>(key: T -> string, s: seq<T>)
    requires forall i, j :: 0 <= i < j < |s| ==> key(s[i]) != key(s[j])
    ensures StrictlySortedBy(key, SortBy(key, s))
  {
    SortBySorts(key, s);
    var r := SortBy(key, s);
    forall i, j | 0 <= i < j < |r| ensures Less(key(r[i]), key(r[j])) {
      LessIsTotal(key(r[i]), key(r[j]));
      if key(r[i]) == key(r[j]) {
        SameKeyTwice(key, s, r, i, j);
      }
    }
  }

  lemma SameKeyTwice<T>(key: T -> string, s: seq<T>, r: seq<T>, i: nat, j: nat)
    requires multiset(r) == multiset(s) && i < j < |r| && key(r[i]) == key(r[j])
    ensures exists a, b :: 0 <= a < b < |s| && key(s[a]) == key(s[b])
  {
    if r[i] == r[j] {
      TwiceMeansTwo(r, i, j);
      TwoMeansTwice(s, r[i]);
    } else {
      assert r[i] in multiset(s) && r[j] in multiset(s);
      var a :| 0 <= a < |s| && s[a] == r[i];
      var b :| 0 <= b < |s| && s[b] == r[j];
      if a < b { assert key(s[a]) == key(s[b]); } else { assert key(s[b]) == key(s[a]); }
    }
  }

  lemma TwiceMeansTwo<T>(s: seq<T>, i: nat, j: nat)
    requires i < j < |s| && s[i] == s[j]
    ensures multiset(s)[s[i]] >= 2
  {
    assert s == s[..j] + s[j..];
    assert s[i] in s[..j] && s[j] in s[j..];
  }

  lemma {:induction false} TwoMeansTwice<T>(s: seq<T>, x: T)
    requires multiset(s)[x] >= 2
    ensures exists a, b :: 0 <= a < b < |s| && s[a] == s[b] == x
  {
    var n := |s| - 1;
    assert s == s[..n] + [s[n]];
    if s[n] == x {
      assert x in s[..n];
      var a :| 0 <= a < n && s[..n][a] == x;
      assert s[a] == s[n] == x;
    } else {
      TwoMeansTwice(s[..n], x);
      var a, b :| 0 <= a < b < n && s[..n][a] == s[..n][b] == x;
      assert s[a] == s[b] == x;
    }
  }

  lemma Member<T>(s: seq<T>, i: nat)
    requires i < |s|
    ensures s[i] in s
  {
  }

  /** A strictly sorted sequence is determined by its elements. */
  lemma {:induction false} StrictlySortedIsUnique<T>(key: T -> string, s: seq<T>, t: seq<T>)
    requires StrictlySortedBy(key, s) && StrictlySortedBy(key, t)
    requires forall x :: x in s <==> x in t
    ensures s == t
  {
    if s == [] {
      if |t| > 0 { Member(t, 0); }
    } else {
      assert s[0] in t;
      var i, j := |s| - 1, |t| - 1;
      var x, y := s[i], t[j];
      assert x in t && y in s;
      var k :| 0 <= k < |t| && t[k] == x;
      var l :| 0 <= l < |s| && s[l] == y;
      if k != j {
        assert Less(key(x), key(y));
        if l != i { assert Less(key(y), key(x)); LessIsTransitive(key(x), key(y), key(x)); }
        LessIsStrict(key(x));
      }
      assert x == y;
      forall z ensures z in s[..i] <==> z in t[..j] {
        if z in s[..i] {
          var m :| 0 <= m < i && s[m] == z;
          assert Less(key(z), key(x)) && z in t;
          LessIsStrict(key(x));
        }
        if z in t[..j] {
          var m :| 0 <= m < j && t[m] == z;
          assert Less(key(z), key(x)) && z in s;
          LessIsStrict(key(x));
        }
      }
      StrictlySortedIsUnique(key, s[..i], t[..j]);
      assert s == s[..i] + [x] && t == t[..j] + [y];
    }
  }

  /** Appending above the last key keeps a sequence strictly sorted. */
  lemma StrictlySortedAppend<T>(key: T -> string, s: seq<T>, x: T)
    requires StrictlySortedBy(key, s)
    requires s != [] ==> Less(key(s[|s| - 1]), key(x))
    ensures StrictlySortedBy(key, s + [x])
  {
    forall i | 0 <= i < |s| ensures Less(key(s[i]), key(x)) {
      if i < |s| - 1 { LessIsTransitive(key(s[i]), key(s[|s| - 1]), key(x)); }
    }
  }

  /** One more element keeps a prefix strictly sorted exactly when it is above the one before it. */
  lemma SortedStep<T>(key: T -> string, s: seq<T>, i: nat)
    requires i < |s| && StrictlySortedBy(key, s[..i])
    ensures StrictlySortedBy(key, s[..i + 1]) <==> (i > 0 ==> Less(key(s[i - 1]), key(s[i])))
  {
    var front, longer := s[..i], s[..i + 1];
    assert longer == front + [s[i]];
    if i > 0 {
      assert front[i - 1] == s[i - 1];
      if Less(key(s[i - 1]), key(s[i])) {
        StrictlySortedAppend(key, front, s[i]);
      } else {
        assert !Less(key(longer[i - 1]), key(longer[i]));
      }
    }
  }
}
