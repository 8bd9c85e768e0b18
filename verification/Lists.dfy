// Selecting from a list, in order.
module Lists {

  function Filter<T(!new)>(s: seq<T>, p: T -> bool): (r: seq<T>)
    ensures |r| <= |s|
    ensures forall x :: x in r <==> x in s && p(x)
  {
    if s == [] then [] else
      assert s == [s[0]] + s[1..];
      (if p(s[0]) then [s[0]] else []) + Filter(s[1..], p)
  }

  lemma FirstKept<T(!new)>(s: seq<T>, p: T -> bool)
    requires Filter(s, p) != []
    ensures Filter(s, p)[0] in s && p(Filter(s, p)[0])
  {}

  lemma FilterCons<T(!new)>(x: T, s: seq<T>, p: T -> bool)
    ensures Filter([x] + s, p) == if p(x) then [x] + Filter(s, p) else Filter(s, p)
  {
    assert ([x] + s)[1..] == s;
    assert [] + Filter(s, p) == Filter(s, p);
  }

  lemma {:induction false} FilterAppend<T(!new)>(s: seq<T>, x: T, p: T -> bool)
    ensures Filter(s + [x], p) == Filter(s, p) + if p(x) then [x] else []
  {
    if s == [] {
      assert [x][1..] == [] && s + [x] == [x];
    } else {
      assert (s + [x])[1..] == s[1..] + [x];
      FilterAppend(s[1..], x, p);
    }
  }

  // One step of a loop that filters `s` from the left.
  lemma FilterPrefix<T(!new)>(s: seq<T>, i: nat, p: T -> bool)
    requires i < |s|
    ensures Filter(s[..i + 1], p) == Filter(s[..i], p) + if p(s[i]) then [s[i]] else []
  {
    assert s[..i + 1] == s[..i] + [s[i]];
    FilterAppend(s[..i], s[i], p);
  }

  // Selecting twice is selecting once by both tests.
  lemma {:induction false} FilterTwice<T(!new)>(s: seq<T>, p: T -> bool, q: T -> bool, both: T -> bool)
    requires forall x :: x in s ==> both(x) == (p(x) && q(x))
    ensures Filter(Filter(s, p), q) == Filter(s, both)
  {
    if s != [] {
      assert s[0] in s && forall x :: x in s[1..] ==> x in s;
      FilterTwice(s[1..], p, q, both);
      var rest := Filter(s[1..], p);
      if p(s[0]) {
        FilterCons(s[0], rest, q);
      } else {
        assert Filter(s, p) == rest;
      }
    }
  }

  lemma {:induction false} FilterSame<T(!new)>(s: seq<T>, p: T -> bool, q: T -> bool)
    requires forall x :: x in s ==> p(x) == q(x)
    ensures Filter(s, p) == Filter(s, q)
  {
    if s != [] {
      assert s[0] in s && forall x :: x in s[1..] ==> x in s;
      FilterSame(s[1..], p, q);
    }
  }

  lemma {:induction false} FilterNone<T(!new)>(s: seq<T>, p: T -> bool)
    ensures Filter(s, p) == [] <==> forall i :: 0 <= i < |s| ==> !p(s[i])
  {
    if s != [] {
      FilterNone(s[1..], p);
      assert forall i :: 1 <= i < |s| ==> s[i] == s[1..][i - 1];
      assert forall i :: 0 <= i < |s[1..]| ==> s[1..][i] == s[i + 1];
    }
  }

  ghost predicate OnlyAt<T(!new)>(s: seq<T>, p: T -> bool, i: nat) {
    i < |s| && p(s[i]) && forall j :: 0 <= j < |s| && j != i ==> !p(s[j])
  }

  // One survivor means one position that qualifies.
  lemma {:induction false} FilterOne<T(!new)>(s: seq<T>, p: T -> bool)
    ensures |Filter(s, p)| == 1 <==> exists i: nat :: OnlyAt(s, p, i)
  {
    if s != [] {
      FilterOne(s[1..], p);
      FilterNone(s[1..], p);
      if p(s[0]) {
        if Filter(s[1..], p) == [] {
          assert OnlyAt(s, p, 0) by {
            forall j | 1 <= j < |s| ensures !p(s[j]) { assert s[j] == s[1..][j - 1]; }
          }
        }
        forall i: nat | OnlyAt(s, p, i) ensures Filter(s[1..], p) == [] {
          forall j | 0 <= j < |s[1..]| ensures !p(s[1..][j]) { assert s[1..][j] == s[j + 1]; }
        }
      } else {
        forall i: nat | OnlyAt(s[1..], p, i) ensures OnlyAt(s, p, i + 1) {
          forall j | 1 <= j < |s| && j != i + 1 ensures !p(s[j]) { assert s[j] == s[1..][j - 1]; }
        }
        forall i: nat | OnlyAt(s, p, i) ensures i > 0 && OnlyAt(s[1..], p, i - 1) {
          forall j | 0 <= j < |s[1..]| && j != i - 1 ensures !p(s[1..][j]) { assert s[1..][j] == s[j + 1]; }
        }
      }
    }
  }

  lemma {:induction false} FilterOneAt<T(!new)>(s: seq<T>, p: T -> bool, i: nat)
    requires OnlyAt(s, p, i)
    ensures Filter(s, p) == [s[i]]
  {
    FilterNone(s[1..], p);
    if i == 0 {
      forall j | 0 <= j < |s[1..]| ensures !p(s[1..][j]) { assert s[1..][j] == s[j + 1]; }
    } else {
      forall j | 0 <= j < |s[1..]| && j != i - 1 ensures !p(s[1..][j]) { assert s[1..][j] == s[j + 1]; }
      FilterOneAt(s[1..], p, i - 1);
    }
  }
}
