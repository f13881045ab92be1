/** Total orders, the one sorted arrangement of a finite collection, and a stable sort producing it. */
module Orders {
  import opened Sequences

  datatype Ordering = Less | Equal | Greater {
    /** Falls through to a further comparison when this one is undecided. */
    function Then(next: Ordering): Ordering {
      if Equal? then next else this
    }
  }

  function Flip(o: Ordering): Ordering {
    match o
    case Less => Greater
    case Equal => Equal
    case Greater => Less
  }

  function CompareInt(a: int, b: int): Ordering {
    if a < b then Less else if a == b then Equal else Greater
  }

  /** Lexicographic comparison of text, character by character. */
  function CompareText(a: string, b: string): Ordering {
    if a == [] then if b == [] then Equal else Less
    else if b == [] then Greater
    else CompareInt(a[0] as int, b[0] as int).Then(CompareText(a[1..], b[1..]))
  }

  lemma {:induction false} CompareTextLaws(a: string, b: string)
    ensures CompareText(a, b) == Equal <==> a == b
    ensures CompareText(b, a) == Flip(CompareText(a, b))
  {
    if a != [] && b != [] {
      CompareTextLaws(a[1..], b[1..]);
      assert a == [a[0]] + a[1..] && b == [b[0]] + b[1..];
    }
  }

  lemma {:induction false} CompareTextTransitive(a: string, b: string, c: string)
    requires CompareText(a, b) != Greater && CompareText(b, c) != Greater
    ensures CompareText(a, c) != Greater
    ensures CompareText(a, b) == Less || CompareText(b, c) == Less ==> CompareText(a, c) == Less
  {
    if a != [] && b != [] && c != [] && a[0] == b[0] == c[0] {
      CompareTextTransitive(a[1..], b[1..], c[1..]);
    }
  }

  /** `a` comes before `b` in a dictionary: it ends first, or has the smaller first different character. */
  ghost predicate Sooner(a: string, b: string) {
    exists n :: SoonerAt(a, b, n)
  }

  ghost predicate SoonerAt(a: string, b: string, n: int) {
    0 <= n <= |a| && n < |b| && a[..n] == b[..n] && (n == |a| || a[n] < b[n])
  }

  lemma {:induction false} CompareTextMeans(a: string, b: string)
    ensures CompareText(a, b) == Less <==> Sooner(a, b)
  {
    if a == [] || b == [] {
      assert b != [] && a == [] ==> SoonerAt(a, b, 0);
    } else if a[0] != b[0] {
      assert a[0] < b[0] ==> SoonerAt(a, b, 0);
      forall n | SoonerAt(a, b, n)
        ensures a[0] < b[0]
      {
        assert n > 0 ==> a[..n][0] == b[..n][0];
      }
    } else {
      CompareTextMeans(a[1..], b[1..]);
      forall n | SoonerAt(a[1..], b[1..], n)
        ensures Sooner(a, b)
      {
        assert a[..n + 1] == [a[0]] + a[1..][..n] && b[..n + 1] == [b[0]] + b[1..][..n];
        assert SoonerAt(a, b, n + 1);
      }
      forall n | SoonerAt(a, b, n)
        ensures Sooner(a[1..], b[1..])
      {
        assert n > 0;
        assert a[1..][..n - 1] == a[..n][1..] && b[1..][..n - 1] == b[..n][1..];
        assert SoonerAt(a[1..], b[1..], n - 1);
      }
    }
  }

  predicate TextAtMost(a: string, b: string) {
    CompareText(a, b) != Greater
  }

  lemma TextOrder()
    ensures forall s: set<string> :: TotalOn(TextAtMost, s)
  {
    forall a, b
      ensures CompareText(a, b) == Equal <==> a == b
      ensures CompareText(b, a) == Flip(CompareText(a, b))
    {
      CompareTextLaws(a, b);
    }
    forall a, b, c | CompareText(a, b) != Greater && CompareText(b, c) != Greater
      ensures CompareText(a, c) != Greater
    {
      CompareTextTransitive(a, b, c);
    }
  }

  /** `atMost` is a total order on the elements of `s`. */
  ghost predicate TotalOn<T(!new)>(atMost: (T, T) -> bool, s: set<T>) {
    && (forall a, b | a in s && b in s :: atMost(a, b) || atMost(b, a))
    && (forall a, b | a in s && b in s && atMost(a, b) && atMost(b, a) :: a == b)
    && (forall a, b, c | a in s && b in s && c in s && atMost(a, b) && atMost(b, c) :: atMost(a, c))
  }

  ghost predicate Ascending<T(!new)>(atMost: (T, T) -> bool, xs: seq<T>) {
    forall i, j | 0 <= i < j < |xs| :: atMost(xs[i], xs[j])
  }

  ghost predicate Arranges<T(!new)>(atMost: (T, T) -> bool, xs: seq<T>, s: set<T>) {
    && Ascending(atMost, xs)
    && Distinct(xs)
    && (forall x :: x in xs <==> x in s)
  }

  lemma TotalSubset<T(!new)>(atMost: (T, T) -> bool, s: set<T>, t: set<T>)
    requires TotalOn(atMost, s) && t <= s
    ensures TotalOn(atMost, t)
  {
  }

  lemma TotalLaws<T(!new)>(atMost: (T, T) -> bool, s: set<T>, a: T, b: T, c: T)
    requires TotalOn(atMost, s) && a in s && b in s && c in s
    ensures atMost(a, b) || atMost(b, a)
    ensures atMost(a, b) && atMost(b, c) ==> atMost(a, c)
  {
  }

  ghost predicate IsLeast<T(!new)>(atMost: (T, T) -> bool, s: set<T>, x: T) {
    x in s && forall y | y in s :: atMost(x, y)
  }

  lemma LeastExists<T(!new)>(atMost: (T, T) -> bool, s: set<T>)
    requires TotalOn(atMost, s) && s != {}
    ensures exists x :: IsLeast(atMost, s, x)
  {
    var x :| x in s;
    var rest := s - {x};
    TotalSubset(atMost, s, rest);
    if rest == {} {
      TotalLaws(atMost, s, x, x, x);
      assert s <= rest + {x};
      assert IsLeast(atMost, s, x);
    } else {
      LeastExists(atMost, rest);
      var least :| IsLeast(atMost, rest, least);
      hide TotalOn;
      TotalLaws(atMost, s, x, x, x);
      TotalLaws(atMost, s, x, least, x);
      forall y | y in s
        ensures atMost(if atMost(x, least) then x else least, y)
      {
        TotalLaws(atMost, s, x, least, y);
        assert y == x || y in rest;
      }
      assert IsLeast(atMost, s, if atMost(x, least) then x else least);
    }
  }

  /** The elements of `s` in ascending order. */
  ghost function Arranged<T(!new)>(atMost: (T, T) -> bool, s: set<T>): (xs: seq<T>)
    requires TotalOn(atMost, s)
    ensures Arranges(atMost, xs, s)
  {
    if s == {} then []
    else
      LeastExists(atMost, s);
      var x :| IsLeast(atMost, s, x);
      [x] + Arranged(atMost, s - {x})
  }

  /** There is only one ascending arrangement. */
  lemma {:induction false} ArrangedUnique<T(!new)>(atMost: (T, T) -> bool, xs: seq<T>, s: set<T>)
    requires TotalOn(atMost, s) && Arranges(atMost, xs, s)
    ensures xs == Arranged(atMost, s)
  {
    var ys := Arranged(atMost, s);
    if xs == [] {
      assert s == {} by {
        if x :| x in s {
          assert x in xs;
        }
      }
    } else {
      assert xs[0] in s;
      assert ys[0] in s;
      var i :| 0 <= i < |xs| && xs[i] == ys[0];
      var j :| 0 <= j < |ys| && ys[j] == xs[0];
      assert xs[0] == ys[0];
      var rest := s - {xs[0]};
      assert Arranges(atMost, xs[1..], rest) by {
        forall x
          ensures x in xs[1..] <==> x in rest
        {
          if x in xs && x != xs[0] {
            var k :| 0 <= k < |xs| && xs[k] == x;
            assert xs[1..][k - 1] == x;
          }
        }
      }
      ArrangedUnique(atMost, xs[1..], rest);
      assert xs == [xs[0]] + xs[1..];
    }
  }

  lemma InsertedAscending<T(!new)>(atMost: (T, T) -> bool, xs: seq<T>, x: T, i: nat, s: set<T>)
    requires TotalOn(atMost, s) && x in s && (forall k | 0 <= k < |xs| :: xs[k] in s)
    requires i <= |xs| && Ascending(atMost, xs)
    requires forall k | 0 <= k < i :: atMost(xs[k], x)
    requires i < |xs| ==> !atMost(xs[i], x)
    ensures Ascending(atMost, xs[..i] + [x] + xs[i..])
  {
    var ys := xs[..i] + [x] + xs[i..];
    forall k | i <= k < |xs|
      ensures atMost(x, xs[k])
    {
      TotalLaws(atMost, s, x, xs[i], xs[k]);
    }
    hide TotalOn;
    forall j, k | 0 <= j < k < |ys|
      ensures atMost(ys[j], ys[k])
    {
      assert ys[j] == if j < i then xs[j] else if j == i then x else xs[j - 1];
      assert ys[k] == if k < i then xs[k] else if k == i then x else xs[k - 1];
    }
  }

  lemma InsertedElements<T(!new)>(xs: seq<T>, x: T, i: nat)
    requires i <= |xs| && x !in xs
    requires Distinct(xs)
    ensures forall y :: y in xs[..i] + [x] + xs[i..] <==> y in xs || y == x
    ensures Distinct(xs[..i] + [x] + xs[i..])
  {
    var ys := xs[..i] + [x] + xs[i..];
    assert forall k | 0 <= k < |ys| :: ys[k] == if k < i then xs[k] else if k == i then x else xs[k - 1];
    forall y | y in xs
      ensures y in ys
    {
      var k :| 0 <= k < |xs| && xs[k] == y;
      assert ys[if k < i then k else k + 1] == y;
    }
    assert ys[i] == x;
  }

  /** Insertion of one element into an ascending sequence, after everything not above it. */
  method Insert<T(==, !new)>(xs: seq<T>, x: T, atMost: (T, T) -> bool, ghost s: set<T>) returns (ys: seq<T>)
    requires TotalOn(atMost, s + {x}) && x !in s && Arranges(atMost, xs, s)
    ensures Arranges(atMost, ys, s + {x})
  {
    var i := 0;
    while i < |xs| && atMost(xs[i], x)
      invariant i <= |xs|
      invariant forall k | 0 <= k < i :: atMost(xs[k], x)
    {
      i := i + 1;
    }
    ys := xs[..i] + [x] + xs[i..];
    InsertedElements(xs, x, i);
    InsertedAscending(atMost, xs, x, i, s + {x});
  }

  /** Sorts distinct elements. */
  method Sort<T(==, !new)>(xs: seq<T>, atMost: (T, T) -> bool) returns (ys: seq<T>)
    requires TotalOn(atMost, Elements(xs))
    requires Distinct(xs)
    ensures ys == Arranged(atMost, Elements(xs))
  {
    ys := [];
    for n := 0 to |xs|
      invariant Arranges(atMost, ys, Elements(xs[..n]))
    {
      PrefixElements(xs, n);
      TotalSubset(atMost, Elements(xs), Elements(xs[..n + 1]));
      ys := Insert(ys, xs[n], atMost, Elements(xs[..n]));
    }
    assert xs[..|xs|] == xs;
    ArrangedUnique(atMost, ys, Elements(xs));
  }
}
