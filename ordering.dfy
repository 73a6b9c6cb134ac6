/** Orders on the element type of a ResizableArray.
    The C++ container compares elements with T's `operator<`, `operator>` and `operator==`.
    Here that order is a function value `lt` which must be a strict total order; for
    `std::string` it is the character-by-character lexicographic order `LexLess`. */
module Ordering {

  /** `lt` is transitive on the triple `x, y, z`. */
  ghost predicate TransitiveAt<T>(lt: (T, T) -> bool, x: T, y: T, z: T) {
    lt(x, y) && lt(y, z) ==> lt(x, z)
  }

  /** `lt` relates the two distinct values `x` and `y` one way or the other. */
  ghost predicate ConnectedAt<T>(lt: (T, T) -> bool, x: T, y: T) {
    x != y ==> lt(x, y) || lt(y, x)
  }

  /** `lt` is irreflexive, transitive and total: the contract of `operator<` on the element types.
      Transitivity and totality are stated through `TransitiveAt` and `ConnectedAt`, so the
      solver only instantiates them where a proof names a triple or a pair. */
  ghost predicate IsStrictTotalOrder<T(!new)>(lt: (T, T) -> bool) {
    && (forall x :: !lt(x, x))
    && (forall x, y, z :: TransitiveAt(lt, x, y, z))
    && (forall x, y :: ConnectedAt(lt, x, y))
  }

  /** Ascending order: no element is strictly less than one before it. */
  ghost predicate Sorted<T>(lt: (T, T) -> bool, s: seq<T>) {
    forall i, j :: 0 <= i < j < |s| ==> !lt(s[j], s[i])
  }

  /** The first `n` elements of `s` (all of them when `n >= |s|`) are in ascending order. */
  ghost predicate SortedPrefix<T>(lt: (T, T) -> bool, s: seq<T>, n: int) {
    forall i, j :: 0 <= i < j < n && j < |s| ==> !lt(s[j], s[i])
  }

  lemma Asymmetric<T(!new)>(lt: (T, T) -> bool, x: T, y: T)
    requires IsStrictTotalOrder(lt)
    requires lt(x, y)
    ensures !lt(y, x)
  {
    assert TransitiveAt(lt, x, y, x);
  }

  /** The reflexive order `!lt(y, x)` ("x is at most y") is transitive. */
  lemma AtMostTransitive<T(!new)>(lt: (T, T) -> bool, x: T, y: T, z: T)
    requires IsStrictTotalOrder(lt)
    requires !lt(y, x) && !lt(z, y)
    ensures !lt(z, x)
  {
    assert ConnectedAt(lt, x, y) && TransitiveAt(lt, z, x, y);
  }

  /** "At most" in both directions means equal. */
  lemma AtMostAntisymmetric<T(!new)>(lt: (T, T) -> bool, x: T, y: T)
    requires IsStrictTotalOrder(lt)
    requires !lt(x, y) && !lt(y, x)
    ensures x == y
  {
    assert ConnectedAt(lt, x, y);
  }

  /** Two sorted arrangements of the same multiset are the same sequence.
      This is what makes sorting idempotent. */
  lemma {:induction false} SortedPermutationUnique<T(!new)>(lt: (T, T) -> bool, a: seq<T>, b: seq<T>)
    requires IsStrictTotalOrder(lt)
    requires Sorted(lt, a) && Sorted(lt, b)
    requires multiset(a) == multiset(b)
    ensures a == b
    decreases |a|
  {
    assert |a| == |multiset(a)| == |multiset(b)| == |b|;
    if a != [] {
      SortedSameFirst(lt, a, b);
      SameTails(a, b);
      SortedPermutationUnique(lt, a[1..], b[1..]);
      assert a == [a[0]] + a[1..] && b == [b[0]] + b[1..];
    }
  }

  /** Sorted arrangements of one non-empty multiset start with the same element, its least one. */
  lemma SortedSameFirst<T(!new)>(lt: (T, T) -> bool, a: seq<T>, b: seq<T>)
    requires IsStrictTotalOrder(lt)
    requires Sorted(lt, a) && Sorted(lt, b)
    requires multiset(a) == multiset(b)
    requires a != [] && b != []
    ensures a[0] == b[0]
  {
    assert a[0] in multiset(b);
    var k :| 0 <= k < |b| && b[k] == a[0];
    assert b[0] in multiset(a);
    var m :| 0 <= m < |a| && a[m] == b[0];
    assert !lt(a[0], b[0]) by { if k > 0 { assert !lt(b[k], b[0]); } }
    assert !lt(b[0], a[0]) by { if m > 0 { assert !lt(a[m], a[0]); } }
    AtMostAntisymmetric(lt, a[0], b[0]);
  }

  lemma SameTails<T>(a: seq<T>, b: seq<T>)
    requires a != [] && b != [] && a[0] == b[0]
    requires multiset(a) == multiset(b)
    ensures multiset(a[1..]) == multiset(b[1..])
  {
    assert a == [a[0]] + a[1..] && b == [b[0]] + b[1..];
    assert multiset(a[1..]) == multiset(a) - multiset{a[0]};
    assert multiset(b[1..]) == multiset(b) - multiset{b[0]};
  }

  /** `s` with its element at `i` moved down to position `p`, the elements `s[p..i]` each
      shifting up by one: the effect of one pass of insertion sort's inner loop. */
  ghost function MoveDown<T>(s: seq<T>, i: int, p: int): seq<T>
    requires 0 <= p <= i < |s|
  {
    s[..p] + [s[i]] + s[p..i] + s[i + 1..]
  }

  lemma MoveDownAt<T>(s: seq<T>, i: int, p: int)
    requires 0 <= p <= i < |s|
    ensures |MoveDown(s, i, p)| == |s|
    ensures forall k :: 0 <= k < p ==> MoveDown(s, i, p)[k] == s[k]
    ensures MoveDown(s, i, p)[p] == s[i]
    ensures forall k :: p < k <= i ==> MoveDown(s, i, p)[k] == s[k - 1]
    ensures forall k :: i < k < |s| ==> MoveDown(s, i, p)[k] == s[k]
  {
  }

  /** Moving one element is a permutation. */
  lemma MoveDownPermutes<T>(s: seq<T>, i: int, p: int)
    requires 0 <= p <= i < |s|
    ensures multiset(MoveDown(s, i, p)) == multiset(s)
  {
    assert s == s[..p] + s[p..i] + [s[i]] + s[i + 1..];
  }

  /** When `s[..i]` is sorted, `s[i]` is at least `s[p - 1]` and less than every element of
      `s[p..i]`, moving it down to `p` leaves the first `i + 1` elements sorted. */
  lemma MoveDownSorts<T(!new)>(lt: (T, T) -> bool, s: seq<T>, i: int, p: int)
    requires IsStrictTotalOrder(lt)
    requires 0 <= p <= i < |s|
    requires Sorted(lt, s[..i])
    requires p > 0 ==> !lt(s[i], s[p - 1])
    requires forall k :: p <= k < i ==> lt(s[i], s[k])
    ensures Sorted(lt, MoveDown(s, i, p)[..i + 1])
  {
    var t := MoveDown(s, i, p);
    MoveDownAt(s, i, p);
    forall a, b | 0 <= a < b <= i
      ensures !lt(t[b], t[a])
    {
      if b < p {
        assert !lt(s[..i][b], s[..i][a]);
      } else if b == p {
        if a < p - 1 {
          assert !lt(s[..i][p - 1], s[..i][a]);
          AtMostTransitive(lt, s[a], s[p - 1], s[i]);
        }
      } else if a < p {
        assert !lt(s[..i][b - 1], s[..i][a]);
      } else if a == p {
        Asymmetric(lt, s[i], s[b - 1]);
      } else {
        assert !lt(s[..i][b - 1], s[..i][a - 1]);
      }
    }
  }

  /** One pass of insertion sort, element by element: `t` is `s` with `s[i]` moved down to
      position `p` (as `MoveDown` says), and the conditions of `MoveDownSorts` hold.
      Then `t` is that move, its first `i + 1` elements are sorted, the rest are those of `s`,
      and `t` is a permutation of `s`. */
  lemma InsertionStep<T(!new)>(lt: (T, T) -> bool, s: seq<T>, t: seq<T>, i: int, p: int)
    requires IsStrictTotalOrder(lt)
    requires 0 <= p <= i < |s| == |t|
    requires SortedPrefix(lt, s, i)
    requires p > 0 ==> !lt(s[i], s[p - 1])
    requires forall k :: p <= k < i ==> lt(s[i], s[k])
    requires forall k :: 0 <= k < p ==> t[k] == s[k]
    requires t[p] == s[i]
    requires forall k :: p < k <= i ==> t[k] == s[k - 1]
    requires forall k :: i < k < |t| ==> t[k] == s[k]
    ensures t == MoveDown(s, i, p) && t[i + 1..] == s[i + 1..]
    ensures SortedPrefix(lt, t, i + 1)
    ensures multiset(t) == multiset(s)
  {
    MoveDownAt(s, i, p);
    assert t == MoveDown(s, i, p);
    MoveDownPermutes(s, i, p);
    assert Sorted(lt, s[..i]) by {
      forall a, b | 0 <= a < b < i ensures !lt(s[..i][b], s[..i][a]) {
        assert !lt(s[b], s[a]);
      }
    }
    MoveDownSorts(lt, s, i, p);
    forall a, b | 0 <= a < b < i + 1 && b < |t| ensures !lt(t[b], t[a]) {
      assert !lt(t[..i + 1][b], t[..i + 1][a]);
    }
  }

  /** Lexicographic order on strings, comparing characters by code point: `std::string`'s
      `operator<` for the ASCII text the program reads. A proper prefix is smaller. */
  predicate LexLess(a: string, b: string) {
    if a == [] then b != []
    else if b == [] then false
    else a[0] < b[0] || (a[0] == b[0] && LexLess(a[1..], b[1..]))
  }

  lemma {:induction false} LexLessIrreflexive(a: string)
    ensures !LexLess(a, a)
  {
    if a != [] {
      LexLessIrreflexive(a[1..]);
    }
  }

  lemma {:induction false} LexLessTransitive(a: string, b: string, c: string)
    requires LexLess(a, b) && LexLess(b, c)
    ensures LexLess(a, c)
  {
    if a != [] && a[0] == b[0] && b[0] == c[0] {
      LexLessTransitive(a[1..], b[1..], c[1..]);
    }
  }

  lemma {:induction false} LexLessTotal(a: string, b: string)
    requires a != b
    ensures LexLess(a, b) || LexLess(b, a)
  {
    if a != [] && b != [] && a[0] == b[0] {
      assert a == [a[0]] + a[1..] && b == [b[0]] + b[1..];
      LexLessTotal(a[1..], b[1..]);
    }
  }

  /** `LexLess` meets the requirements the container's sort and search place on `operator<`. */
  lemma LexLessIsStrictTotalOrder()
    ensures IsStrictTotalOrder(LexLess)
  {
    forall a: string ensures !LexLess(a, a) {
      LexLessIrreflexive(a);
    }
    forall a: string, b: string, c: string
      ensures TransitiveAt(LexLess, a, b, c)
    {
      if LexLess(a, b) && LexLess(b, c) {
        LexLessTransitive(a, b, c);
      }
    }
    forall a: string, b: string
      ensures ConnectedAt(LexLess, a, b)
    {
      if a != b {
        LexLessTotal(a, b);
      }
    }
  }
}
