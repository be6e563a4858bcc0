// The orderings the store's queries apply: `orderBy` on a timestamp column in
// either direction, and the order of string ids used to pick the
// lowest-id row.
module Ordering {

  datatype Direction = Asc | Desc

  /** x may come before y under the direction. */
  predicate Before(x: nat, y: nat, dir: Direction) {
    if dir == Asc then x <= y else x >= y
  }

  /** r is ordered by key in the direction. */
  ghost predicate InOrder<T>(r: seq<T>, key: T -> nat, dir: Direction) {
    forall i, j :: 0 <= i < j < |r| ==> Before(key(r[i]), key(r[j]), dir)
  }

  /** r lists every element of s exactly once. */
  ghost predicate Lists<T(!new)>(r: seq<T>, s: set<T>) {
    |r| == |s| && (forall x :: x in r <==> x in s)
  }

  /** Listing each element once leaves no element twice. */
  lemma {:induction false} ListsDistinct<T(!new)>(r: seq<T>, s: set<T>)
    requires Lists(r, s)
    ensures forall i, j :: 0 <= i < j < |r| ==> r[i] != r[j]
    decreases |r|
  {
    if r != [] {
      assert r[0] !in r[1..] by {
        if r[0] in r[1..] {
          var rest := set x | x in r[1..];
          assert s == rest by {
            forall x | x in s ensures x in rest {
              var i :| 0 <= i < |r| && r[i] == x;
              if i == 0 { assert r[0] in r[1..]; } else { assert r[1..][i - 1] == x; }
            }
          }
          SetOfSeqSize(r[1..]);
          assert false;
        }
      }
      var s' := s - {r[0]};
      assert forall x :: x in r[1..] <==> x in s' by {
        forall x ensures x in r[1..] <==> x in s' {
          if x in r[1..] {
            var i :| 0 <= i < |r[1..]| && r[1..][i] == x;
            assert r[i + 1] == x;
          }
          if x in s' {
            var i :| 0 <= i < |r| && r[i] == x;
            assert i != 0;
            assert r[1..][i - 1] == x;
          }
        }
      }
      ListsDistinct(r[1..], s');
      forall i, j | 0 <= i < j < |r| ensures r[i] != r[j] {
        if i == 0 {
          assert r[j] == r[1..][j - 1];
        } else {
          assert r[i] == r[1..][i - 1] && r[j] == r[1..][j - 1];
        }
      }
    }
  }

  /** A sequence holds at most as many distinct elements as its length. */
  lemma {:induction false} SetOfSeqSize<T>(r: seq<T>)
    ensures |set x | x in r| <= |r|
  {
    if r != [] {
      SetOfSeqSize(r[1..]);
      assert (set x | x in r) == (set x | x in r[1..]) + {r[0]};
    }
  }

  /** An element of a non-empty set that may come first. */
  ghost function First<T>(s: set<T>, key: T -> nat, dir: Direction): (x: T)
    requires s != {}
    ensures x in s && forall y :: y in s ==> Before(key(x), key(y), dir)
    decreases |s|
  {
    var x :| x in s;
    if s == {x} then x
    else
      var m := First(s - {x}, key, dir);
      if Before(key(x), key(m), dir) then x else m
  }

  /** The rows of s as a query with `orderBy: { key: dir }` returns them;
      rows with equal keys come in an order the store chooses. */
  ghost function OrderBy<T(!new)>(s: set<T>, key: T -> nat, dir: Direction): (r: seq<T>)
    ensures Lists(r, s) && InOrder(r, key, dir)
    decreases |s|
  {
    if s == {} then []
    else
      var x := First(s, key, dir);
      [x] + OrderBy(s - {x}, key, dir)
  }

  /** Lexicographic order on strings, character by character. */
  predicate StrLe(a: string, b: string) {
    a == [] || (b != [] && (a[0] < b[0] || (a[0] == b[0] && StrLe(a[1..], b[1..]))))
  }

  lemma {:induction false} StrLeTotal(a: string, b: string)
    ensures StrLe(a, b) || StrLe(b, a)
  {
    if a != [] && b != [] && a[0] == b[0] {
      StrLeTotal(a[1..], b[1..]);
    }
  }

  lemma {:induction false} StrLeTransitive(a: string, b: string, c: string)
    requires StrLe(a, b) && StrLe(b, c)
    ensures StrLe(a, c)
  {
    if a != [] && a[0] == b[0] && b[0] == c[0] {
      StrLeTransitive(a[1..], b[1..], c[1..]);
    }
  }

  lemma {:induction false} StrLeAntisymmetric(a: string, b: string)
    requires StrLe(a, b) && StrLe(b, a)
    ensures a == b
  {
    if a != [] {
      StrLeAntisymmetric(a[1..], b[1..]);
    }
  }

  /** The row a query with `orderBy: { id: 'asc' }, take: 1` returns. */
  ghost function Lowest<T>(s: set<T>, id: T -> string): (r: T)
    requires s != {}
    ensures r in s && forall y :: y in s ==> StrLe(id(r), id(y))
    decreases |s|
  {
    var x :| x in s;
    if s == {x} then
      StrLeTotal(id(x), id(x));
      x
    else
      var m := Lowest(s - {x}, id);
      StrLeTotal(id(x), id(m));
      if StrLe(id(x), id(m)) then
        LowerThanLowest(s - {x}, id, m, x);
        x
      else
        m
  }

  lemma LowerThanLowest<T>(s: set<T>, id: T -> string, m: T, x: T)
    requires forall y :: y in s ==> StrLe(id(m), id(y))
    requires StrLe(id(x), id(m))
    ensures forall y :: y in s + {x} ==> StrLe(id(x), id(y))
  {
    forall y | y in s + {x} ensures StrLe(id(x), id(y)) {
      if y == x {
        StrLeTotal(id(x), id(x));
      } else {
        StrLeTransitive(id(x), id(m), id(y));
      }
    }
  }

  /** With distinct ids the lowest-id row is the only row with that property. */
  lemma LowestUnique<T>(s: set<T>, id: T -> string, x: T)
    requires s != {}
    requires forall a, b :: a in s && b in s && id(a) == id(b) ==> a == b
    requires x in s && forall y :: y in s ==> StrLe(id(x), id(y))
    ensures x == Lowest(s, id)
  {
    var l := Lowest(s, id);
    StrLeAntisymmetric(id(x), id(l));
  }
}
