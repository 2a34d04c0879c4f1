/**
 * Ascending sort on a two-column string key, the order `sorted` and
 * `DataFrame.sort_values(by=[first, second])` produce for string columns.
 */
module Sorting {
  import Text

  /** A sort key: the primary column's value, then the secondary column's. */
  type Key = (string, string)

  /** Key order: by the primary string, ties broken by the secondary one. */
  predicate KeyLe(a: Key, b: Key) {
    Text.Less(a.0, b.0) || (a.0 == b.0 && Text.LessEq(a.1, b.1))
  }

  lemma KeyLeTransitive(a: Key, b: Key, c: Key)
    requires KeyLe(a, b) && KeyLe(b, c)
    ensures KeyLe(a, c)
  {
    if Text.Less(a.0, b.0) && Text.Less(b.0, c.0) {
      Text.LessTransitive(a.0, b.0, c.0);
    } else if a.0 == b.0 && b.0 == c.0 && Text.Less(a.1, b.1) && Text.Less(b.1, c.1) {
      Text.LessTransitive(a.1, b.1, c.1);
    }
  }

  lemma KeyLeTotal(a: Key, b: Key)
    ensures KeyLe(a, b) || KeyLe(b, a)
  {
    if a.0 != b.0 {
      Text.LessTotal(a.0, b.0);
    } else if a.1 != b.1 {
      Text.LessTotal(a.1, b.1);
    }
  }

  /** Keys ordered both ways have the same primary string. */
  lemma KeyLeAntisymmetricPrimary(a: Key, b: Key)
    requires KeyLe(a, b) && KeyLe(b, a)
    ensures a.0 == b.0
  {
    if Text.Less(a.0, b.0) {
      Text.LessAsymmetric(a.0, b.0);
    }
  }

  /** Keys ordered both ways are equal. */
  lemma KeyLeAntisymmetric(a: Key, b: Key)
    requires KeyLe(a, b) && KeyLe(b, a)
    ensures a == b
  {
    KeyLeAntisymmetricPrimary(a, b);
    Text.LessIrreflexive(a.0);
    if a.1 != b.1 {
      Text.LessAsymmetric(a.1, b.1);
    }
  }

  /** `s` is non-decreasing in `key`, between every pair of positions. */
  predicate SortedBy<T>(s: seq<T>, key: T -> Key) {
    forall i, j :: 0 <= i < j < |s| ==> KeyLe(key(s[i]), key(s[j]))
  }

  /** Places `x` into the sorted `s` before the first element it does not follow. */
  function Insert<T>(x: T, s: seq<T>, key: T -> Key): (r: seq<T>)
    requires SortedBy(s, key)
    ensures SortedBy(r, key)
    ensures multiset(r) == multiset(s) + multiset{x}
  {
    if |s| == 0 then
      [x]
    else if KeyLe(key(x), key(s[0])) then
      assert forall j :: 0 < j < |s| ==> KeyLe(key(x), key(s[j])) by {
        forall j | 0 < j < |s| ensures KeyLe(key(x), key(s[j])) {
          KeyLeTransitive(key(x), key(s[0]), key(s[j]));
        }
      }
      [x] + s
    else
      var rest := Insert(x, s[1..], key);
      assert s == [s[0]] + s[1..];
      assert forall y | y in rest :: KeyLe(key(s[0]), key(y)) by {
        forall y | y in rest ensures KeyLe(key(s[0]), key(y)) {
          assert y in multiset(rest);
          if y == x {
            KeyLeTotal(key(x), key(s[0]));
          } else {
            assert y in multiset(s[1..]);
            var j :| 0 <= j < |s[1..]| && s[1..][j] == y;
            assert s[j + 1] == y;
          }
        }
      }
      assert forall j :: 0 < j < |[s[0]] + rest| ==> ([s[0]] + rest)[j] in rest;
      [s[0]] + rest
  }

  /**
   * Insertion sort by `key`. Only the order is promised, not which of two
   * elements with equal keys comes first.
   */
  function SortBy<T>(s: seq<T>, key: T -> Key): (r: seq<T>)
    ensures SortedBy(r, key)
    ensures multiset(r) == multiset(s)
  {
    if |s| == 0 then
      []
    else
      assert s == [s[0]] + s[1..];
      Insert(s[0], SortBy(s[1..], key), key)
  }

  lemma InsertAfter<T>(x: T, y: T, key: T -> Key)
    requires !KeyLe(key(x), key(y))
    ensures Insert(x, [y], key) == [y, x]
  {
  }


  /** Two elements given in strictly descending key order come out swapped. */
  lemma SortReversedPair<T>(b: T, c: T, key: T -> Key)
    requires !KeyLe(key(b), key(c))
    ensures SortBy([b, c], key) == [c, b]
  {
  }


  /** Three elements given in strictly descending key order come out reversed. */
  lemma SortReversedTriple<T>(a: T, b: T, c: T, key: T -> Key)
    requires !KeyLe(key(a), key(b)) && !KeyLe(key(b), key(c))
    ensures SortBy([a, b, c], key) == [c, b, a]
  {
    assert !KeyLe(key(a), key(c)) by {
      KeyLeTotal(key(b), key(c));
      if KeyLe(key(a), key(c)) {
        KeyLeTransitive(key(a), key(c), key(b));
      }
    }
    assert [a, b, c][1..] == [b, c];
    SortReversedPair(b, c, key);
    KeyLeTotal(key(c), key(b));
    assert [c, b][1..] == [b];
    InsertAfter(a, b, key);
    assert Insert(a, [c, b], key) == [c] + Insert(a, [b], key);
  }
}
