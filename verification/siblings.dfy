/**
 * Ordered sibling lists: the children of the root list or of one group's list.
 * A DOM child list never holds the same element twice, and the two mutations the
 * editor performs on it are "remove this child" and "insert before that child / append".
 */
module Siblings {
  import opened Wrappers

  /**
   * A node id: the N of the DOM attribute `data-id="node-N"`. It is an `int`
   * rather than a `nat` so that the maps and lists of the arena carry no
   * subset-type obligations; the ids that occur are never negative, because
   * `Templates.ResolveId` only yields non-negative ids and `Page.Consistent`
   * only admits ids the counter has issued, which starts at 1.
   */
  type Id = int

  /** No element occurs twice. */
  predicate NoDup(s: seq<Id>) {
    forall i, j :: 0 <= i < j < |s| ==> s[i] != s[j]
  }

  /** `s` with `x` taken out, every other element in its original order. */
  function Without(s: seq<Id>, x: Id): (r: seq<Id>)
    ensures x !in r
    ensures forall y :: y in r <==> y in s && y != x
    ensures |r| <= |s|
  {
    if s == [] then []
    else if s[0] == x then Without(s[1..], x)
    else [s[0]] + Without(s[1..], x)
  }

  /** The position of the first occurrence of `x`. */
  function IndexOf(s: seq<Id>, x: Id): (i: nat)
    requires x in s
    ensures i < |s| && s[i] == x && x !in s[..i]
  {
    if s[0] == x then 0
    else
      var j := IndexOf(s[1..], x);
      assert s[..j + 1] == [s[0]] + s[1..][..j];
      j + 1
  }

  /**
   * `insertBefore(x, ref)` on a list that does not hold `x`, or `appendChild(x)`
   * when there is no reference.
   */
  function InsertBefore(s: seq<Id>, x: Id, ref: Option<Id>): (r: seq<Id>)
    requires ref.Some? ==> ref.value in s
    ensures |r| == |s| + 1
    ensures forall y :: y in r <==> y in s || y == x
    ensures ref.None? ==> r[|s|] == x && r[..|s|] == s
    ensures ref.Some? ==> var i := IndexOf(s, ref.value);
      r[i] == x && r[i + 1] == ref.value && r[..i] == s[..i] && r[i + 1..] == s[i..]
  {
    match ref
    case None => s + [x]
    case Some(y) =>
      var i := IndexOf(s, y);
      var r := s[..i] + [x] + s[i..];
      assert r[..i] == s[..i] && r[i + 1..] == s[i..];
      r
  }

  lemma {:induction false} WithoutAbsent(s: seq<Id>, x: Id)
    requires x !in s
    ensures Without(s, x) == s
  {
    if s != [] {
      WithoutAbsent(s[1..], x);
    }
  }

  lemma {:induction false} WithoutConcat(s: seq<Id>, t: seq<Id>, x: Id)
    ensures Without(s + t, x) == Without(s, x) + Without(t, x)
  {
    if s == [] {
      assert s + t == t;
    } else {
      assert (s + t)[1..] == s[1..] + t;
      WithoutConcat(s[1..], t, x);
    }
  }

  /** Removing a child keeps the list free of duplicates and shortens it by one. */
  lemma {:induction false} WithoutNoDup(s: seq<Id>, x: Id)
    requires NoDup(s)
    ensures NoDup(Without(s, x))
    ensures x in s ==> |Without(s, x)| == |s| - 1
  {
    if s != [] {
      assert NoDup(s[1..]) by {
        forall i, j | 0 <= i < j < |s[1..]| ensures s[1..][i] != s[1..][j] {
          assert s[1..][i] == s[i + 1] && s[1..][j] == s[j + 1];
        }
      }
      WithoutNoDup(s[1..], x);
      if s[0] == x {
        assert x !in s[1..] by {
          forall k | 0 <= k < |s[1..]| ensures s[1..][k] != x {
            assert s[1..][k] == s[k + 1];
          }
        }
        WithoutAbsent(s[1..], x);
      } else {
        var r := Without(s[1..], x);
        assert s[0] !in r by {
          forall k | 0 <= k < |s[1..]| ensures s[1..][k] != s[0] {
            assert s[1..][k] == s[k + 1];
          }
        }
        assert NoDup([s[0]] + r) by {
          forall i, j | 0 <= i < j < |[s[0]] + r| ensures ([s[0]] + r)[i] != ([s[0]] + r)[j] {
            if i == 0 {
              assert ([s[0]] + r)[j] == r[j - 1];
            } else {
              assert ([s[0]] + r)[i] == r[i - 1] && ([s[0]] + r)[j] == r[j - 1];
            }
          }
        }
      }
    }
  }

  /** Taking `x` back out of `a + [x] + b` leaves `a + b`. */
  lemma SpliceRemove(a: seq<Id>, b: seq<Id>, x: Id)
    requires x !in a && x !in b
    ensures Without(a + [x] + b, x) == a + b
  {
    var ax := a + [x];
    WithoutConcat(ax, b, x);
    WithoutConcat(a, [x], x);
    WithoutAbsent(a, x);
    WithoutAbsent(b, x);
    assert Without([x], x) == [];
    assert Without(ax, x) == a;
  }

  /** Splicing a new element into a duplicate-free list keeps it duplicate-free. */
  lemma SpliceNoDup(a: seq<Id>, b: seq<Id>, x: Id)
    requires NoDup(a + b) && x !in a && x !in b
    ensures NoDup(a + [x] + b)
  {
    var s, r, i := a + b, a + [x] + b, |a|;
    forall p, q | 0 <= p < q < |r| ensures r[p] != r[q] {
      if q < i {
        assert r[p] == s[p] && r[q] == s[q];
      } else if q == i {
        assert r[p] == a[p];
      } else if p < i {
        assert r[p] == s[p] && r[q] == s[q - 1];
      } else if p == i {
        assert r[q] == b[q - i - 1];
      } else {
        assert r[p] == s[p - 1] && r[q] == s[q - 1];
      }
    }
  }

  /**
   * Inserting an element that is not in the list and then removing it gives the
   * list back, and the new element occurs exactly once.
   */
  lemma InsertThenRemove(s: seq<Id>, x: Id, ref: Option<Id>)
    requires ref.Some? ==> ref.value in s
    requires x !in s
    ensures Without(InsertBefore(s, x, ref), x) == s
    ensures NoDup(s) ==> NoDup(InsertBefore(s, x, ref))
  {
    var i := if ref.Some? then IndexOf(s, ref.value) else |s|;
    var a, b := s[..i], s[i..];
    assert s == a + b;
    assert InsertBefore(s, x, ref) == a + [x] + b;
    SpliceRemove(a, b, x);
    if NoDup(s) {
      SpliceNoDup(a, b, x);
    }
  }

  /**
   * Inserting a fresh element into a list without duplicates: it occurs once,
   * immediately before the reference or last, and removing it gives the list back.
   */
  lemma InsertPlaces(s: seq<Id>, x: Id, ref: Option<Id>)
    requires NoDup(s) && x !in s && (ref.Some? ==> ref.value in s)
    ensures var l := InsertBefore(s, x, ref);
      && Without(l, x) == s && NoDup(l) && x in l
      && (ref.Some? ==> exists k :: 0 <= k < |l| - 1 && l[k] == x && l[k + 1] == ref.value)
      && (ref.None? ==> l[|l| - 1] == x)
  {
    InsertThenRemove(s, x, ref);
    var l := InsertBefore(s, x, ref);
    if ref.Some? {
      var k := IndexOf(s, ref.value);
      assert l[k] == x && l[k + 1] == ref.value;
    }
  }

  /** In a list without duplicates, an element occurs neither before nor after its own position. */
  lemma NoDupSplit(s: seq<Id>, i: nat)
    requires NoDup(s) && i < |s|
    ensures s[i] !in s[..i] && s[i] !in s[i + 1..]
  {
    var a, b := s[..i], s[i + 1..];
    forall k | 0 <= k < |a| ensures a[k] != s[i] {
      assert a[k] == s[k];
    }
    forall k | 0 <= k < |b| ensures b[k] != s[i] {
      assert b[k] == s[i + 1 + k];
    }
  }

  /** The first element of `b` is found at `|a|` in `a + b` when `a` does not hold it. */
  lemma IndexOfAfter(a: seq<Id>, b: seq<Id>)
    requires b != [] && b[0] !in a
    ensures b[0] in a + b && IndexOf(a + b, b[0]) == |a|
  {
    var w := a + b;
    assert w[|a|] == b[0];
    assert w[..|a|] == a;
  }

  /** Inserting before the first element of `b` puts `x` between `a` and `b`. */
  lemma InsertAtSplit(a: seq<Id>, b: seq<Id>, x: Id)
    requires b != [] && b[0] !in a
    ensures b[0] in a + b && InsertBefore(a + b, x, Some(b[0])) == a + [x] + b
  {
    IndexOfAfter(a, b);
    var w, i := a + b, |a|;
    var r := InsertBefore(w, x, Some(b[0]));
    assert w[..i] == a && w[i..] == b;
    assert r == r[..i] + [r[i]] + r[i + 1..];
  }

  /**
   * Putting `x` back where it already is: before its current next sibling, or
   * at the end when it is last, gives the list back unchanged.
   */
  lemma ReinsertInPlace(s: seq<Id>, x: Id, ref: Option<Id>)
    requires NoDup(s) && x in s
    requires ref.None? ==> IndexOf(s, x) == |s| - 1
    requires ref.Some? ==> IndexOf(s, x) + 1 < |s| && s[IndexOf(s, x) + 1] == ref.value
    ensures ref.Some? ==> ref.value in Without(s, x)
    ensures InsertBefore(Without(s, x), x, ref) == s
  {
    var i := IndexOf(s, x);
    var a, b := s[..i], s[i + 1..];
    assert s == a + [x] + b;
    NoDupSplit(s, i);
    SpliceRemove(a, b, x);
    if ref.Some? {
      NoDupSplit(s, i + 1);
      assert b[0] == s[i + 1];
      assert b[0] !in a by {
        forall k | 0 <= k < i ensures a[k] != b[0] {
          assert a[k] == s[..i + 1][k];
        }
      }
      InsertAtSplit(a, b, x);
    } else {
      assert b == [];
    }
  }

  /** A list without duplicates has as many distinct elements as entries. */
  lemma {:induction false} NoDupCard(s: seq<Id>)
    requires NoDup(s)
    ensures |set y | y in s| == |s|
  {
    if s != [] {
      var t := s[1..];
      assert NoDup(t) by {
        forall i, j | 0 <= i < j < |t| ensures t[i] != t[j] {
          assert t[i] == s[i + 1] && t[j] == s[j + 1];
        }
      }
      NoDupCard(t);
      assert s[0] !in t by {
        forall k | 0 <= k < |t| ensures t[k] != s[0] {
          assert t[k] == s[k + 1];
        }
      }
      assert (set y | y in s) == (set y | y in t) + {s[0]} by {
        assert s == [s[0]] + t;
      }
    }
  }
}
