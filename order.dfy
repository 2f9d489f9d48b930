/**
 * Identities and the descending string order used for the deterministic
 * tie-break of the topological sort (the `sortDesc` comparator).
 *
 * Identities are strings: the key of a node is the string form of its
 * identity, so with `string` as the identity type the key, the identity
 * and the value compared by `sortDesc` coincide.
 */
module Order {

  type Id = string

  /** JavaScript's `<` on two strings: lexicographic comparison, character by character. */
  predicate Less(a: Id, b: Id)
    ensures Less(a, b) ==> a != b
    ensures |a| < |b| && a == b[..|a|] ==> Less(a, b)
  {
    if a == [] then b != []
    else if b == [] then false
    else if a[0] != b[0] then a[0] < b[0]
    else Less(a[1..], b[1..])
  }

  lemma {:induction false} LessIrreflexive(a: Id)
    ensures !Less(a, a)
  {
    if a != [] {
      LessIrreflexive(a[1..]);
    }
  }

  lemma {:induction false} LessTransitive(a: Id, b: Id, c: Id)
    requires Less(a, b) && Less(b, c)
    ensures Less(a, c)
  {
    if a != [] && b != [] && c != [] && a[0] == b[0] == c[0] {
      LessTransitive(a[1..], b[1..], c[1..]);
    }
  }

  /** Two different strings are always ordered one way or the other, and never both ways. */
  lemma {:induction false} LessTrichotomy(a: Id, b: Id)
    ensures a == b || Less(a, b) || Less(b, a)
    ensures !(Less(a, b) && Less(b, a))
  {
    if a != [] && b != [] && a[0] == b[0] {
      LessTrichotomy(a[1..], b[1..]);
      if a[1..] == b[1..] {
        assert a == [a[0]] + a[1..] && b == [b[0]] + b[1..];
      }
    }
  }

  /**
   * The `sortDesc` comparator: positive when `a` must come after `b`,
   * negative when before, zero for equal strings. It is a consistent
   * comparator: zero exactly on equal strings and antisymmetric.
   */
  function SortDesc(a: Id, b: Id): (r: int)
    ensures r == 0 <==> a == b
    ensures r == 1 <==> Less(a, b)
    ensures r == -1 <==> Less(b, a)
  {
    LessTrichotomy(a, b);
    LessIrreflexive(a);
    if Less(a, b) then 1
    else if Less(b, a) then -1
    else 0
  }

  lemma NotLessTransitive(a: Id, b: Id, c: Id)
    requires !Less(a, b) && !Less(b, c)
    ensures !Less(a, c)
  {
    LessTrichotomy(a, b);
    LessTrichotomy(b, c);
    if Less(a, c) {
      if Less(b, a) {
        LessTransitive(b, a, c);
      }
    }
  }

  /** Sorted by `sortDesc`: no element is smaller than one that follows it. */
  ghost predicate Descending(s: seq<Id>)
  {
    forall i, j | 0 <= i < j < |s| :: !Less(s[i], s[j])
  }

  /** A sequence is in descending order exactly when the comparator never puts a later element first. */
  lemma SortDescDescending(s: seq<Id>)
    ensures Descending(s) <==> forall i, j | 0 <= i < j < |s| :: SortDesc(s[i], s[j]) <= 0
  {
    forall i, j | 0 <= i < j < |s|
      ensures SortDesc(s[i], s[j]) <= 0 <==> !Less(s[i], s[j])
    {
      var r := SortDesc(s[i], s[j]);
      assert r == 0 || r == 1 || r == -1;
    }
  }

  /** Inserts `x` in front of the first element it is not smaller than. */
  function Insert(x: Id, s: seq<Id>): (r: seq<Id>)
    ensures multiset(r) == multiset(s) + multiset{x}
  {
    if s == [] then [x]
    else if !Less(x, s[0]) then [x] + s
    else
      assert s == [s[0]] + s[1..];
      [s[0]] + Insert(x, s[1..])
  }

  /** `Array.prototype.sort(sortDesc)`, specified by its result only (see SortedDescIsSorted, SortedDescUnique). */
  function SortedDesc(s: seq<Id>): (r: seq<Id>)
    ensures multiset(r) == multiset(s)
  {
    if s == [] then []
    else
      assert s == [s[0]] + s[1..];
      Insert(s[0], SortedDesc(s[1..]))
  }

  lemma SortedDescMembers(s: seq<Id>)
    ensures forall x | x in SortedDesc(s) :: x in s
  {
    forall x | x in SortedDesc(s)
      ensures x in s
    {
      assert x in multiset(SortedDesc(s));
    }
  }

  lemma {:induction false} InsertDescending(x: Id, s: seq<Id>)
    requires Descending(s)
    ensures Descending(Insert(x, s))
  {
    if s == [] {
    } else if !Less(x, s[0]) {
      forall j | 0 < j < |s|
        ensures !Less(x, s[j])
      {
        NotLessTransitive(x, s[0], s[j]);
      }
    } else {
      InsertDescending(x, s[1..]);
      var r := Insert(x, s);
      var t := Insert(x, s[1..]);
      assert r == [s[0]] + t;
      forall j | 0 < j < |r|
        ensures !Less(r[0], r[j])
      {
        assert r[j] in multiset(t);
        assert r[j] == x || r[j] in multiset(s[1..]);
        if r[j] == x {
          LessTrichotomy(x, s[0]);
        } else {
          var k :| 1 <= k < |s| && s[k] == r[j];
        }
      }
    }
  }

  lemma {:induction false} SortedDescIsSorted(s: seq<Id>)
    ensures Descending(SortedDesc(s))
  {
    if s != [] {
      SortedDescIsSorted(s[1..]);
      InsertDescending(s[0], SortedDesc(s[1..]));
    }
  }

  /**
   * A descending order of a multiset of strings is unique: whatever
   * algorithm the sort uses, its result is determined by its input's elements.
   */
  lemma {:induction false} SortedDescUnique(a: seq<Id>, b: seq<Id>)
    requires Descending(a) && Descending(b)
    requires multiset(a) == multiset(b)
    ensures a == b
  {
    if a != [] {
      assert a == [a[0]] + a[1..];
      assert b != [] by { assert a[0] in multiset(b); }
      assert b == [b[0]] + b[1..];
      assert a[0] in multiset(b);
      assert b[0] in multiset(a);
      var i :| 0 <= i < |b| && b[i] == a[0];
      var j :| 0 <= j < |a| && a[j] == b[0];
      LessTrichotomy(a[0], b[0]);
      assert a[0] == b[0];
      assert multiset(a[1..]) == multiset(a) - multiset{a[0]};
      assert multiset(b[1..]) == multiset(b) - multiset{b[0]};
      SortedDescUnique(a[1..], b[1..]);
    }
  }

  /** Sorting is exactly the descending permutation: both directions of the specification. */
  lemma SortedDescCharacterized(s: seq<Id>, r: seq<Id>)
    ensures r == SortedDesc(s) <==> (Descending(r) && multiset(r) == multiset(s))
  {
    SortedDescIsSorted(s);
    if Descending(r) && multiset(r) == multiset(s) {
      SortedDescUnique(r, SortedDesc(s));
    }
  }
}
