/**
 Byte strings, the order Pebble sorts them in, and ordered pages of them.

 Go strings and Pebble keys are byte sequences compared byte by byte; every
 scan, range bound and cursor in the system is stated in this order.
 */
module Bytes {

  type Byte = b: int | 0 <= b < 256

  type Key = seq<Byte>

  /** Lexicographic byte order: the order of Go's `<` on strings and of Pebble. */
  predicate Less(a: Key, b: Key)
    decreases |a|
  {
    if a == [] then b != []
    else b != [] && (a[0] < b[0] || (a[0] == b[0] && Less(a[1..], b[1..])))
  }

  predicate AtMost(a: Key, b: Key) {
    a == b || Less(a, b)
  }

  lemma {:induction false} LessIrreflexive(a: Key)
    ensures !Less(a, a)
    decreases |a|
  {
    if a != [] { LessIrreflexive(a[1..]); }
  }

  lemma {:induction false} LessTransitive(a: Key, b: Key, c: Key)
    requires Less(a, b) && Less(b, c)
    ensures Less(a, c)
    decreases |a|
  {
    if a != [] && a[0] == b[0] == c[0] { LessTransitive(a[1..], b[1..], c[1..]); }
  }

  lemma {:induction false} LessTotal(a: Key, b: Key)
    ensures Less(a, b) || a == b || Less(b, a)
    decreases |a|
  {
    if a != [] && b != [] && a[0] == b[0] {
      LessTotal(a[1..], b[1..]);
      assert a == [a[0]] + a[1..] && b == [b[0]] + b[1..];
    }
  }

  /** The three laws at once, for proofs that compare many keys. */
  lemma TotalOrder()
    ensures forall a: Key :: !Less(a, a)
    ensures forall a: Key, b: Key, c: Key {:trigger Less(a, b), Less(b, c)} :: Less(a, b) && Less(b, c) ==> Less(a, c)
    ensures forall a: Key, b: Key {:trigger Less(a, b)} {:trigger Less(b, a)} {:trigger AtMost(a, b)} :: Less(a, b) || a == b || Less(b, a)
  {
    forall a: Key ensures !Less(a, a) { LessIrreflexive(a); }
    forall a: Key, b: Key, c: Key | Less(a, b) && Less(b, c) ensures Less(a, c) { LessTransitive(a, b, c); }
    forall a: Key, b: Key ensures Less(a, b) || a == b || Less(b, a) { LessTotal(a, b); }
  }

  /** A common prefix does not change how two keys compare. */
  lemma {:induction false} LessAfterPrefix(p: Key, a: Key, b: Key)
    ensures Less(p + a, p + b) <==> Less(a, b)
    decreases |p|
  {
    if p == [] {
      assert p + a == a && p + b == b;
    } else {
      LessAfterPrefix(p[1..], a, b);
      assert (p + a)[1..] == p[1..] + a && (p + b)[1..] == p[1..] + b;
    }
  }

  // --- counting ---------------------------------------------------------------

  lemma {:induction false} SubsetSize<T>(a: set<T>, b: set<T>)
    requires a <= b
    ensures |a| <= |b|
    decreases |a|
  {
    if a != {} {
      var x :| x in a;
      SubsetSize(a - {x}, b - {x});
    }
  }

  /** The distinct members of a sequence: no more than it is long. */
  ghost function Members<T(!new)>(q: seq<T>): (all: set<T>)
    ensures forall x :: x in all <==> x in q
    ensures |all| <= |q|
    decreases |q|
  {
    if q == [] then {}
    else
      assert q == q[..|q| - 1] + [q[|q| - 1]];
      Members(q[..|q| - 1]) + {q[|q| - 1]}
  }

  /** A set larger than a list is long has an element the list does not hold. */
  lemma Unlisted<T(!new)>(all: set<T>, listed: seq<T>)
    requires |listed| < |all|
    ensures exists x :: x in all && x !in listed
  {
    if all <= Members(listed) { SubsetSize(all, Members(listed)); }
    var x :| x in all && x !in Members(listed);
  }

  // --- half-open ranges -----------------------------------------------------

  /** A range [start, end); an empty end reads "to the end of the keyspace". */
  datatype Range = Range(start: Key, end: Key) {
    predicate Contains(k: Key) {
      AtMost(start, k) && (end == [] || Less(k, end))
    }
  }

  // --- ascending pages ------------------------------------------------------

  predicate Ascending(q: seq<Key>) {
    forall i, j :: 0 <= i < j < |q| ==> Less(q[i], q[j])
  }

  /**
   `page` is the first `limit` keys of `keys` in order: it lists keys of the
   set ascending, skips none, and stops short of `limit` only when the set is
   exhausted.
   */
  ghost predicate IsPage(page: seq<Key>, keys: set<Key>, limit: nat) {
    && Ascending(page)
    && |page| <= limit
    && (forall k :: k in page ==> k in keys)
    && (forall k, l :: k in page && l in keys && Less(l, k) ==> l in page)
    && (|page| < limit ==> forall k :: k in keys ==> k in page)
  }

  /** The keys of a set that lie strictly after a cursor. */
  ghost function After(keys: set<Key>, cursor: Key): set<Key> {
    set k | k in keys && Less(cursor, k)
  }

  /**
   Following cursors: the page after the last key of a full page continues
   the listing exactly, with no key repeated and none skipped.
   */
  lemma PagesContinue(first: seq<Key>, second: seq<Key>, keys: set<Key>, limit: nat, more: nat)
    requires limit > 0 && |first| == limit
    requires IsPage(first, keys, limit)
    requires IsPage(second, After(keys, first[|first| - 1]), more)
    ensures IsPage(first + second, keys, limit + more)
  {
    TotalOrder();
    var whole := first + second;
    var last := first[|first| - 1];
    assert last in first;
    forall i, j | 0 <= i < j < |whole| ensures Less(whole[i], whole[j]) {
      if i < |first| <= j {
        assert whole[j] == second[j - |first|] && second[j - |first|] in second;
      }
    }
    forall k, l | k in whole && l in keys && Less(l, k) ensures l in whole {
      if k in first {
      } else if Less(last, l) {
        assert l in After(keys, last);
      }
    }
    forall k | |whole| < limit + more && k in keys ensures k in whole {
      if !Less(last, k) { assert k == last || Less(k, last); } else { assert k in After(keys, last); }
    }
  }

  // --- iterators ------------------------------------------------------------

  predicate IsLeast(k: Key, keys: set<Key>) {
    k in keys && forall l :: l in keys ==> AtMost(k, l)
  }

  /** Every non-empty set of keys has a least member. */
  lemma {:induction false} LeastExists(keys: set<Key>)
    requires keys != {}
    ensures exists k :: IsLeast(k, keys)
    decreases |keys|
  {
    var k :| k in keys;
    var rest := keys - {k};
    assert keys == {k} + rest;
    if rest == {} {
      assert IsLeast(k, keys);
    } else {
      LeastExists(rest);
      var m :| IsLeast(m, rest);
      TotalOrder();
      if Less(k, m) {
        assert IsLeast(k, keys);
      } else {
        assert IsLeast(m, keys);
      }
    }
  }

  lemma LeastUnique(keys: set<Key>)
    ensures forall k, l :: IsLeast(k, keys) && IsLeast(l, keys) ==> k == l
  {
    TotalOrder();
  }

  /** The least member of a set. */
  function Least(keys: set<Key>): (k: Key)
    requires keys != {}
    ensures IsLeast(k, keys)
  {
    LeastExists(keys);
    LeastUnique(keys);
    var k :| k in keys && IsLeast(k, keys);
    k
  }

  /** The keys of a set in order: what a Pebble iterator over it yields. */
  function Sorted(keys: set<Key>): (q: seq<Key>)
    ensures Ascending(q)
    ensures forall k :: k in q <==> k in keys
    ensures |q| == |keys|
    decreases |keys|
  {
    if keys == {} then []
    else
      var k := Least(keys);
      var rest := Sorted(keys - {k});
      assert keys == {k} + (keys - {k});
      SortedStep(k, rest, keys);
      [k] + rest
  }

  lemma SortedStep(k: Key, rest: seq<Key>, keys: set<Key>)
    requires IsLeast(k, keys) && Ascending(rest)
    requires forall l :: l in rest <==> l in keys && l != k
    ensures Ascending([k] + rest)
    ensures forall l :: l in [k] + rest <==> l in keys
  {
    var q := [k] + rest;
    forall i, j | 0 <= i < j < |q| ensures Less(q[i], q[j]) {
      assert q[j] == rest[j - 1] && rest[j - 1] in rest;
    }
  }

  lemma AscendingIndex(q: seq<Key>, i: nat, j: nat)
    requires Ascending(q) && i < |q| && j < |q| && Less(q[j], q[i])
    ensures j < i
  {
    LessIrreflexive(q[i]);
    if i < j { LessTransitive(q[i], q[j], q[i]); }
  }

  /** Taking the first keys an iterator yields gives a page. */
  lemma TakeIsPage(q: seq<Key>, keys: set<Key>, limit: nat)
    requires Ascending(q) && forall k :: k in q <==> k in keys
    ensures IsPage(if |q| <= limit then q else q[..limit], keys, limit)
  {
    if |q| > limit {
      var page := q[..limit];
      forall k, l | k in page && l in keys && Less(l, k) ensures l in page {
        var i :| 0 <= i < limit && q[i] == k;
        var j :| 0 <= j < |q| && q[j] == l;
        AscendingIndex(q, i, j);
        assert page[j] == l;
      }
    }
  }

  lemma {:induction false} AscendingCount(q: seq<Key>)
    requires Ascending(q)
    ensures |Members(q)| == |q|
    decreases |q|
  {
    if q != [] {
      var init, last := q[..|q| - 1], q[|q| - 1];
      AscendingCount(init);
      if last in init {
        var i :| 0 <= i < |init| && init[i] == last;
        LessIrreflexive(last);
      }
    }
  }

  /** A page is as long as asked for, or as there are keys. */
  lemma PageCount(page: seq<Key>, keys: set<Key>, limit: nat)
    requires IsPage(page, keys, limit)
    ensures |page| == if |keys| < limit then |keys| else limit
  {
    AscendingCount(page);
    SubsetSize(Members(page), keys);
    if |page| < limit { assert Members(page) == keys; }
  }
}
