/** The strict lexicographic order on code units, and ascending lists under it. */
module Lex {
  predicate Less(a: seq<int>, b: seq<int>) {
    if b == [] then false
    else if a == [] then true
    else if a[0] != b[0] then a[0] < b[0]
    else Less(a[1..], b[1..])
  }

  lemma {:induction false} Irreflexive(a: seq<int>)
    ensures !Less(a, a)
  {
    if a != [] {
      Irreflexive(a[1..]);
    }
  }

  lemma {:induction false} Transitive(a: seq<int>, b: seq<int>, c: seq<int>)
    requires Less(a, b) && Less(b, c)
    ensures Less(a, c)
  {
    if a != [] && a[0] == b[0] && b[0] == c[0] {
      Transitive(a[1..], b[1..], c[1..]);
    }
  }

  lemma {:induction false} Total(a: seq<int>, b: seq<int>)
    ensures Less(a, b) || a == b || Less(b, a)
  {
    if a != [] && b != [] && a[0] == b[0] {
      Total(a[1..], b[1..]);
      assert a == [a[0]] + a[1..] && b == [b[0]] + b[1..];
    }
  }

  /** `keys` is strictly ascending when compared through `units`. */
  predicate Ascending<T>(units: T -> seq<int>, keys: seq<T>) {
    forall i, j :: 0 <= i < j < |keys| ==> Less(units(keys[i]), units(keys[j]))
  }

  /** Appending a key above the last one keeps a list ascending. */
  lemma AscendingSnoc<T>(units: T -> seq<int>, keys: seq<T>, key: T)
    requires Ascending(units, keys)
    requires keys != [] ==> Less(units(keys[|keys| - 1]), units(key))
    ensures Ascending(units, keys + [key])
  {
    var longer := keys + [key];
    forall i, j | 0 <= i < j < |longer|
      ensures Less(units(longer[i]), units(longer[j]))
    {
      if j == |keys| && i < |keys| - 1 {
        Transitive(units(keys[i]), units(keys[|keys| - 1]), units(key));
      }
    }
  }

  lemma BothEmpty<T>(a: seq<T>, b: seq<T>)
    requires forall k :: k in a <==> k in b
    ensures a == [] <==> b == []
  {
    if a != [] {
      assert a[0] in b;
    }
    if b != [] {
      assert b[0] in a;
    }
  }

  /** An ascending list is determined by the set of its elements. */
  lemma {:induction false} AscendingUnique<T>(units: T -> seq<int>, a: seq<T>, b: seq<T>)
    requires Ascending(units, a) && Ascending(units, b)
    requires forall k :: k in a <==> k in b
    ensures a == b
  {
    BothEmpty(a, b);
    if a != [] {
      assert a[0] in b;
      assert b[0] in a;
      assert a[0] == b[0] by {
        var i :| 0 <= i < |a| && a[i] == b[0];
        var j :| 0 <= j < |b| && b[j] == a[0];
        if i > 0 && j > 0 {
          Transitive(units(a[0]), units(b[0]), units(a[0]));
          Irreflexive(units(a[0]));
        }
      }
      Irreflexive(units(a[0]));
      assert a == [a[0]] + a[1..] && b == [b[0]] + b[1..];
      forall k
        ensures k in a[1..] <==> k in b[1..]
      {
        assert k in a[1..] ==> k in a && k != a[0];
        assert k in b[1..] ==> k in b && k != b[0];
        assert k in a && k != a[0] ==> k in a[1..];
        assert k in b && k != b[0] ==> k in b[1..];
      }
      AscendingUnique(units, a[1..], b[1..]);
    }
  }

  predicate Distinct<T(==)>(keys: seq<T>) {
    forall i, j :: 0 <= i < j < |keys| ==> keys[i] != keys[j]
  }

  lemma AscendingDistinct<T>(units: T -> seq<int>, keys: seq<T>)
    requires Ascending(units, keys)
    ensures Distinct(keys)
  {
    forall i, j | 0 <= i < j < |keys|
      ensures keys[i] != keys[j]
    {
      Irreflexive(units(keys[i]));
    }
  }

  /** `a` and `b` agree on their first `k` elements, and what comes then puts `a` first. */
  ghost predicate FirstAt(a: seq<int>, b: seq<int>, k: nat) {
    && k <= |a| && k < |b|
    && (forall i :: 0 <= i < k ==> a[i] == b[i])
    && (k == |a| || a[k] < b[k])
  }

  /** The order in full: a proper prefix comes first, otherwise the first difference decides. */
  lemma {:induction false} LessMeaning(a: seq<int>, b: seq<int>)
    ensures Less(a, b) <==> exists k: nat :: FirstAt(a, b, k)
  {
    if a == [] || b == [] || a[0] != b[0] {
      assert Less(a, b) ==> FirstAt(a, b, 0);
    } else {
      LessMeaning(a[1..], b[1..]);
      if Less(a, b) {
        var k: nat :| FirstAt(a[1..], b[1..], k);
        assert FirstAt(a, b, k + 1);
      }
      forall k: nat | FirstAt(a, b, k)
        ensures Less(a, b)
      {
        assert FirstAt(a[1..], b[1..], k - 1);
      }
    }
  }
}
